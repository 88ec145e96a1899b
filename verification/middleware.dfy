/** The request gate run before every view: media paths of documents and
    versions are refused outright, diff files and four fixed paths pass
    freely, everything else needs an `Authorization` header carrying an
    unexpired token. */
module Middleware {
  import opened Results
  import opened Text
  import opened Paths
  import Documents

  /** The part of a decoded token the gate reads: its `exp` claim, when it
      is present and an integer. */
  datatype Payload = Payload(exp: Option<int>)

  /** `jwt.decode` with the service's secret; `None` when it raises. */
  type Decoder = string -> Option<Payload>

  /** The gate's answer: let the request through, answer 401 with a
      message, or fail with an uncaught exception. */
  datatype Verdict = Pass | Unauthorized(message: string) | ServerError

  const VersionMedia := "/media/document_version_files/"
  const DocumentMedia := "/media/document/"
  const DiffMedia := "/media/document_diff_files/"
  const Whitelist := ["/docs", "/api/v1/login/", "/api/v1/register/", "/api/v1/reset-password/"]

  const MediaMessage := "Use '/api/v1/fetch_document/' api to fetch or view a media document."
  const TokenMessage := "Invalid token in header."

  /** Paths whose files must only be reached through the fetch view. */
  predicate Blocked(path: string)
  {
    Contains(path, VersionMedia) || Contains(path, DocumentMedia)
  }

  /** The gate looks for the media directories anywhere in the path, so a
      path that is refused stays refused whatever surrounds it. */
  lemma BlockedAnywhere(a: string, path: string, b: string)
    requires Blocked(path)
    ensures Blocked(a + path + b)
  {
    if Contains(path, VersionMedia) {
      ContainsInfix(a, path, b, VersionMedia);
    } else {
      ContainsInfix(a, path, b, DocumentMedia);
    }
  }

  /** The outcome of reading the caller from the `Authorization` header. */
  datatype JwtUser =
    | NoUser                   // no user: the request is refused
    | Malformed                // the header does not split into two words
    | User(payload: Payload)   // a decoded, unexpired token

  /** Read the token: a missing or empty header gives no user; a header
      that is not exactly two words raises (the unpacking error is not
      caught); the second word is decoded, and its `exp` must lie strictly
      after the current time `now`. */
  function GetJwtUser(header: Option<string>, decode: Decoder, now: int): (r: JwtUser)
    ensures r.Malformed? <==> header.Some? && header.value != [] && |Split(header.value)| != 2
    ensures r.User? <==>
              && header.Some? && |Split(header.value)| == 2
              && decode(Split(header.value)[1]).Some?
              && decode(Split(header.value)[1]).value.exp.Some?
              && now < decode(Split(header.value)[1]).value.exp.value
    ensures r.User? ==> r.payload == decode(Split(header.value)[1]).value
  {
    if header.None? || header.value == [] then NoUser
    else
      var words := Split(header.value);
      if |words| != 2 then Malformed
      else
        match decode(words[1])
        case None => NoUser
        case Some(p) =>
          if p.exp.Some? && now < p.exp.value then User(p) else NoUser
  }

  /** The gate on one request, as written: a header that does not split
      into exactly two words makes the unpacking raise, and nothing catches
      it. */
  function ProcessRequestAsWritten(path: string, header: Option<string>, decode: Decoder, now: int): (v: Verdict)
    ensures Blocked(path) ==> v == Unauthorized(MediaMessage)
    ensures v == ServerError <==>
              !Blocked(path) && !Contains(path, DiffMedia) && path !in Whitelist
              && GetJwtUser(header, decode, now).Malformed?
  {
    if Blocked(path) then Unauthorized(MediaMessage)
    else if Contains(path, DiffMedia) then Pass
    else if path !in Whitelist then
      match GetJwtUser(header, decode, now)
      case User(_) => Pass
      case Malformed => ServerError
      case NoUser => Unauthorized(TokenMessage)
    else Pass
  }

  /** The gate on one request, with a malformed header refused like any
      other bad token. Blocked media paths are refused whatever the token;
      diff files and the four listed paths pass without one; every other
      path passes exactly when the token is valid and unexpired. */
  function ProcessRequest(path: string, header: Option<string>, decode: Decoder, now: int): (v: Verdict)
    ensures v != ServerError
    ensures Blocked(path) ==> v == Unauthorized(MediaMessage)
    ensures !Blocked(path) && Contains(path, DiffMedia) ==> v == Pass
    ensures !Blocked(path) && path in Whitelist ==> v == Pass
    ensures !Blocked(path) && !Contains(path, DiffMedia) && path !in Whitelist ==>
              && (v == Pass <==> GetJwtUser(header, decode, now).User?)
              && (v != Pass ==> v == Unauthorized(TokenMessage))
  {
    if Blocked(path) then Unauthorized(MediaMessage)
    else if Contains(path, DiffMedia) then Pass
    else if path !in Whitelist then
      match GetJwtUser(header, decode, now)
      case User(_) => Pass
      case Malformed | NoUser => Unauthorized(TokenMessage)
    else Pass
  }

  /** The two gates differ only where the written one fails. */
  lemma GatesAgreeOffMalformedHeaders(path: string, header: Option<string>, decode: Decoder, now: int)
    requires ProcessRequestAsWritten(path, header, decode, now) != ServerError
    ensures ProcessRequestAsWritten(path, header, decode, now) == ProcessRequest(path, header, decode, now)
  {
  }

  /** A one-word `Authorization` header on the document list fails the
      written gate with an uncaught error instead of a 401. */
  lemma OneWordHeaderCrashes(decode: Decoder, now: int)
    ensures ProcessRequestAsWritten("/api/v1/document/", Some("Bearer"), decode, now) == ServerError
    ensures ProcessRequest("/api/v1/document/", Some("Bearer"), decode, now) == Unauthorized(TokenMessage)
  {
    DocumentListIsGuarded();
    OneWordHeader();
  }

  /** The document list is neither a media path nor free to reach. */
  lemma DocumentListIsGuarded()
    ensures var path := "/api/v1/document/";
            !Blocked(path) && !Contains(path, DiffMedia) && path !in Whitelist
  {
    var path := "/api/v1/document/";
    ContainsOneLonger(path, DocumentMedia);
    assert path[1] == 'a' && DocumentMedia[0] == '/' && DocumentMedia[1] == 'm';
    var first, second := path[..|DocumentMedia|], path[1..];
    assert first[1] == path[1] && second[0] == path[1];
  }

  /** A header of one word is malformed. */
  lemma OneWordHeader()
    ensures Split("Bearer") == ["Bearer"]
  {
    assert NoSpace("Bearer");
    SplitLastWord("Bearer", []);
    assert "Bearer" + [] == "Bearer";
  }

  /** With a well-formed `<scheme> <token>` header on a guarded path, the
      request passes exactly when the token decodes to an `exp` strictly
      later than now: a token expiring this very second is refused. */
  lemma BearerHeader(path: string, scheme: string, token: string, decode: Decoder, now: int)
    requires !Blocked(path) && !Contains(path, DiffMedia) && path !in Whitelist
    requires scheme != [] && NoSpace(scheme) && token != [] && NoSpace(token)
    ensures var v := ProcessRequest(path, Some(scheme + " " + token), decode, now);
            && (v == Pass <==> decode(token).Some? && decode(token).value.exp.Some?
                               && now < decode(token).value.exp.value)
            && (decode(token) == Some(Payload(Some(now))) ==> v == Unauthorized(TokenMessage))
  {
    SplitTwoWords([], scheme, " ", token, []);
    assert [] + (scheme + (" " + (token + []))) == scheme + " " + token;
  }

  /** A guarded path with no header, or an empty one, is refused. */
  lemma NoHeaderRefused(path: string, header: Option<string>, decode: Decoder, now: int)
    requires !Blocked(path) && !Contains(path, DiffMedia) && path !in Whitelist
    requires header.None? || header == Some([])
    ensures ProcessRequest(path, header, decode, now) == Unauthorized(TokenMessage)
  {
  }

  /** The media URL of any stored document file or version file is
      refused, whatever token comes with it. */
  lemma StoredFilesAreBlocked(name: FileName, header: Option<string>, decode: Decoder, now: int)
    ensures ProcessRequest("/media/" + Documents.DocumentDir + name, header, decode, now)
         == Unauthorized(MediaMessage)
    ensures ProcessRequest("/media/" + Documents.VersionDir + name, header, decode, now)
         == Unauthorized(MediaMessage)
  {
    MediaDirs();
    MediaUnderIsBlocked(DocumentMedia, name, header, decode, now);
    MediaUnderIsBlocked(VersionMedia, name, header, decode, now);
  }

  /** The blocked prefixes are the upload directories under `/media/`. */
  lemma MediaDirs()
    ensures "/media/" + Documents.DocumentDir == DocumentMedia
    ensures "/media/" + Documents.VersionDir == VersionMedia
  {
    DocumentMediaDir();
    VersionMediaDir();
  }

  lemma DocumentMediaDir()
    ensures "/media/" + Documents.DocumentDir == DocumentMedia
  {
  }

  lemma VersionMediaDir()
    ensures "/media/" + Documents.VersionDir == VersionMedia
  {
  }

  lemma MediaUnderIsBlocked(media: string, name: FileName, header: Option<string>, decode: Decoder, now: int)
    requires media == DocumentMedia || media == VersionMedia
    ensures ProcessRequest(media + name, header, decode, now) == Unauthorized(MediaMessage)
  {
    assert (media + name)[..|media|] == media;
    ContainsPrefix(media, name, media);
  }
}
