/** The consistency the document store keeps across every request, and
    the edit-lock protocol seen from several requests in a row. */
module Invariants {
  import opened Results
  import opened Errors
  import opened Lines
  import opened Paths
  import opened Documents
  import opened Serializers
  import opened Views

  /** No owner has two documents of the same name (`unique_together`). */
  predicate UniqueNames(docs: map<DocId, Document>)
  {
    forall a, b :: a in docs && b in docs && docs[a].owner == docs[b].owner && docs[a].name == docs[b].name ==> a == b
  }

  /** Owners and collaborators are registered users. */
  predicate MembersRegistered(s: Store)
  {
    forall id :: id in s.docs ==>
      s.docs[id].owner in s.users && forall u :: u in s.docs[id].sharedWith ==> u in s.users
  }

  /** A consistent store: keys below the next key and matching the rows,
      every document well formed (lock held by a member, collaborators
      without repeats and without the owner), unique names per owner, and
      every version attached to an existing document. */
  predicate Valid(s: Store)
  {
    && (forall id :: id in s.docs ==> id < s.nextId && s.docs[id].id == id)
    && (forall id :: id in s.docs ==> WellFormed(s.docs[id]))
    && MembersRegistered(s)
    && UniqueNames(s.docs)
    && (forall i :: 0 <= i < |s.versions| ==> s.versions[i].parent in s.docs)
  }

  /** An empty database is consistent. */
  function Initial(users: set<UserId>): (s: Store)
    ensures Valid(s) && s.docs == map[] && s.versions == []
  {
    Store(users, map[], [], 1)
  }

  // ---------------------------------------------------------------------------
  // Each view keeps the store consistent and only appends to the history.

  /** Replacing one document by a well-formed row with the same key,
      owner and name, whose members are registered, keeps the store
      consistent. */
  lemma {:induction false} UpdatePreservesValid(s: Store, id: DocId, e: Document)
    requires Valid(s) && id in s.docs
    requires e.id == id && e.owner == s.docs[id].owner && e.name == s.docs[id].name
    requires WellFormed(e) && forall u :: u in e.sharedWith ==> u in s.users
    ensures Valid(s.(docs := s.docs[id := e]))
  {
    var t := s.(docs := s.docs[id := e]);
    assert UniqueNames(t.docs) by {
      forall a, b | a in t.docs && b in t.docs && t.docs[a].owner == t.docs[b].owner && t.docs[a].name == t.docs[b].name
        ensures a == b
      {
        assert t.docs[a].owner == s.docs[a].owner && t.docs[a].name == s.docs[a].name;
        assert t.docs[b].owner == s.docs[b].owner && t.docs[b].name == s.docs[b].name;
      }
    }
  }

  /** Appending a version of an existing document keeps the store
      consistent. */
  lemma {:induction false} AppendPreservesValid(s: Store, vs: seq<DocumentVersion>)
    requires Valid(s)
    requires |vs| == |s.versions| + 1 && vs[..|s.versions|] == s.versions
    requires vs[|s.versions|].parent in s.docs
    ensures Valid(s.(versions := vs))
  {
    assert forall i :: 0 <= i < |s.versions| ==> vs[i] == s.versions[i];
  }

  /** Inserting a new document of a registered user under a fresh key and
      a name that user does not use yet keeps the store consistent. */
  lemma {:induction false} InsertPreservesValid(s: Store, caller: UserId, name: string, upload: Upload, now: int)
    requires Valid(s) && caller in s.users
    requires s.nextId !in s.docs && !NameTaken(s.docs, caller, name) && ValidFileName(upload.name).Some?
    ensures var t := InsertDocument(s, caller, name, upload, now);
            Valid(t) && s.versions <= t.versions
  {
    var id := s.nextId;
    var t := InsertDocument(s, caller, name, upload, now);
    assert t.docs == s.docs[id := t.docs[id]] by {
      assert t.docs - {id} == s.docs;
    }
    assert WellFormed(t.docs[id]);
    assert MembersRegistered(t);
    assert UniqueNames(t.docs) by {
      forall a, b | a in t.docs && b in t.docs && t.docs[a].owner == t.docs[b].owner && t.docs[a].name == t.docs[b].name
        ensures a == b
      {
      }
    }
    assert forall i :: 0 <= i < |s.versions| ==> t.versions[i] == s.versions[i];
  }

  lemma {:induction false} CreatePreservesValid(s: Store, caller: UserId, req: CreateRequest, now: int)
    requires Valid(s) && caller in s.users
    requires CreateDocument(s, caller, req, now).Ok?
    ensures var t := CreateDocument(s, caller, req, now).value.0;
            Valid(t) && s.versions <= t.versions
  {
    var (name, upload) := ValidateCreate(req).value;
    InsertPreservesValid(s, caller, name, upload, now);
  }

  lemma {:induction false} AddPreservesValid(s: Store, caller: UserId, req: CollaboratorRequest)
    requires Valid(s)
    requires HandleAddCollaborator(s, caller, req).Ok?
    ensures var t := HandleAddCollaborator(s, caller, req).value;
            Valid(t) && t.versions == s.versions
  {
    var (id, u) := ValidateCollaboratorRequest(s.docs, s.users, req).value;
    var d := s.docs[id];
    var e := AddCollaborator(d, u);
    assert forall j :: 0 <= j < |d.sharedWith| ==> e.sharedWith[j] == d.sharedWith[j];
    UpdatePreservesValid(s, id, e);
  }

  lemma {:induction false} RemovePreservesValid(s: Store, caller: UserId, req: CollaboratorRequest)
    requires Valid(s)
    requires HandleRemoveCollaborator(s, caller, req).Ok?
    ensures var t := HandleRemoveCollaborator(s, caller, req).value;
            Valid(t) && t.versions == s.versions
  {
    var (id, u) := ValidateCollaboratorRequest(s.docs, s.users, req).value;
    var d := s.docs[id];
    WithoutNoDuplicates(d.sharedWith, u);
    UpdatePreservesValid(s, id, RemoveCollaborator(d, u));
  }

  lemma {:induction false} FetchPreservesValid(s: Store, caller: UserId, id: int)
    requires Valid(s)
    requires id in s.docs && IsMember(s.docs[id], caller)
    requires s.docs[id].editedBy == None || s.docs[id].editedBy == Some(caller)
    ensures var t := FetchDocument(s, caller, id).value.0;
            Valid(t) && t.versions == s.versions
  {
    UpdatePreservesValid(s, id, s.docs[id].(editedBy := Some(caller)));
  }

  lemma {:induction false} UploadPreservesValid(s: Store, caller: UserId, id: int, req: UploadRequest,
                             now: int, tag: FileName, differ: Differ, decodes: Decodable)
    requires Valid(s)
    requires UploadEditedDocument(s, caller, id, req, now, tag, differ, decodes).Ok?
    ensures var t := UploadEditedDocument(s, caller, id, req, now, tag, differ, decodes).value;
            Valid(t) && s.versions <= t.versions
  {
    var t := UploadEditedDocument(s, caller, id, req, now, tag, differ, decodes).value;
    var u := req.document.value;
    UploadKeeps(s, caller, id, req, now, tag, differ, decodes);
    if u.content == s.docs[id].file.content {
      assert t == UploadUnchanged(s, caller, id, u, now);
      AppendPreservesValid(s, t.versions);
    } else {
      assert t == UploadChanged(s, caller, id, u, now, DiffFileName(tag, Suffix(s.docs[id].file.path)), differ);
      var e := t.docs[id];
      UpdatePreservesValid(s, id, e);
      var s' := s.(docs := s.docs[id := e]);
      AppendPreservesValid(s', t.versions);
      assert t == s'.(versions := t.versions);
    }
    assert s.versions <= t.versions;
  }

  // ---------------------------------------------------------------------------
  // Runs of requests

  /** One request to the service, by an authenticated caller. The clock,
      the random diff-file tag, the differencing routine and the text
      decoding are inputs. */
  datatype Request =
    | Create(caller: UserId, create: CreateRequest, now: int)
    | Add(caller: UserId, body: CollaboratorRequest)
    | Remove(caller: UserId, body: CollaboratorRequest)
    | Fetch(caller: UserId, id: int)
    | Reupload(caller: UserId, id: int, upload: UploadRequest, now: int, tag: FileName, differ: Differ,
                decodes: Decodable)

  /** Serve one request as one atomic transition; a rejected request leaves
      the store as it was. */
  function Step(s: Store, q: Request): Store
  {
    match q
    case Create(c, req, now) =>
      (match CreateDocument(s, c, req, now) case Ok((t, _)) => t case Err(_) => s)
    case Add(c, req) =>
      (match HandleAddCollaborator(s, c, req) case Ok(t) => t case Err(_) => s)
    case Remove(c, req) =>
      (match HandleRemoveCollaborator(s, c, req) case Ok(t) => t case Err(_) => s)
    case Fetch(c, id) =>
      (match FetchDocument(s, c, id) case Ok((t, _)) => t case Err(_) => s)
    case Reupload(c, id, req, now, tag, differ, decodes) =>
      (match UploadEditedDocument(s, c, id, req, now, tag, differ, decodes) case Ok(t) => t case Err(_) => s)
  }

  /** Whether or not the store is consistent, no request changes the user
      table or an earlier version row, and keys are never reused. */
  lemma StepKeeps(s: Store, q: Request)
    ensures var t := Step(s, q); t.users == s.users && s.versions <= t.versions && s.nextId <= t.nextId
  {
    var t := Step(s, q);
    match q
    case Create(c, req, now) =>
      assert s.versions <= t.versions;
    case Add(c, req) =>
      assert s.versions <= t.versions;
    case Remove(c, req) =>
      assert s.versions <= t.versions;
    case Fetch(c, id) =>
      assert s.versions <= t.versions;
    case Reupload(c, id, req, now, tag, differ, decodes) =>
      if UploadEditedDocument(s, c, id, req, now, tag, differ, decodes).Ok? {
        UploadKeeps(s, c, id, req, now, tag, differ, decodes);
      }
  }

  /** The same, for an accepted re-upload. */
  lemma UploadKeeps(s: Store, caller: UserId, id: int, req: UploadRequest,
                    now: int, tag: FileName, differ: Differ, decodes: Decodable)
    requires UploadEditedDocument(s, caller, id, req, now, tag, differ, decodes).Ok?
    ensures var t := UploadEditedDocument(s, caller, id, req, now, tag, differ, decodes).value;
            t.users == s.users && s.versions <= t.versions && s.nextId == t.nextId
  {
    var t := UploadEditedDocument(s, caller, id, req, now, tag, differ, decodes).value;
    var u := req.document.value;
    if u.content == s.docs[id].file.content {
      assert t == UploadUnchanged(s, caller, id, u, now);
    } else {
      assert t == UploadChanged(s, caller, id, u, now, DiffFileName(tag, Suffix(s.docs[id].file.path)), differ);
    }
  }

  /** Serve the requests one after the other. */
  function Run(s: Store, qs: seq<Request>): Store
    decreases |qs|
  {
    if qs == [] then s else Run(Step(s, qs[0]), qs[1..])
  }

  /** Every request keeps the store consistent, keeps the user table and
      only ever appends to the version history. */
  lemma {:induction false} StepPreservesValid(s: Store, q: Request)
    requires Valid(s) && q.caller in s.users
    ensures Valid(Step(s, q)) && Step(s, q).users == s.users && s.versions <= Step(s, q).versions
  {
    match q
    case Create(c, req, now) =>
      if CreateDocument(s, c, req, now).Ok? { CreatePreservesValid(s, c, req, now); }
    case Add(c, req) =>
      if HandleAddCollaborator(s, c, req).Ok? { AddPreservesValid(s, c, req); }
    case Remove(c, req) =>
      if HandleRemoveCollaborator(s, c, req).Ok? { RemovePreservesValid(s, c, req); }
    case Fetch(c, id) =>
      if FetchDocument(s, c, id).Ok? { FetchPreservesValid(s, c, id); }
    case Reupload(c, id, req, now, tag, differ, decodes) =>
      if UploadEditedDocument(s, c, id, req, now, tag, differ, decodes).Ok? {
        UploadPreservesValid(s, c, id, req, now, tag, differ, decodes);
      }
  }

  /** From any consistent store, every run of requests by registered users
      ends in a consistent store whose history extends the original one:
      in particular every document's lock is free or held by its owner or
      one of its collaborators. */
  lemma {:induction false} RunPreservesValid(s: Store, qs: seq<Request>)
    requires Valid(s)
    requires forall i :: 0 <= i < |qs| ==> qs[i].caller in s.users
    ensures Valid(Run(s, qs))
    ensures s.versions <= Run(s, qs).versions
    ensures forall id :: id in Run(s, qs).docs ==> LockHeldByMember(Run(s, qs).docs[id])
    decreases |qs|
  {
    if qs != [] {
      StepPreservesValid(s, qs[0]);
      var t := Step(s, qs[0]);
      assert forall i :: 0 <= i < |qs[1..]| ==> qs[1..][i] == qs[i + 1];
      RunPreservesValid(t, qs[1..]);
    }
  }

  // ---------------------------------------------------------------------------
  // The edit lock across requests

  /** Fetching again as the lock holder is accepted and changes nothing. */
  lemma {:induction false} FetchIdempotent(s: Store, caller: UserId, id: int)
    requires id in s.docs && IsMember(s.docs[id], caller)
    requires s.docs[id].editedBy == None || s.docs[id].editedBy == Some(caller)
    ensures FetchDocument(FetchDocument(s, caller, id).value.0, caller, id) == FetchDocument(s, caller, id)
  {
    var (t, dl) := FetchDocument(s, caller, id).value;
    FetchByHolder(t, caller, id);
  }

  /** The lock holder's fetch returns the file and changes nothing. */
  lemma {:induction false} FetchByHolder(t: Store, caller: UserId, id: int)
    requires id in t.docs && t.docs[id].editedBy == Some(caller) && IsMember(t.docs[id], caller)
    ensures FetchDocument(t, caller, id)
         == Ok((t, Download(t.docs[id].name + Suffix(t.docs[id].file.path), t.docs[id].file.content)))
  {
    assert t.docs[id := t.docs[id]] == t.docs;
  }

  /** After a fetch, every other user is turned away until the lock is
      freed: a non-member as unauthorised, a member as locked out. */
  lemma {:induction false} FetchLocksOthersOut(s: Store, caller: UserId, other: UserId, id: int)
    requires id in s.docs && IsMember(s.docs[id], caller)
    requires s.docs[id].editedBy == None || s.docs[id].editedBy == Some(caller)
    requires other != caller
    ensures var t := FetchDocument(s, caller, id).value.0;
            FetchDocument(t, other, id) == Err(
              if IsMember(s.docs[id], other) then DocumentLocked else NotAuthorizedToFetch)
  {
  }

  /** A file whose suffix matches passes the serializer; if the upload
      handler kept it in memory, the re-upload is decided by what happens
      to the accepted file. */
  lemma AcceptedReupload(s: Store, caller: UserId, id: DocId, up: Upload,
                         now: int, tag: FileName, differ: Differ, decodes: Decodable)
    requires id in s.docs && Suffix(up.name) == Suffix(s.docs[id].file.path) && up.inMemory
    ensures UploadEditedDocument(s, caller, id, UploadRequest(Some(up)), now, tag, differ, decodes)
         == AcceptedUpload(s, caller, id, up, now, tag, differ, decodes)
  {
    assert ValidateUpload(s.docs[id], UploadRequest(Some(up))) == Ok(up);
  }

  /** An accepted changed re-upload, kept in memory, takes the changed branch. */
  lemma {:induction false} ChangedReupload(s: Store, caller: UserId, id: DocId, up: Upload,
                        now: int, tag: FileName, differ: Differ, decodes: Decodable)
    requires id in s.docs
    requires up.inMemory
    requires Suffix(up.name) == Suffix(s.docs[id].file.path) && up.content != s.docs[id].file.content
    requires decodes(s.docs[id].file.content) && decodes(up.content) && ValidFileName(up.name).Some?
    ensures UploadEditedDocument(s, caller, id, UploadRequest(Some(up)), now, tag, differ, decodes)
         == Ok(UploadChanged(s, caller, id, up, now, DiffFileName(tag, Suffix(s.docs[id].file.path)), differ))
  {
    AcceptedReupload(s, caller, id, up, now, tag, differ, decodes);
  }

  /** An accepted identical re-upload, kept in memory, takes the unchanged branch. */
  lemma {:induction false} UnchangedReupload(s: Store, caller: UserId, id: DocId, up: Upload,
                          now: int, tag: FileName, differ: Differ, decodes: Decodable)
    requires id in s.docs
    requires up.inMemory
    requires Suffix(up.name) == Suffix(s.docs[id].file.path) && up.content == s.docs[id].file.content
    requires ValidFileName(up.name).Some?
    ensures UploadEditedDocument(s, caller, id, UploadRequest(Some(up)), now, tag, differ, decodes)
         == Ok(UploadUnchanged(s, caller, id, up, now))
  {
    AcceptedReupload(s, caller, id, up, now, tag, differ, decodes);
  }

  /** A collaborator who holds the lock cannot be removed; once a changed
      re-upload, kept in memory, that can be read and stored has freed the
      lock, the same removal succeeds. */
  lemma {:induction false} RemovalWaitsForRelease(s: Store, owner: UserId, u: UserId, id: DocId, up: Upload,
                               now: int, tag: FileName, differ: Differ, decodes: Decodable)
    requires id in s.docs && u in s.users
    requires s.docs[id].owner == owner && u != owner && u in s.docs[id].sharedWith
    requires s.docs[id].editedBy == Some(u)
    requires up.inMemory
    requires Suffix(up.name) == Suffix(s.docs[id].file.path) && up.content != s.docs[id].file.content
    requires decodes(s.docs[id].file.content) && decodes(up.content) && ValidFileName(up.name).Some?
    ensures var req := CollaboratorRequest(Some(id), Some(u));
            && HandleRemoveCollaborator(s, owner, req) == Err(CollaboratorIsEditing)
            && var t := UploadEditedDocument(s, u, id, UploadRequest(Some(up)), now, tag, differ, decodes);
            && t.Ok?
            && HandleRemoveCollaborator(t.value, owner, req).Ok?
  {
    ChangedReupload(s, u, id, up, now, tag, differ, decodes);
  }

  /** A byte-identical re-upload kept in memory leaves the lock with its
      holder, so the holder keeps the document; a changed one that can be
      read and stored frees it for everybody. */
  lemma {:induction false} ReuploadAndTheLock(s: Store, holder: UserId, id: DocId, up: Upload,
                           now: int, tag: FileName, differ: Differ, decodes: Decodable)
    requires id in s.docs && s.docs[id].editedBy == Some(holder)
    requires up.inMemory
    requires Suffix(up.name) == Suffix(s.docs[id].file.path) && ValidFileName(up.name).Some?
    requires up.content != s.docs[id].file.content ==> decodes(s.docs[id].file.content) && decodes(up.content)
    ensures var t := UploadEditedDocument(s, holder, id, UploadRequest(Some(up)), now, tag, differ, decodes);
            && t.Ok? && id in t.value.docs
            && (up.content == s.docs[id].file.content ==> t.value.docs[id].editedBy == Some(holder))
            && (up.content != s.docs[id].file.content ==> t.value.docs[id].editedBy == None)
  {
    if up.content == s.docs[id].file.content {
      UnchangedReupload(s, holder, id, up, now, tag, differ, decodes);
    } else {
      ChangedReupload(s, holder, id, up, now, tag, differ, decodes);
    }
  }

  /** A changed re-upload whose old or new bytes do not decode as text (a
      PDF, an image, Latin-1 text under a UTF-8 locale) fails while the
      diff is read, whoever sends it; the request changes nothing, so the
      lock stays with its holder. */
  lemma {:induction false} UndecodableReuploadKeepsLock(s: Store, caller: UserId, id: DocId, up: Upload,
                                     now: int, tag: FileName, differ: Differ, decodes: Decodable)
    requires id in s.docs
    requires up.inMemory
    requires Suffix(up.name) == Suffix(s.docs[id].file.path) && up.content != s.docs[id].file.content
    requires !decodes(s.docs[id].file.content) || !decodes(up.content)
    ensures UploadEditedDocument(s, caller, id, UploadRequest(Some(up)), now, tag, differ, decodes)
            == Err(UndecodableContent)
    ensures Step(s, Reupload(caller, id, UploadRequest(Some(up)), now, tag, differ, decodes)) == s
  {
    AcceptedReupload(s, caller, id, up, now, tag, differ, decodes);
    RejectedReupload(s, caller, id, UploadRequest(Some(up)), now, tag, differ, decodes);
  }

  /** A re-upload that fails leaves the store as it was. */
  lemma RejectedReupload(s: Store, caller: UserId, id: int, req: UploadRequest,
                         now: int, tag: FileName, differ: Differ, decodes: Decodable)
    requires UploadEditedDocument(s, caller, id, req, now, tag, differ, decodes).Err?
    ensures Step(s, Reupload(caller, id, req, now, tag, differ, decodes)) == s
  {
  }

  /** A file the upload handler spooled to disk passes the serializer but
      has no buffer to copy, so its re-upload fails before the contents are
      compared, whatever they are, and changes nothing. */
  lemma {:induction false} SpooledReuploadFails(s: Store, caller: UserId, id: DocId, up: Upload,
                                                now: int, tag: FileName, differ: Differ, decodes: Decodable)
    requires id in s.docs && Suffix(up.name) == Suffix(s.docs[id].file.path) && !up.inMemory
    ensures UploadEditedDocument(s, caller, id, UploadRequest(Some(up)), now, tag, differ, decodes)
            == Err(TempFileNotWritten)
    ensures Step(s, Reupload(caller, id, UploadRequest(Some(up)), now, tag, differ, decodes)) == s
  {
    assert ValidateUpload(s.docs[id], UploadRequest(Some(up))) == Ok(up);
    RejectedReupload(s, caller, id, UploadRequest(Some(up)), now, tag, differ, decodes);
  }

  /** The re-upload checks neither identity nor lock: a user who is not
      even a member can replace the content of a document someone else has
      locked, with a file small enough to be kept in memory, and that frees
      the lock. */
  lemma {:induction false} StrangerMayReupload(s: Store, stranger: UserId, id: DocId, up: Upload,
                            now: int, tag: FileName, differ: Differ, decodes: Decodable)
    requires id in s.docs && !IsMember(s.docs[id], stranger)
    requires up.inMemory
    requires Suffix(up.name) == Suffix(s.docs[id].file.path) && up.content != s.docs[id].file.content
    requires decodes(s.docs[id].file.content) && decodes(up.content) && ValidFileName(up.name).Some?
    ensures var t := UploadEditedDocument(s, stranger, id, UploadRequest(Some(up)), now, tag, differ, decodes);
            && t.Ok? && id in t.value.docs
            && t.value.docs[id].file.content == up.content
            && t.value.docs[id].editedBy == None
  {
    ChangedReupload(s, stranger, id, up, now, tag, differ, decodes);
    ChangedUploadReplacesFile(s, stranger, id, up, now, DiffFileName(tag, Suffix(s.docs[id].file.path)), differ);
  }

  /** A changed upload leaves the document holding the uploaded bytes, unlocked. */
  lemma ChangedUploadReplacesFile(s: Store, caller: UserId, id: DocId, u: Upload,
                                  now: int, diffName: string, differ: Differ)
    requires id in s.docs && ValidFileName(u.name).Some?
    ensures var t := UploadChanged(s, caller, id, u, now, diffName, differ);
            t.docs[id].file.content == u.content && t.docs[id].editedBy == None
  {
  }

  /** An accepted re-upload stores the file under its sanitised name, so
      the document's suffix becomes that name's suffix. That is the old
      suffix whenever the uploaded name is already safe, but not always:
      see `Paths.SanitisingCanDropSuffix`. */
  lemma {:induction false} ReuploadSuffix(s: Store, caller: UserId, id: int, req: UploadRequest,
                       now: int, tag: FileName, differ: Differ, decodes: Decodable)
    requires UploadEditedDocument(s, caller, id, req, now, tag, differ, decodes).Ok?
    ensures var t := UploadEditedDocument(s, caller, id, req, now, tag, differ, decodes).value;
            var u := req.document.value;
            && id in s.docs && id in t.docs
            && (t.docs[id].file == s.docs[id].file
                || Suffix(t.docs[id].file.path) == Suffix(ValidFileName(u.name).value))
            && (SafeName(u.name) ==> Suffix(t.docs[id].file.path) == Suffix(s.docs[id].file.path))
  {
    var u := req.document.value;
    assert id in s.docs && ValidateUpload(s.docs[id], req).Ok? && u.inMemory;
    AcceptedUploadSuffix(s, caller, id, u, now, tag, differ, decodes);
  }

  /** The same, for the file the serializer has accepted. */
  lemma AcceptedUploadSuffix(s: Store, caller: UserId, id: DocId, u: Upload,
                             now: int, tag: FileName, differ: Differ, decodes: Decodable)
    requires id in s.docs && AcceptedUpload(s, caller, id, u, now, tag, differ, decodes).Ok?
    requires Suffix(u.name) == Suffix(s.docs[id].file.path)
    ensures var t := AcceptedUpload(s, caller, id, u, now, tag, differ, decodes).value;
            && id in t.docs
            && (t.docs[id].file == s.docs[id].file
                || Suffix(t.docs[id].file.path) == Suffix(ValidFileName(u.name).value))
            && (SafeName(u.name) ==> Suffix(t.docs[id].file.path) == Suffix(s.docs[id].file.path))
  {
    if u.content != s.docs[id].file.content {
      SavedName(DocumentDir, u);
      var t := UploadChanged(s, caller, id, u, now, DiffFileName(tag, Suffix(s.docs[id].file.path)), differ);
      assert t.docs[id].file == Save(DocumentDir, u).value;
    }
  }
}
