/** The document views as atomic transitions of a store: create, add and
    remove a collaborator, fetch (which claims the edit lock) and re-upload
    (which appends a version and, when the content changed, replaces it and
    frees the lock). Each returns the new store or the view's rejection. */
module Views {
  import opened Results
  import opened Errors
  import opened Lines
  import opened Paths
  import opened Documents
  import opened Serializers

  /** The database: the user table's keys, the document table, the version
      table in insertion order, and the next auto-increment key. */
  datatype Store = Store(
    users: set<UserId>,
    docs: map<DocId, Document>,
    versions: seq<DocumentVersion>,
    nextId: DocId)

  /** Some document of `owner` is already called `name`. */
  predicate NameTaken(docs: map<DocId, Document>, owner: UserId, name: string)
  {
    exists id :: id in docs && docs[id].owner == owner && docs[id].name == name
  }

  // ---------------------------------------------------------------------------
  // DocumentView.create

  /** The rows a successful create writes: the document under the next
      key, owned by the caller, unshared and unlocked, holding the saved
      upload, and its first version with the same file, the caller as
      author and no diff. */
  function InsertDocument(s: Store, caller: UserId, name: string, upload: Upload, now: int): (t: Store)
    requires s.nextId !in s.docs && ValidFileName(upload.name).Some?
    ensures t.users == s.users && t.nextId > s.nextId
    ensures s.nextId in t.docs && t.docs - {s.nextId} == s.docs
    ensures var d := t.docs[s.nextId];
            && d.id == s.nextId && d.name == name && d.owner == caller
            && d.sharedWith == [] && d.editedBy == None
            && d.file == Save(DocumentDir, upload).value
            && t.versions == s.versions + [DocumentVersion(s.nextId, d.file, caller, now, None)]
  {
    var id := s.nextId;
    var d := NewDocument(id, name, Save(DocumentDir, upload).value, caller, now);
    assert s.docs[id := d] - {id} == s.docs;
    Store(s.users, s.docs[id := d], s.versions + [DocumentVersion(id, d.file, caller, now, None)], id + 1)
  }

  /** Create a document owned by the caller, together with its first
      version. An upload name the storage cannot turn into a file name is
      refused before any row is written; a name the caller already uses for
      another document, or a taken key, makes the database refuse the row. */
  function CreateDocument(s: Store, caller: UserId, req: CreateRequest, now: int)
    : (r: Result<(Store, DocId), Error>)
    ensures ValidateCreate(req).Err? ==> r == Err(ValidateCreate(req).error)
    ensures ValidateCreate(req).Ok? ==>
              (r == Err(InvalidFileName) <==> ValidFileName(req.document.value.name).None?)
    ensures ValidateCreate(req).Ok? && ValidFileName(req.document.value.name).Some?
            && NameTaken(s.docs, caller, ValidateCreate(req).value.0) ==>
              r == Err(IntegrityError)
    ensures r.Ok? <==> ValidateCreate(req).Ok? && ValidFileName(req.document.value.name).Some?
                       && !NameTaken(s.docs, caller, ValidateCreate(req).value.0) && s.nextId !in s.docs
    ensures r.Ok? ==>
              r.value == (InsertDocument(s, caller, ValidateCreate(req).value.0, req.document.value, now), s.nextId)
  {
    match ValidateCreate(req)
    case Err(e) => Err(e)
    case Ok((name, upload)) =>
      if ValidFileName(upload.name).None? then Err(InvalidFileName)
      else if NameTaken(s.docs, caller, name) || s.nextId in s.docs then Err(IntegrityError)
      else Ok((InsertDocument(s, caller, name, upload, now), s.nextId))
  }

  // ---------------------------------------------------------------------------
  // AddCollaboratorView.create

  /** Add a collaborator: only the owner may, the owner cannot be added,
      nor can someone already on the list, checked in that order. */
  function HandleAddCollaborator(s: Store, caller: UserId, req: CollaboratorRequest): (r: Result<Store, Error>)
    ensures ValidateCollaboratorRequest(s.docs, s.users, req).Err? ==>
              r == Err(ValidateCollaboratorRequest(s.docs, s.users, req).error)
    ensures ValidateCollaboratorRequest(s.docs, s.users, req).Ok? ==>
              var (id, u) := ValidateCollaboratorRequest(s.docs, s.users, req).value;
              var d := s.docs[id];
              && (r == Err(NotOwnerToAdd) <==> d.owner != caller)
              && (r == Err(OwnerAsCollaborator) <==> d.owner == caller && u == d.owner)
              && (r == Err(AlreadyCollaborator) <==> d.owner == caller && u != d.owner && u in d.sharedWith)
              && (r.Ok? <==> d.owner == caller && u != d.owner && u !in d.sharedWith)
              && (r.Ok? ==> r.value == s.(docs := s.docs[id := AddCollaborator(d, u)]))
  {
    match ValidateCollaboratorRequest(s.docs, s.users, req)
    case Err(e) => Err(e)
    case Ok((id, u)) =>
      var d := s.docs[id];
      if d.owner != caller then Err(NotOwnerToAdd)
      else if d.owner == u then Err(OwnerAsCollaborator)
      else if u in d.sharedWith then Err(AlreadyCollaborator)
      else Ok(s.(docs := s.docs[id := AddCollaborator(d, u)]))
  }

  // ---------------------------------------------------------------------------
  // RemoveCollaboratorView.create

  /** Remove a collaborator: only the owner may, the owner cannot be
      removed, the user must be on the list and must not hold the lock,
      checked in that order. */
  function HandleRemoveCollaborator(s: Store, caller: UserId, req: CollaboratorRequest): (r: Result<Store, Error>)
    ensures ValidateCollaboratorRequest(s.docs, s.users, req).Err? ==>
              r == Err(ValidateCollaboratorRequest(s.docs, s.users, req).error)
    ensures ValidateCollaboratorRequest(s.docs, s.users, req).Ok? ==>
              var (id, u) := ValidateCollaboratorRequest(s.docs, s.users, req).value;
              var d := s.docs[id];
              && (r == Err(NotOwnerToRemove) <==> d.owner != caller)
              && (r == Err(OwnerNotRemovable) <==> d.owner == caller && u == d.owner)
              && (r == Err(NotACollaborator) <==> d.owner == caller && u != d.owner && u !in d.sharedWith)
              && (r == Err(CollaboratorIsEditing) <==>
                    d.owner == caller && u != d.owner && u in d.sharedWith && d.editedBy == Some(u))
              && (r.Ok? <==> d.owner == caller && u != d.owner && u in d.sharedWith && d.editedBy != Some(u))
              && (r.Ok? ==> r.value == s.(docs := s.docs[id := RemoveCollaborator(d, u)]))
  {
    match ValidateCollaboratorRequest(s.docs, s.users, req)
    case Err(e) => Err(e)
    case Ok((id, u)) =>
      var d := s.docs[id];
      if d.owner != caller then Err(NotOwnerToRemove)
      else if d.owner == u then Err(OwnerNotRemovable)
      else if u !in d.sharedWith then Err(NotACollaborator)
      else if d.editedBy.Some? && u == d.editedBy.value then Err(CollaboratorIsEditing)
      else Ok(s.(docs := s.docs[id := RemoveCollaborator(d, u)]))
  }

  // ---------------------------------------------------------------------------
  // FetchDocumentView.get

  /** What the download response carries: the suggested file name and the
      file's bytes. */
  datatype Download = Download(fileName: string, content: seq<byte>)

  /** Fetch a document, claiming its edit lock when it is free. Only the
      owner or a collaborator may fetch, and not while someone else holds
      the lock. */
  function FetchDocument(s: Store, caller: UserId, id: int): (r: Result<(Store, Download), Error>)
    ensures id !in s.docs ==> r == Err(InvalidDocumentUrl)
    ensures id in s.docs ==>
              var d := s.docs[id];
              && (r == Err(NotAuthorizedToFetch) <==> !IsMember(d, caller))
              && (r == Err(DocumentLocked) <==> IsMember(d, caller) && d.editedBy.Some? && d.editedBy != Some(caller))
              && (r.Ok? <==> IsMember(d, caller) && d.editedBy in {None, Some(caller)})
    ensures r.Ok? ==>
              var (t, dl) := r.value;
              var d := s.docs[id];
              && t == s.(docs := s.docs[id := d.(editedBy := Some(caller))])
              && dl == Download(d.name + Suffix(d.file.path), d.file.content)
  {
    if id !in s.docs then Err(InvalidDocumentUrl)
    else
      var d := s.docs[id];
      if caller !in d.sharedWith && caller != d.owner then Err(NotAuthorizedToFetch)
      else if d.editedBy.Some? && d.editedBy.value != caller then Err(DocumentLocked)
      else
        var locked := if d.editedBy.None? then d.(editedBy := Some(caller)) else d;
        Ok((s.(docs := s.docs[id := locked]), Download(d.name + Suffix(d.file.path), d.file.content)))
  }

  // ---------------------------------------------------------------------------
  // UploadEditedDocumentView.patch

  /** The name the diff file is saved under: `tag` stands for the first
      eight characters of a random UUID, `ext` is the stored file's suffix. */
  function DiffFileName(tag: FileName, ext: string): string
  {
    "document_diff_" + tag + ext
  }

  /** The diff file keeps the suffix of the document it was made from. */
  lemma DiffFileKeepsSuffix(tag: FileName, path: string)
    requires '.' !in tag
    ensures Suffix(DiffFileName(tag, Suffix(path))) == Suffix(path)
  {
    var stem := DiffFilePrefix(tag);
    SuffixShape(path);
    assert DiffFileName(tag, Suffix(path)) == stem + Suffix(path);
    SuffixAfterPlainStem(stem, Suffix(path));
  }

  /** The diff file name before its suffix holds no dot and no separator. */
  lemma DiffFilePrefix(tag: FileName) returns (stem: string)
    requires '.' !in tag
    ensures stem == "document_diff_" + tag && stem != [] && '.' !in stem && '/' !in stem
  {
    var prefix := "document_diff_";
    assert forall k :: 0 <= k < |prefix| ==> prefix[k] != '/' && prefix[k] != '.';
    stem := prefix + tag;
  }

  /** The version table with one more row at its end; the rows already
      there are not touched. */
  function AppendVersion(vs: seq<DocumentVersion>, v: DocumentVersion): (r: seq<DocumentVersion>)
    ensures |r| == |vs| + 1 && r[..|vs|] == vs && r[|vs|] == v
  {
    assert (vs + [v])[..|vs|] == vs;
    vs + [v]
  }

  /** The branch for a byte-identical file: one version without a diff is
      appended, holding the upload saved under the version directory, and
      the document, its lock included, stays as it was. */
  function UploadUnchanged(s: Store, caller: UserId, id: DocId, u: Upload, now: int): (t: Store)
    requires id in s.docs && ValidFileName(u.name).Some?
    ensures t.users == s.users && t.docs == s.docs && t.nextId == s.nextId
    ensures |t.versions| == |s.versions| + 1 && t.versions[..|s.versions|] == s.versions
    ensures var v := t.versions[|s.versions|];
            v.parent == id && v.updatedBy == caller && v.file == Save(VersionDir, u).value && v.diff == None
  {
    s.(versions := AppendVersion(s.versions, DocumentVersion(id, Save(VersionDir, u).value, caller, now, None)))
  }

  /** The branch for a changed file: the document takes the new file and
      its lock is freed; the appended version carries the new file and the
      diff of the old and new lines. Every other document stays as it was. */
  function UploadChanged(s: Store, caller: UserId, id: DocId, u: Upload, now: int, diffName: string, differ: Differ)
    : (t: Store)
    requires id in s.docs && ValidFileName(u.name).Some?
    ensures t.users == s.users && t.nextId == s.nextId
    ensures id in t.docs && t.docs == s.docs[id := t.docs[id]]
    ensures var d := s.docs[id];
            var e := t.docs[id];
            && e.file == Save(DocumentDir, u).value && e.editedBy == None
            && e == d.(file := e.file, editedBy := None)
    ensures |t.versions| == |s.versions| + 1 && t.versions[..|s.versions|] == s.versions
    ensures var v := t.versions[|s.versions|];
            && v.parent == id && v.updatedBy == caller && v.file == Save(VersionDir, u).value
            && v.diff.Some? && v.diff.value.content == DiffContent(differ, s.docs[id].file.content, u.content)
  {
    var d := s.docs[id];
    var diff := StoredFile(DiffDir + diffName, DiffContent(differ, d.file.content, u.content));
    var edited := RemoveFileLock(d.(file := Save(DocumentDir, u).value));
    var v := DocumentVersion(id, Save(VersionDir, u).value, caller, now, Some(diff));
    var vs := AppendVersion(s.versions, v);
    var docs := s.docs[id := edited];
    assert docs[id] == edited;
    assert vs[|s.versions|] == v;
    Store(s.users, docs, vs, s.nextId)
  }

  /** What an accepted re-upload does. An identical file only needs the
      version row saved. A changed file is first read as text to diff it,
      which fails when either content does not decode, and is then saved
      over the document. */
  function AcceptedUpload(s: Store, caller: UserId, id: DocId, u: Upload,
                          now: int, tag: FileName, differ: Differ, decodes: Decodable)
    : (r: Result<Store, Error>)
    requires id in s.docs
    ensures var d := s.docs[id];
            d.file.content == u.content ==>
              && (r == Err(VersionNotSaved) <==> ValidFileName(u.name).None?)
              && (r.Ok? <==> ValidFileName(u.name).Some?)
              && (r.Ok? ==> r.value == UploadUnchanged(s, caller, id, u, now))
    ensures var d := s.docs[id];
            d.file.content != u.content ==>
              && (r == Err(UndecodableContent) <==> !decodes(d.file.content) || !decodes(u.content))
              && (r == Err(DocumentNotSaved) <==>
                    decodes(d.file.content) && decodes(u.content) && ValidFileName(u.name).None?)
              && (r.Ok? <==> decodes(d.file.content) && decodes(u.content) && ValidFileName(u.name).Some?)
              && (r.Ok? ==> r.value == UploadChanged(s, caller, id, u, now,
                                                     DiffFileName(tag, Suffix(d.file.path)), differ))
  {
    var d := s.docs[id];
    if d.file.content == u.content then
      if ValidFileName(u.name).None? then Err(VersionNotSaved)
      else Ok(UploadUnchanged(s, caller, id, u, now))
    else if !decodes(d.file.content) || !decodes(u.content) then Err(UndecodableContent)
    else if ValidFileName(u.name).None? then Err(DocumentNotSaved)
    else Ok(UploadChanged(s, caller, id, u, now, DiffFileName(tag, Suffix(d.file.path)), differ))
  }

  /** Re-upload a document: an unknown key and the serializer's checks
      come first, then the accepted file is handled. Nothing here looks at
      who the caller is or who holds the lock. */
  function UploadEditedDocument(s: Store, caller: UserId, id: int, req: UploadRequest,
                                now: int, tag: FileName, differ: Differ, decodes: Decodable)
    : (r: Result<Store, Error>)
    ensures id !in s.docs ==> r == Err(InvalidDocumentUrl)
    ensures id in s.docs && ValidateUpload(s.docs[id], req).Err? ==>
              r == Err(ValidateUpload(s.docs[id], req).error)
    ensures id in s.docs && ValidateUpload(s.docs[id], req).Ok? && !req.document.value.inMemory ==>
              r == Err(TempFileNotWritten)
    ensures id in s.docs && ValidateUpload(s.docs[id], req).Ok? && req.document.value.inMemory ==>
              r == AcceptedUpload(s, caller, id, req.document.value, now, tag, differ, decodes)
  {
    if id !in s.docs then Err(InvalidDocumentUrl)
    else
      match ValidateUpload(s.docs[id], req)
      case Err(e) => Err(e)
      case Ok(u) =>
        // Only an in-memory upload has the buffer the view copies to its
        // scratch file; a spooled one fails there.
        if !u.inMemory then Err(TempFileNotWritten)
        else AcceptedUpload(s, caller, id, u, now, tag, differ, decodes)
  }
}
