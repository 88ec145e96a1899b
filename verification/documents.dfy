/** The two records of the documents app: a `Document` (its collaborator
    list and its edit lock) and the append-only `DocumentVersion` history,
    with the three mutators the model class defines. */
module Documents {
  import opened Results
  import opened Lines
  import opened Paths

  /** Primary keys of users and documents. */
  type UserId = int
  type DocId = int

  /** A file as a `FileField` holds it: its storage path and its bytes. */
  datatype StoredFile = StoredFile(path: string, content: seq<byte>)

  /** A file as a request carries it. `inMemory` says whether Django's
      upload handler kept it in memory (an `InMemoryUploadedFile`, whose
      `file` is a byte buffer) or spooled it to a temporary file on disk
      (a `TemporaryUploadedFile`, for bodies over the configured memory
      limit, 2.5 MB by default). */
  datatype Upload = Upload(name: FileName, content: seq<byte>, inMemory: bool)

  /** The `upload_to` directories of the three file fields. */
  const DocumentDir := "document/"
  const VersionDir := "document_version_files/"
  const DiffDir := "document_diff_files/"

  /** Save an upload under a field's directory: the storage keeps the
      bytes under the name `get_valid_filename` derives, and refuses the
      upload when no name can be derived. */
  function Save(dir: string, u: Upload): (r: Option<StoredFile>)
    requires dir == [] || dir[|dir| - 1] == '/'
    ensures r.Some? <==> ValidFileName(u.name).Some?
    ensures r.Some? ==> r.value.content == u.content
  {
    match ValidFileName(u.name)
    case None => None
    case Some(n) => Some(StoredFile(StoragePath(dir, n), u.content))
  }

  /** A saved file is named by the sanitised upload name, so it has that
      name's suffix; an upload whose name is already safe keeps its own
      name and suffix. */
  lemma SavedName(dir: string, u: Upload)
    requires dir == [] || dir[|dir| - 1] == '/'
    requires Save(dir, u).Some?
    ensures BaseName(Save(dir, u).value.path) == ValidFileName(u.name).value
    ensures Suffix(Save(dir, u).value.path) == Suffix(ValidFileName(u.name).value)
    ensures SafeName(u.name) ==> BaseName(Save(dir, u).value.path) == u.name
    ensures SafeName(u.name) ==> Suffix(Save(dir, u).value.path) == Suffix(u.name)
  {
    var n := ValidFileName(u.name).value;
    BaseNameOfJoin(dir, n);
    SuffixOfJoin(dir, n);
    if SafeName(u.name) {
      ValidFileNameKeepsSafe(u.name);
    }
  }

  /** `currently_edited_by` is the edit lock: `None` is free, `Some(u)` is
      held by `u`. `owner` is modelled as always set (see README). */
  datatype Document = Document(
    id: DocId,
    name: string,
    file: StoredFile,
    owner: UserId,
    sharedWith: seq<UserId>,
    createdOn: int,
    editedBy: Option<UserId>)

  /** One entry of a document's history; `diff` is set only when the entry
      replaced the document's content. */
  datatype DocumentVersion = DocumentVersion(
    parent: DocId,
    file: StoredFile,
    updatedBy: UserId,
    createdOn: int,
    diff: Option<StoredFile>)

  /** A freshly created document row, with the field defaults applied. */
  function NewDocument(id: DocId, name: string, file: StoredFile, owner: UserId, now: int): (d: Document)
    ensures d.sharedWith == [] && d.editedBy == None
    ensures d.id == id && d.name == name && d.file == file && d.owner == owner
  {
    Document(id, name, file, owner, [], now, None)
  }

  /** The owner or a collaborator. */
  predicate IsMember(d: Document, u: UserId)
  {
    u == d.owner || u in d.sharedWith
  }

  /** The lock is free or held by the owner or a collaborator. */
  predicate LockHeldByMember(d: Document)
  {
    d.editedBy.None? || IsMember(d, d.editedBy.value)
  }

  predicate NoDuplicates(s: seq<UserId>)
  {
    forall i, j :: 0 <= i < j < |s| ==> s[i] != s[j]
  }

  /** The consistency a document keeps: the lock is held by a member, the
      collaborator list has no repeats and does not list the owner. */
  predicate WellFormed(d: Document)
  {
    && LockHeldByMember(d)
    && NoDuplicates(d.sharedWith)
    && d.owner !in d.sharedWith
  }

  // ---------------------------------------------------------------------------
  // add_collaborator

  /** Append `u` to the collaborator list; duplicates are not its concern. */
  function AddCollaborator(d: Document, u: UserId): (r: Document)
    ensures r.sharedWith == d.sharedWith + [u]
    ensures r.(sharedWith := d.sharedWith) == d
  {
    d.(sharedWith := d.sharedWith + [u])
  }

  // ---------------------------------------------------------------------------
  // remove_collaborator

  /** The list comprehension `[x for x in s if x != u]`. */
  function Without(s: seq<UserId>, u: UserId): (r: seq<UserId>)
    ensures u !in r
    ensures |r| <= |s|
    ensures forall x :: x != u ==> (x in r <==> x in s)
  {
    if s == [] then []
    else if s[0] == u then Without(s[1..], u)
    else [s[0]] + Without(s[1..], u)
  }

  /** Filtering distributes over concatenation, so the kept ids stay in
      their original relative order. */
  lemma {:induction false} WithoutAppend(a: seq<UserId>, b: seq<UserId>, u: UserId)
    ensures Without(a + b, u) == Without(a, u) + Without(b, u)
  {
    if a == [] {
      assert a + b == b;
    } else {
      assert (a + b)[0] == a[0];
      assert (a + b)[1..] == a[1..] + b;
      WithoutAppend(a[1..], b, u);
    }
  }

  /** Every other id keeps its number of occurrences; `u` has none left. */
  lemma {:induction false} WithoutCounts(s: seq<UserId>, u: UserId)
    ensures forall x :: multiset(Without(s, u))[x] == if x == u then 0 else multiset(s)[x]
  {
    if s != [] {
      WithoutCounts(s[1..], u);
      assert s == [s[0]] + s[1..];
    }
  }

  /** Removing an absent id changes nothing. */
  lemma {:induction false} WithoutAbsent(s: seq<UserId>, u: UserId)
    requires u !in s
    ensures Without(s, u) == s
  {
    if s != [] {
      WithoutAbsent(s[1..], u);
      assert s == [s[0]] + s[1..];
    }
  }

  /** Filtering keeps a list free of repeats. */
  lemma {:induction false} WithoutNoDuplicates(s: seq<UserId>, u: UserId)
    requires NoDuplicates(s)
    ensures NoDuplicates(Without(s, u))
  {
    if s != [] {
      WithoutNoDuplicates(s[1..], u);
      if s[0] != u {
        var r := Without(s[1..], u);
        assert s[0] !in s[1..];
        assert s[0] !in r;
        assert forall j :: 0 <= j < |r| ==> ([s[0]] + r)[j + 1] == r[j];
      }
    }
  }

  /** Replace the collaborator list by its copy without `u`. */
  function RemoveCollaborator(d: Document, u: UserId): (r: Document)
    ensures u !in r.sharedWith
    ensures |r.sharedWith| <= |d.sharedWith|
    ensures forall x :: x != u ==> (x in r.sharedWith <==> x in d.sharedWith)
    ensures r.(sharedWith := d.sharedWith) == d
  {
    d.(sharedWith := Without(d.sharedWith, u))
  }

  /** Adding an id the list did not hold and removing it again restores the
      original list. */
  lemma AddThenRemove(d: Document, u: UserId)
    requires u !in d.sharedWith
    ensures RemoveCollaborator(AddCollaborator(d, u), u) == d
  {
    WithoutAppend(d.sharedWith, [u], u);
    WithoutAbsent(d.sharedWith, u);
  }

  // ---------------------------------------------------------------------------
  // remove_file_lock

  /** Free the edit lock. */
  function RemoveFileLock(d: Document): (r: Document)
    ensures r.editedBy == None
    ensures r.(editedBy := d.editedBy) == d
  {
    d.(editedBy := None)
  }

  lemma RemoveFileLockIdempotent(d: Document)
    ensures RemoveFileLock(RemoveFileLock(d)) == RemoveFileLock(d)
    ensures LockHeldByMember(RemoveFileLock(d))
  {
  }
}
