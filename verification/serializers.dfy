/** Request validation done by the document serializers, before any view
    logic runs: field presence and existence of referenced rows, the fields
    a create request may set, and the re-upload's file-suffix check. */
module Serializers {
  import opened Results
  import opened Errors
  import opened Text
  import opened Paths
  import opened Documents

  // ---------------------------------------------------------------------------
  // AddCollaboratorSerializer / RemoveCollaboratorSerializer

  /** The body of an add- or remove-collaborator request; both fields are
      required integers. */
  datatype CollaboratorRequest = CollaboratorRequest(documentId: Option<int>, collaborator: Option<int>)

  function DocumentIdErrors(docs: map<DocId, Document>, req: CollaboratorRequest): seq<FieldError>
  {
    match req.documentId
    case None => [FieldError("document_id", Required)]
    case Some(id) => if id in docs then [] else [FieldError("document_id", InvalidDocumentId)]
  }

  function CollaboratorErrors(users: set<UserId>, req: CollaboratorRequest): seq<FieldError>
  {
    match req.collaborator
    case None => [FieldError("collaborator", Required)]
    case Some(u) => if u in users then [] else [FieldError("collaborator", InvalidUserId)]
  }

  /** Field validation shared by the add and remove serializers: every
      failing field is reported, `document_id` first; on success the
      document's key and the collaborator's user id. */
  function ValidateCollaboratorRequest(docs: map<DocId, Document>, users: set<UserId>, req: CollaboratorRequest)
    : (r: Result<(DocId, UserId), Error>)
    ensures r.Ok? <==> (req.documentId.Some? && req.documentId.value in docs
                        && req.collaborator.Some? && req.collaborator.value in users)
    ensures r.Ok? ==> r.value == (req.documentId.value, req.collaborator.value)
    ensures r.Err? ==> r.error.FieldErrors? && 0 < |r.error.errors| <= 2
    ensures r.Err? ==>
      (FieldError("document_id", InvalidDocumentId) in r.error.errors <==>
         req.documentId.Some? && req.documentId.value !in docs)
    ensures r.Err? ==>
      (FieldError("collaborator", InvalidUserId) in r.error.errors <==>
         req.collaborator.Some? && req.collaborator.value !in users)
  {
    var errs := DocumentIdErrors(docs, req) + CollaboratorErrors(users, req);
    if errs == [] then Ok((req.documentId.value, req.collaborator.value))
    else Err(FieldErrors(errs))
  }

  // ---------------------------------------------------------------------------
  // DocumentCreateSerializer

  /** Everything a create request may carry. Only `documentName` and
      `document` are writable: `owner` is a read-only method field and
      `shared_with` / `currently_edited_by` are excluded. */
  datatype CreateRequest = CreateRequest(
    documentName: Option<string>,
    document: Option<Upload>,
    owner: Option<UserId>,
    sharedWith: Option<seq<UserId>>,
    currentlyEditedBy: Option<UserId>)

  const MaxNameLength := 128

  /** The `document_name` char field: required, not blank once stripped,
      at most 128 characters once stripped. */
  function NameErrors(name: Option<string>): seq<FieldError>
  {
    match name
    case None => [FieldError("document_name", Required)]
    case Some(n) =>
      if Strip(n) == [] then [FieldError("document_name", Blank)]
      else if |Strip(n)| > MaxNameLength then [FieldError("document_name", NameTooLong)]
      else []
  }

  function FileErrors(file: Option<Upload>): seq<FieldError>
  {
    if file.None? then [FieldError("document", NoFile)] else []
  }

  /** Validated create data: the stripped name and the uploaded file. */
  function ValidateCreate(req: CreateRequest): (r: Result<(string, Upload), Error>)
    ensures r.Ok? <==> (req.documentName.Some? && req.document.Some?
                        && 0 < |Strip(req.documentName.value)| <= MaxNameLength)
    ensures r.Ok? ==> r.value == (Strip(req.documentName.value), req.document.value)
    ensures r.Err? ==> r.error.FieldErrors? && 0 < |r.error.errors| <= 2
  {
    var errs := NameErrors(req.documentName) + FileErrors(req.document);
    if errs == [] then Ok((Strip(req.documentName.value), req.document.value))
    else Err(FieldErrors(errs))
  }

  /** A create request cannot choose the owner, the collaborators or the
      lock holder: those fields never reach the validated data. */
  lemma CreateIgnoresProtectedFields(req: CreateRequest, owner: Option<UserId>,
                                     shared: Option<seq<UserId>>, editor: Option<UserId>)
    ensures ValidateCreate(req.(owner := owner, sharedWith := shared, currentlyEditedBy := editor))
         == ValidateCreate(req)
  {
  }

  // ---------------------------------------------------------------------------
  // UploadEditedDocumentSerializer

  /** The body of a re-upload request. */
  datatype UploadRequest = UploadRequest(document: Option<Upload>)

  /** A re-upload is accepted exactly when a file is present and its name
      has the stored file's suffix; the accepted file is returned as sent. */
  function ValidateUpload(d: Document, req: UploadRequest): (r: Result<Upload, Error>)
    ensures r.Ok? <==> req.document.Some? && Suffix(req.document.value.name) == Suffix(d.file.path)
    ensures r.Ok? ==> r.value == req.document.value
    ensures req.document.None? ==> r == Err(FieldErrors([FieldError("document", Required)]))
    ensures req.document.Some? && r.Err? ==> r.error == ExtensionMismatch(Suffix(d.file.path))
  {
    match req.document
    case None => Err(FieldErrors([FieldError("document", Required)]))
    case Some(u) =>
      var current := Suffix(d.file.path);
      if current == Suffix(u.name) then Ok(u) else Err(ExtensionMismatch(current))
  }
}
