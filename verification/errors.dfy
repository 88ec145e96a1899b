/** The rejections the document views and serializers raise. Every view-level
    rejection is a `ValidationError` with a fixed message; serializer field
    validation collects one message per failing field. */
module Errors {

  /** One entry of a serializer's per-field error dictionary. */
  datatype FieldError = FieldError(field: string, message: string)

  datatype Error =
    /** Serializer validation: every failing field, in declaration order. */
    | FieldErrors(errors: seq<FieldError>)
    /** The database refused the row: the unique (owner, document_name) pair
        or the primary key is already taken. */
    | IntegrityError
    | NotOwnerToAdd
    | OwnerAsCollaborator
    | AlreadyCollaborator
    | NotOwnerToRemove
    | OwnerNotRemovable
    | NotACollaborator
    | CollaboratorIsEditing
    /** The primary key in the fetch or re-upload URL names no document. */
    | InvalidDocumentUrl
    | NotAuthorizedToFetch
    | DocumentLocked
    /** The re-uploaded file's suffix differs from the stored file's. */
    | ExtensionMismatch(expected: string)
    /** The storage could not derive a file name from the upload's name. */
    | InvalidFileName
    /** A changed re-upload whose old or new bytes do not decode as text. */
    | UndecodableContent
    /** The re-upload could not copy the uploaded bytes to its scratch file. */
    | TempFileNotWritten
    /** The re-upload could not save the document, or the version row. */
    | DocumentNotSaved
    | VersionNotSaved

  const Required := "This field is required."
  const Blank := "This field may not be blank."
  const NameTooLong := "Ensure this field has no more than 128 characters."
  const NoFile := "No file was submitted."
  const InvalidDocumentId := "Invalid Document ID"
  const InvalidUserId := "Invalid User ID"

  /** The text the service puts in its error response. */
  function Message(e: Error): string
  {
    match e
    case FieldErrors(errs) => if |errs| > 0 then errs[0].message else ""
    case IntegrityError => "IntegrityError"  // uncaught database error, not a ValidationError
    case NotOwnerToAdd => "Only document owner is allowed to add collaborator."
    case OwnerAsCollaborator => "Cannot add owner as a collaborator."
    case AlreadyCollaborator => "This user is already added as a collaborator."
    case NotOwnerToRemove => "Only document owner is allowed to remove collaborator."
    case OwnerNotRemovable => "Cannot remove owner as a collaborator."
    case NotACollaborator => "This user already doesn't exist as a collaborator for this document."
    case CollaboratorIsEditing => "Cannot remove a collaborator who's currently editing the document."
    case InvalidDocumentUrl => "Invalid document ID in the URL."
    case NotAuthorizedToFetch => "Only collaborator and owners are authorized to download this document."
    case DocumentLocked => "Cannot download a document which is currently being edited by a collaborator or owner"
    case ExtensionMismatch(expected) =>
      "File extension doesn't path with the original file. New file should be " + expected
    case InvalidFileName => "SuspiciousFileOperation"  // raised by the storage, not a ValidationError
    case UndecodableContent => "UnicodeDecodeError"    // uncaught while reading the lines to diff
    case TempFileNotWritten => "Unable to create temporary document file."
    case DocumentNotSaved => "Unknown error occurred while creating document object."
    case VersionNotSaved => "Unknown error occurred while creating document version object."
  }
}
