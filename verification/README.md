# SignEasy documents: a Dafny model

SignEasy is a small document-sharing service. A user uploads a document and
becomes its owner; the owner shares it with collaborators; any member (the
owner or a collaborator) may fetch the file, which claims the document's edit
lock (`currently_edited_by`) so that nobody else can download it; uploading an
edited file appends a version to the document's history and, when the content
changed, stores a line-by-line diff, replaces the file and frees the lock. A
request middleware keeps stored document and version files behind the fetch
view, lets diff files and a short whitelist of paths through without a token,
and requires an unexpired JWT on every other path.

This project models that core as pure functions over an immutable store and
proves what the views, serializers, model methods and middleware promise.

| file | module | models |
|---|---|---|
| results.dfy | `Results` | `Option` and `Result` |
| errors.dfy | `Errors` | the rejections the modelled paths of the views and serializers raise, with their messages |
| text.dfy | `Text` | Python's `str.isspace`, `str.strip`, `str.split()`, `in` on strings, `str.rfind` |
| lines.dfy | `Lines` | bytes, text-mode `readlines()` with universal newlines, the diff as a parameter |
| paths.dfy | `Paths` | `pathlib.Path(...).name` / `.suffix` / `.stem`, Django's `get_valid_filename`, storage paths under `upload_to` |
| documents.dfy | `Documents` | the `Document` and `DocumentVersion` rows and the three model methods |
| serializers.dfy | `Serializers` | the create, add/remove-collaborator and re-upload validators |
| views.dfy | `Views` | create, add collaborator, remove collaborator, fetch-and-lock, re-upload |
| invariants.dfy | `Invariants` | the store invariant, its preservation by every view, runs of requests, the edit lock across requests |
| middleware.dfy | `Middleware` | the media-path gate and the JWT check |

The database is `Views.Store`: the set of user keys, the document table as a
map from key to row, the version table in insertion order, and the next
auto-increment key. Each view maps a store and a request to either a new store
(and, for fetch, the download) or the error the view raises; a rejected
request changes nothing. The clock, the random tag in the diff file's name,
the JWT decoder, the differencing routine (`difflib.Differ`) and the test of
whether bytes decode in the platform's text encoding are inputs.

A few modelling choices:

- The re-upload view checks neither who the caller is nor whether they hold
  the lock: any authenticated user may upload a file with the right suffix,
  and a changed upload frees the lock, as the view's docstring
  (documents/views.py:229-232) describes. `Invariants.StrangerMayReupload`
  states it.
- A byte-identical re-upload appends a version but keeps the lock with its
  holder; only a changed one frees it (`Invariants.ReuploadAndTheLock`).
- A changed re-upload reads the stored and the uploaded file in text mode to
  diff them, and nothing catches a decoding error. When either side does not
  decode (a PDF, an image, Latin-1 text under a UTF-8 locale) the request
  fails and changes nothing (`Views.AcceptedUpload`,
  `Invariants.UndecodableReuploadKeepsLock`), so a binary document's lock can
  never be freed by a changed upload.
- Storing a file passes its name through Django's `get_valid_filename`:
  strip, spaces to `_`, drop every character other than letters, digits,
  `-`, `_` and `.`; a result of "", "." or ".." is refused
  (`Paths.ValidFileName`). Create then fails with an uncaught error, and a
  re-upload with one of its "Unknown error occurred ..." messages. The
  serializer compares the suffix of the name as sent, so the stored name can
  lose it: `(.txt` is accepted against a `.txt` document and stored as
  `.txt`, which has no suffix (`Paths.SanitisingCanDropSuffix`). Before the
  storage's renaming of colliding names, which is not modelled, the suffix
  is kept whenever the sent name is already safe (`Invariants.ReuploadSuffix`).
  That renaming appends a random string to the stem as `os.path.splitext`
  sees it, so for most names the suffix survives it too; for a name such as
  `..txt`, where `splitext` finds no extension, the renamed file is
  `..txt_` followed by seven characters, and its suffix changes.
- The re-upload copies the uploaded file to a scratch file through
  `getbuffer()`, which only a file kept in memory has. Django spools a body
  over its memory limit (2.5 MB by default) to a temporary file on disk, and
  then the copy fails with "Unable to create temporary document file." before
  the contents are compared, changing nothing. Which of the two happens is
  the upload's `inMemory` flag (`Invariants.SpooledReuploadFails`); every
  lemma about an accepted re-upload assumes a file kept in memory.
- The create serializer generates no uniqueness validator for
  (owner, document_name), because `owner` is a method field; a duplicate name
  for the same owner is refused by the database's unique constraint when the
  owner is written, and the model returns `IntegrityError` for it.
- The whitelist holds `/docs` with no trailing slash, while the API
  documentation is routed at `docs/`; the model keeps the literal list.

## Model

| member | source | states |
|---|---|---|
| Text.Strip | documents/serializers.py:8-16 | the stripped name is empty exactly when the input is all whitespace; otherwise it is the infix of the input that starts after the leading whitespace, neither starts nor ends with whitespace, and is followed in the input only by whitespace |
| Text.Split | helpers/middlewares.py:36 | every word `split()` yields is non-empty and free of whitespace |
| Text.SplitTwoWords | helpers/middlewares.py:36 | `lead`, `a`, `sep`, `b`, `trail` in a row, with whitespace-only padding and separator and whitespace-free words, splits into exactly `[a, b]` |
| Text.Contains | helpers/middlewares.py:16-19 | the substring test holds exactly when the pattern occurs at some index |
| Text.ContainsPrefix | helpers/middlewares.py:16-19 | a string that begins with the pattern contains it |
| Text.ContainsInfix | helpers/middlewares.py:16-19 | a string that contains the pattern still contains it with any text before and after it |
| Text.LastIndexOf | documents/serializers.py:112-113 | `rfind` returns -1 or an index that holds the character |
| Text.LastIndexOfIsLast | documents/serializers.py:112-113 | no occurrence of the character lies after the index `rfind` returns |
| Text.LastIndexOfAppend | documents/serializers.py:112-113 | appending text without the character leaves its last index unchanged |
| Lines.Translate | documents/views.py:291 | text mode leaves no carriage return, never lengthens the content, and leaves content without carriage returns untouched |
| Lines.TranslateUnits | documents/views.py:291 | a "\r\n" pair becomes one "\n", a lone "\r" becomes one "\n", and every other byte stays as it is |
| Lines.TranslateAppend | documents/views.py:291 | translating a concatenation translates each piece, whenever the cut does not fall inside a "\r\n" pair; with the units this places every carriage return's newline |
| Lines.ReadLines | documents/views.py:291-293 | the lines `readlines()` yields concatenate back to the newline-translated content |
| Lines.SplitLines | documents/views.py:293 | the lines cut from the text concatenate back to it |
| Lines.SplitLinesWellFormed | documents/views.py:293 | every line is non-empty with a newline at most as its last byte, and every line but the last ends in one |
| Lines.SplitConcat | documents/views.py:293 | splitting the concatenation of well-formed lines gives back exactly those lines |
| Lines.ReadLinesSeesText | documents/views.py:291-293 | two files give the same lines exactly when their text-mode contents are equal |
| Lines.DiffIgnoresNewlineStyle | documents/views.py:291-294 | the diff depends on the files only through their text-mode contents, so files differing only in newline style give the same diff |
| Lines.ConcatAppend | documents/views.py:293-294 | writing two runs of diff lines writes their concatenation |
| Paths.BaseName | documents/serializers.py:112-113 | the name is a suffix of the path, preceded by a separator when shorter than the path |
| Paths.BaseNameHasNoSeparator | documents/serializers.py:112-113 | the final component holds no separator |
| Paths.Suffix | documents/serializers.py:112-113 | a suffix is empty or a dot followed by at least one character |
| Paths.SuffixSelects | documents/serializers.py:112-113 | when the final component has a dot that is neither its first nor its last character and that no other dot follows, the suffix is the component from that dot on |
| Paths.SuffixNeedsInnerDot | documents/serializers.py:112-113 | the suffix is non-empty exactly when the final component has such a dot |
| Paths.SuffixAfterPlainStem | documents/views.py:283 | a stem free of dots and separators followed by something shaped like a suffix has exactly that suffix |
| Paths.StemSuffix | documents/views.py:216 | the final component is the stem followed by the suffix |
| Paths.SuffixShape | documents/views.py:216 | a non-empty suffix has a non-empty stem, holds its only dot at its start, and holds no separator |
| Paths.StoragePath | documents/models.py:18 | the stored path begins with the upload directory and continues with the file name, and is no longer than the two |
| Paths.BaseNameOfJoin | documents/models.py:18 | the final component of a stored path is the uploaded file's name |
| Paths.SuffixOfJoin | documents/models.py:18 | storing a file under a directory keeps its suffix |
| Paths.SuffixOfPlainName | documents/serializers.py:112 | `document/report.txt` has suffix `.txt` |
| Paths.SuffixOfDoubleExtension | documents/serializers.py:112 | `archive.tar.gz` has suffix `.gz`: only the last extension counts |
| Paths.SuffixOfHiddenFile | documents/serializers.py:112 | a leading-dot name such as `.bashrc` has no suffix |
| Paths.SuffixOfTrailingDot | documents/serializers.py:112 | a name ending in a dot has no suffix |
| Paths.SuffixOnlyOfLastComponent | documents/serializers.py:112 | a dot in a directory name does not give the file a suffix |
| Paths.UnderscoredAt | documents/models.py:18 | sanitising turns every space into `_` and keeps every other character in place |
| Paths.KeepNameCharsUnit | documents/models.py:18 | a single character survives exactly when it is a letter, digit, `-`, `_` or `.` |
| Paths.KeepNameCharsAppend | documents/models.py:18 | sanitising a concatenation sanitises each piece, so the survivors keep their order and their number |
| Paths.KeepNameCharsKeeps | documents/models.py:18 | sanitising keeps exactly the letters, digits, `-`, `_` and `.`: what survives is made of them and each of them in the input survives |
| Paths.ValidFileName | documents/models.py:18 | a stored name is never "", "." or "..", and never holds a separator |
| Paths.ValidFileNameIsSafe | documents/models.py:18 | whatever the storage accepts consists only of letters, digits, `-`, `_` and `.` |
| Paths.ValidFileNameKeepsSafe | documents/models.py:18 | a name that is already safe is stored exactly as sent |
| Paths.ValidFileNameIdempotent | documents/models.py:18 | sanitising a sanitised name changes nothing |
| Paths.SanitisingCanDropSuffix | documents/serializers.py:112-113 | `(.txt` has suffix `.txt`, so it passes the suffix check against a `.txt` document, but it is stored as `.txt`, which has no suffix |
| Documents.Save | documents/models.py:18 | a file is stored exactly when its name survives sanitisation, and then with the uploaded content |
| Documents.SavedName | documents/models.py:18 | the stored file's final component is the sanitised name and it has that name's suffix; for a safe name these are the sent name and its suffix |
| Documents.AddCollaborator | documents/models.py:34-39 | the user is appended at the end of `shared_with`; no other field changes |
| Documents.Without | documents/models.py:46 | the filtered list lacks the user, never grows, and keeps every other user |
| Documents.WithoutAppend | documents/models.py:46 | filtering distributes over concatenation, so the remaining users keep their order |
| Documents.WithoutCounts | documents/models.py:46 | every other user keeps its multiplicity; the removed one has none |
| Documents.WithoutAbsent | documents/models.py:46 | removing an absent user leaves the list unchanged |
| Documents.WithoutNoDuplicates | documents/models.py:46 | filtering a duplicate-free list keeps it duplicate-free |
| Documents.RemoveCollaborator | documents/models.py:41-46 | the user is gone from `shared_with`, every other collaborator stays, and no other field changes |
| Documents.AddThenRemove | documents/models.py:34-46 | removing a just-added collaborator restores the document |
| Documents.RemoveFileLock | documents/models.py:48-53 | the lock is freed and no other field changes |
| Documents.RemoveFileLockIdempotent | documents/models.py:48-53 | freeing the lock twice equals freeing it once, and a free lock is held by no outsider |
| Serializers.ValidateCollaboratorRequest | documents/serializers.py:49-92 | accepted exactly when both ids are given and name an existing document and user, returning that pair; otherwise one or two field errors, with "Invalid Document ID" exactly when a given document id names no document and "Invalid User ID" likewise for the user |
| Serializers.ValidateCreate | documents/serializers.py:8-16 | accepted exactly when a name and a file are given and the stripped name has 1 to 128 characters, returning the stripped name and the file; otherwise field errors |
| Serializers.CreateIgnoresProtectedFields | documents/serializers.py:9-16 | the owner, sharing list and lock sent by the client do not affect validation |
| Serializers.ValidateUpload | documents/serializers.py:105-120 | accepted exactly when a file is given whose suffix equals the stored file's, returning it unchanged; a missing file gives "This field is required." on `document`; a wrong suffix names the expected one |
| Views.InsertDocument | documents/views.py:59-73 | the new row takes the next key, is owned by the caller, unshared, unlocked, holds the upload; exactly one version is appended, by the caller, with the same file and no diff; the other rows are untouched |
| Views.CreateDocument | documents/views.py:55-79 | serializer errors pass through; a file name the storage cannot sanitise is refused; otherwise a name the caller already uses is an integrity error, and in every other case the document and its first version are inserted and the new key returned |
| Views.HandleAddCollaborator | documents/views.py:121-140 | the checks run in the source's order (serializer, owner only, not the owner, not already shared) and each error occurs exactly when its condition is the first to fail; on success only that document's sharing list changes, by appending the user |
| Views.HandleRemoveCollaborator | documents/views.py:151-173 | the checks run in the source's order (serializer, owner only, not the owner, is a collaborator, not the lock holder) with each error exactly when its condition is the first to fail; on success only that document's sharing list changes, by filtering the user out |
| Views.FetchDocument | documents/views.py:186-225 | an unknown key is refused; a non-member is refused; a member is refused while another user holds the lock; otherwise the lock passes to the caller (or stays) and the download is the document's name with the stored suffix and the stored content |
| Views.DiffFileKeepsSuffix | documents/views.py:283 | the diff file's name, built from an eight-character tag without a dot and the stored suffix, has that suffix |
| Views.AppendVersion | documents/views.py:273-275 | the history grows by exactly that version at the end |
| Views.UploadUnchanged | documents/views.py:271-280 | an identical upload appends one version by the caller holding the upload stored under the version directory and no diff, and changes no document |
| Views.UploadChanged | documents/views.py:282-313 | a changed upload replaces only that document's file by the stored upload and frees its lock, and appends one version whose diff is the differ's output over both files' lines |
| Views.AcceptedUpload | documents/views.py:271-313 | an identical upload fails only when the version cannot be stored, and otherwise takes the unchanged path; a changed upload fails on undecodable old or new content first, then when the document cannot be stored, and otherwise takes the changed path with a diff file named after the stored suffix |
| Views.UploadEditedDocument | documents/views.py:246-313 | an unknown key is refused; serializer errors pass through unchanged; an accepted file spooled to disk fails with "Unable to create temporary document file."; an accepted file kept in memory is handled as `Views.AcceptedUpload` says |
| Invariants.Initial | documents/models.py:5-29 | the empty database satisfies the store invariant |
| Invariants.CreatePreservesValid | documents/models.py:25-29 | a successful create keeps names unique per owner, every member registered and every version attached to a document |
| Invariants.AddPreservesValid | documents/views.py:121-140 | adding a collaborator keeps the store invariant (in particular the sharing list stays duplicate-free and owner-free) and leaves the history alone |
| Invariants.RemovePreservesValid | documents/views.py:151-173 | removing a collaborator keeps the store invariant (in particular every lock stays held by a member) and leaves the history alone |
| Invariants.FetchPreservesValid | documents/views.py:219-221 | claiming the lock keeps the store invariant and leaves the history alone |
| Invariants.UploadPreservesValid | documents/views.py:246-313 | a re-upload keeps the store invariant and only appends to the history |
| Invariants.StepPreservesValid | documents/views.py:55-313 | every request keeps the store invariant and the user table and only appends to the history |
| Invariants.StepKeeps | documents/views.py:55-313 | even on an inconsistent store, no request changes the user table, alters or removes a version row, or lowers the next key |
| Invariants.RunPreservesValid | documents/models.py:14-15 | after any run of requests the store is consistent, the history extends the original, and every lock is free or held by the owner or a collaborator |
| Invariants.FetchIdempotent | documents/views.py:219-221 | fetching again as the lock holder succeeds with the same store and download |
| Invariants.FetchByHolder | documents/views.py:194-198 | the lock holder's fetch returns the file and changes nothing |
| Invariants.FetchLocksOthersOut | documents/views.py:191-198 | after a fetch every other user is refused: members as locked out, others as unauthorised |
| Invariants.ChangedReupload | documents/views.py:246-313 | a changed upload kept in memory, with the right suffix, readable as text on both sides and with a storable name, succeeds through the changed path |
| Invariants.UnchangedReupload | documents/views.py:246-280 | an identical upload kept in memory, with the right suffix and a storable name, succeeds through the unchanged path |
| Invariants.RemovalWaitsForRelease | documents/views.py:167-168 | the lock holder cannot be removed until a changed re-upload, kept in memory, that can be read as text and stored frees the lock, after which the same removal succeeds |
| Invariants.ReuploadAndTheLock | documents/views.py:254-299 | an identical, storable re-upload kept in memory leaves the lock with its holder; a changed one that can be read and stored frees it |
| Invariants.UndecodableReuploadKeepsLock | documents/views.py:291-293 | a changed upload kept in memory whose old or new content does not decode fails, and the request leaves the store, lock included, as it was |
| Invariants.SpooledReuploadFails | documents/views.py:254-264 | an upload with the right suffix that was spooled to disk fails with "Unable to create temporary document file.", whatever its content, and the request leaves the store, lock included, as it was |
| Invariants.StrangerMayReupload | documents/views.py:246-250 | a user who is not a member may replace a locked document's content with a readable, storable file kept in memory, freeing the lock |
| Invariants.ReuploadSuffix | documents/serializers.py:112-114 | an accepted re-upload leaves the file as it was or gives it the suffix of the sanitised name, which is the old suffix whenever the sent name is safe (before any renaming of colliding names) |
| Middleware.GetJwtUser | helpers/middlewares.py:32-52 | a non-empty header that is not exactly two words fails; a user is read exactly when the header has two words and the second decodes to a payload whose expiry lies strictly after now |
| Middleware.BlockedAnywhere | helpers/middlewares.py:16 | the media test looks for the media directories anywhere in the path, so a refused path stays refused whatever text surrounds it |
| Middleware.ProcessRequestAsWritten | helpers/middlewares.py:14-38 | media paths are refused; the request fails with an uncaught error exactly when the path is guarded and the header does not split into two words |
| Middleware.ProcessRequest | helpers/middlewares.py:14-30 | media paths are refused whatever the token; diff files and the whitelist pass; any other path passes exactly when the token is valid and is refused with "Invalid token in header." otherwise; no request fails with a server error |
| Middleware.GatesAgreeOffMalformedHeaders | helpers/middlewares.py:14-38 | wherever the written gate does not fail, the two gates agree |
| Middleware.OneWordHeaderCrashes | helpers/middlewares.py:34-38 | `Authorization: Bearer` on `/api/v1/document/` fails the written gate but is a 401 at the corrected one |
| Middleware.BearerHeader | helpers/middlewares.py:36-49 | `<scheme> <token>` on a guarded path passes exactly when the token decodes with an expiry after now |
| Middleware.NoHeaderRefused | helpers/middlewares.py:26-28 | a guarded path without a header is refused with "Invalid token in header." |
| Middleware.StoredFilesAreBlocked | helpers/middlewares.py:16-18 | every stored document and version file's media URL is refused by the gate |

## Findings

| source | as written | input that shows it | evidently intended | confidence | as-written member | corrected member |
|---|---|---|---|---|---|---|
| helpers/middlewares.py:34-38 | the header is unpacked into two names inside a `try` that only catches `AssertionError`, so a header of one word or three words raises `ValueError` and the request ends in a server error | `Authorization: Bearer` on `/api/v1/document/` | a 401 with "Invalid token in header.", like every other bad token | medium; not executed | Middleware.OneWordHeaderCrashes | Middleware.ProcessRequest |

## Left out

- The framework plumbing: routing, content negotiation, response bodies and status codes. A rejection is an `Error` value; `Errors.Message` gives its text.
- The list, retrieve and paginated views of documents and versions, and their filters, search and ordering: they only read.
- The generic PATCH of a document through `DocumentView` and its update serializer (documents/serializers.py:19-22), which writes `document_name` and `owner`: the view has no ownership check, so any authenticated user can move a document to another owner and thereby leave the lock with a user who is no longer a member. `Invariants.RunPreservesValid` covers only the five modelled requests.
- The generic PUT and DELETE of `DocumentView` (documents/views.py:18): PUT goes through the list serializer with its nested `owner` and `currently_edited_by`, and DELETE of a document that has versions is refused by the database, since `parent_document` is declared `on_delete=DO_NOTHING` (documents/models.py:67) and the foreign-key constraint still holds; neither is one of the modelled views, and neither checks ownership.
- The users app (registration, login, token issuance, password reset): the model takes the set of user keys as given.
- Migrations and the database engine. The owner of a document is modelled as always set, since create writes it straight away.
- The ownerless row that create inserts before it writes the owner: if the unique constraint then refuses the owner, whether that row survives depends on transaction settings that are not part of this model. The model leaves the store unchanged.
- Transactions and concurrency: every view is one atomic step, so two fetches cannot race for the lock.
- File I/O: temporary files, `mimetypes`, opening and closing files, and the storage backend's renaming of colliding names, which can change the suffix of a dot-only stem such as `..txt`. A stored file is its path and content. Whether an upload is kept in memory is an input rather than derived from its size and the settings.
- The fetch view's "Unable to guess mime-type of the file. Try downloading later." (documents/views.py:206-213): `mimetypes.guess_type` answers `None` for an unknown type rather than raising, so the model has no such failure.
- The create view's "Unknown error occurred while creating document version object. ..." (documents/views.py:71-77): the first version stores the file the document has just stored, so the model treats that save as succeeding.
- The re-upload serializer's catch-all (documents/serializers.py:119-120), which turns any other exception while reading the stored path into a validation error: the model's stored paths are always readable.
- Character decoding in text mode: whether content decodes is a parameter (`Lines.Decodable`), since it depends on the platform's locale; lines are bytes, with only newline translation (`\r\n` and `\r` become `\n`).
- `difflib.Differ`: the comparison algorithm is a parameter, so the model states only which lines it is given and that its output becomes the diff file.
- The JWT signature check and `jwt.decode` itself: the decoder is a parameter returning a payload or nothing. An `exp` that is not an integer is treated as missing.
- The clock and `uuid4`: the time and the eight-character tag are inputs.
- DRF's other built-in field checks (null characters in names, empty files, over-long file names): only required, blank and the 128-character limit are modelled.
- `pathlib` normalisation of trailing slashes and `.` components: stored paths never contain them.
- Paths.Suffix: its own contract states only the shape of a suffix; what it selects is stated by Paths.SuffixSelects and Paths.SuffixNeedsInnerDot.
- Paths.IsNameChar: `\w` is taken as the ASCII letters, digits and `_`; Python's Unicode-aware `\w` also keeps non-ASCII letters and digits, which the model drops.
- Paths.ValidFileName: the refusal of "", "." and ".." is that of current Django releases; older ones stored such names.
- The name of the diff file: it is the fixed prefix, eight hex characters and the stored suffix, all safe characters, so it is taken as stored unchanged.
