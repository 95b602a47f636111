# gdstorage in Dafny

A model of `gdstorage`, a small Go package that keeps an application's
uploaded images in Google Drive. It covers:

- the app storage: a folder named `storage_<project>_<app>` under the Drive
  root, which anyone can read and the organizer can write;
- parent-folder lookup (`GetDirectory`);
- image uploads (`StoreFile`, `StoreFiles`), each stored as
  `<name>_<UnixNano>.<ext>` with MIME type `image/jpeg` or `image/png`;
- deletions (`DeleteFile`, `DeleteFiles`);
- the listing of app storages (`GetAppStorages`);
- the pure helpers `GetURL` and `formatDriveFile`.

The Drive service is not modelled. Each remote call made by an operation
gets its answer from a reply passed in as a parameter: one reply per call
kind, and one sequence of replies for a batch. Every operation also returns
the log of the calls it made, in order (`Drive.Call`). That lets the
contracts say "no upload is attempted" or "no deletion after the first
failure". Go's `(value, error)` results become `Drive.Run`: `Returned` holds
the value, the error text (`None` for nil) and the calls; `Panicked` is the
index-out-of-range panic of the extension lookup.

Modules:

- `Results` is `Option` and `Result`.
- `Text` models the Go library functions the package calls:
  `strings.Split`, `strings.ToLower`, `filepath.Ext` and `%d` formatting.
  It also has two helpers the package does not call: `Index`, on which
  `Split` is built, and `Join`, used only to state that `Split` loses
  nothing.
- `Drive` is the data model and the call log.
- `Naming` holds the pure helpers: URL, folder name, extension, MIME type,
  upload name, the notFound test and `formatDriveFile`.
- `Operations` holds the single-call operations.
- `Batches` holds the three loops, each a `method` proved equal to a
  specification function. Lemmas about that function prove where the loop
  stops.

`StoreFileInput` is a class, because `StoreFiles` writes each input's
`FileSource` in place (gdstorage.go:210). `Batches.StoreFiles` (through
`Batches.OpenAll`) states the new value of every input's `source`.

`GetDirectory` (gdstorage.go:126-135) handles a failed lookup in two ways.
A failure whose reason is not `notFound` gives an empty record and no
error. A `notFound` failure is returned as the error. Callers then treat
an empty id as a missing parent (gdstorage.go:154, 197).
`Operations.GetDirectory` states both branches exactly.

## Model

| member | source | states |
|---|---|---|
| Naming.GetURL | gdstorage.go:62-64 | the URL is the public download prefix followed by the id, and `IdOfURL` recovers the id from it |
| Naming.GetURLInjective | gdstorage.go:62-64 | two ids with the same URL are equal |
| Naming.FormatDriveFile | gdstorage.go:47-60 | succeeds exactly when `createdTime` parses; on success it copies id, name and MIME type, takes the URL from `webViewLink` and the creation time from the parse; otherwise it returns the parse error |
| Naming.FolderName | gdstorage.go:95 | the storage folder name starts with `storage_`, so the listing filter `name contains 'storage_'` (gdstorage.go:74) matches it |
| Naming.FolderNameInjective | gdstorage.go:95 | for project ids without `_`, the folder name determines both the project id and the app name |
| Naming.ExtensionOf | gdstorage.go:167 | the lookup is out of range (None) exactly when the last path element has no dot; otherwise it is the text after the last dot, which holds no dot or slash and ends the file name |
| Naming.MimeTypeFor | gdstorage.go:169-177 | `image/jpeg` exactly when the extension is `jpeg` or `jpg` ignoring case, `image/png` exactly when it is `png` ignoring case, refused otherwise |
| Naming.UnsupportedType | gdstorage.go:176 | the refusal message is `Unable to store files with type ` followed by the refused extension |
| Naming.UploadName | gdstorage.go:166-168 | the stored name starts with `<name>_` and ends with `.<ext>` |
| Naming.UploadNameKeepsExtension | gdstorage.go:166-168 | the stored name `<name>_<ts>.<ext>` has the client file's extension |
| Naming.UploadNameInjective | gdstorage.go:166-168 | the stored name determines the caller's name, the timestamp and the extension |
| Naming.IsNotFound | gdstorage.go:131-132 | the last piece of `strings.Split(err, ", ")` is `notFound` exactly when the message is `notFound` or ends in `, notFound` |
| Text.Index | gdstorage.go:131 | the helper `Split` is built on (the package does not call `strings.Index` itself): the result is an occurrence of the separator with none before it, and it is absent exactly when the separator does not occur |
| Text.JoinSplit | gdstorage.go:131 | joining the pieces of `strings.Split` with the separator gives the text back |
| Text.LastPieceShape | gdstorage.go:131-132 | the last piece of `strings.Split` is a suffix free of the separator, and it is either the whole text or directly preceded by the separator |
| Text.Ext | gdstorage.go:167 | `filepath.Ext` is empty exactly when the last path element has no dot; otherwise it is a suffix that starts with a dot and holds no other dot and no slash |
| Text.ExtAfterDot | gdstorage.go:167-168 | the extension of `front.e` is `.e` when `e` holds no dot or slash |
| Text.ToLowerEq | gdstorage.go:171-173 | comparing `strings.ToLower(s)` with a lower-case word is comparing `s` with it ignoring case |
| Text.DecimalRoundTrip | gdstorage.go:166 | the `%d` text of an integer parses back to it |
| Operations.GetDirectory | gdstorage.go:125-145 | one Get with the five fields; a failure gives an empty record, with the error exactly when its reason is `notFound`; a found folder gives its projection, or the empty record with `time.Parse`'s own error when its time does not parse |
| Operations.ParentMissing | gdstorage.go:155 | the missing-parent message is `Unable to find parent directory with id of: ` followed by the parent id |
| Operations.IndexPanic | gdstorage.go:167 | the text of the panic raised by indexing `[1]` of a one-element slice |
| Operations.UploadStep | gdstorage.go:165-185 | no extension gives the panic; an extension outside jpeg/jpg/png gives the unsupported-type error and no call; otherwise exactly one upload named `<name>_<ts>.<ext>` into the parent with the right MIME type and the opened source, which stores iff the reply is a success |
| Operations.StoreFile | gdstorage.go:149-186 | the first call is the parent lookup; a failed or empty lookup ends there with the lookup error or the missing-parent text; after a found parent, an open failure returns Open's own error with no upload; with the source open, a missing extension panics after the lookup, an unknown one returns the unsupported-type text with no upload, and an accepted one makes exactly one upload named `<name>_<ts>.<ext>` into the parent with the right MIME type and the opened source, returning the id the upload replied or the upload's own error |
| Operations.DeleteError | gdstorage.go:245-250 | a notFound failure is reworded as "Unable to find file with ID …"; any other is passed through |
| Operations.DeleteFile | gdstorage.go:243-254 | exactly one Delete call; no error exactly when it succeeds; the error classified as by DeleteError |
| Operations.MissingEmail | gdstorage.go:118 | the fixed message returned when no organizer email is set |
| Operations.CreateAppStorage | gdstorage.go:94-122 | creates `storage_<project>_<app>` under root, grants anyone-reader, then organizer-writer; succeeds exactly when all three succeed and the email is set, returning the new id and name; a failed create, reader grant or writer grant returns that call's own error and makes no later call; a missing email fails after the reader grant, with the fixed message |
| Batches.FormatAll | gdstorage.go:80-88 | keeps at most one record per listed file, and reports no error exactly when every creation time parses |
| Batches.GetAppStoragesSpec | gdstorage.go:71-91 | one List call with the storage query and fields; a failed listing gives no records and its error; otherwise no error exactly when every record parses |
| Batches.FormatAllStopsAtFirstFailure | gdstorage.go:80-88 | the listing keeps, in order, the projections of the records before the first unparsable one, and reports that record's parse error |
| Batches.GetAppStorages | gdstorage.go:71-91 | the loop returns what `GetAppStoragesSpec` says |
| Batches.DeleteAll | gdstorage.go:257-270 | at most one Delete call per id, and no error exactly when every deletion succeeds |
| Batches.DeleteAllStopsAtFirstFailure | gdstorage.go:258-267 | deletion stops at the first failure: calls are the deletes of the ids up to and including it, in order, and the error is that failure classified as by DeleteFile |
| Batches.DeleteFiles | gdstorage.go:257-270 | the loop returns what `DeleteAll` says: at most one Delete per id, in input order, and no error exactly when every deletion succeeds |
| Batches.DeleteFilesOfOne | gdstorage.go:243-270 | deleting a one-id list is DeleteFile |
| Batches.FirstOpenFailure | gdstorage.go:203-207 | the index of the first input whose Open fails, every earlier one opening |
| Drive.StoreFileInput.constructor | gdstorage.go:23-27 | an input holds the caller's name and the file header, and its `FileSource` slot starts empty until `StoreFiles` fills it (gdstorage.go:210) |
| Batches.OpenAll | gdstorage.go:203-213 | opens inputs up to the first failure and sets `source` to the opened handle for exactly those inputs, leaving the others unchanged |
| Batches.UploadAll | gdstorage.go:215-239 | the upload loop returns what `UploadPhase` says for the opened sources |
| Batches.GatherBounds | gdstorage.go:215-239 | the upload loop panics only with the index panic, makes at least one upload per stored id and at most one per input, and without an error stores every input |
| Batches.UploadPhase | gdstorage.go:215-239 | the upload phase over the opened inputs has the bounds of `GatherBounds`: at most one upload per input, and one id per input on success |
| Batches.GatherStopsAtFirstFailure | gdstorage.go:215-239 | the upload phase returns exactly the ids stored before the first failing step, in input order; issues those uploads plus the failing one only if it was sent; panics exactly when that step has no extension |
| Batches.StoreFilesSpec | gdstorage.go:189-213 | the first call is the parent lookup; a failed lookup ends there with no ids and the lookup error, an empty one with the missing-parent text; after a found parent, an open failure uploads nothing, returns no ids and the first failing Open's own error |
| Batches.StoreFilesRunsUploadPhase | gdstorage.go:189-239 | once the parent is found and every input opened, StoreFiles is the lookup followed by the upload phase |
| Batches.StoreFilesStopsAtFirstFailure | gdstorage.go:215-239 | then StoreFiles returns the ids of the uploads before the first failing input, each the id its upload replied, and no error exactly when every input was stored |
| Batches.StoreFilesOfOne | gdstorage.go:149-240 | for one input StoreFiles makes the same calls as StoreFile, panics when it does, and returns its error and its id wrapped in a list |
| Batches.StoreFiles | gdstorage.go:189-240 | the method returns what `StoreFilesSpec` says, and the inputs it opened hold their opened source afterwards |

## Left out

- init.go is not part of this model. It reads `GOOGLE_ACCOUNT_SERVICE_JSON`, parses it, sets `GOOGLE_PROJECT_ID`, creates or rewrites `svracc.json`, and calls `drive.NewService`; all of this is environment and file I/O.
- The Drive service: every remote call is answered by a reply parameter; the model does not relate replies to one another, e.g. it does not check that a deleted file existed.
- Batches.StoreFiles, Batches.DeleteFiles and Batches.UploadAll require one reply (and one timestamp) per input; this is the shape of the reply parameters, not a demand of the source.
- `time.Now().UnixNano()` is a timestamp parameter, one per upload; nothing is assumed about successive stamps.
- `time.Parse(time.RFC3339, …)` is a parse function parameter; the RFC 3339 grammar and time zones are not modelled, and a `Time` is only an instant.
- `os.Getenv` for `GOOGLE_PROJECT_ID`, `APP_NAME` and `DRIVE_ORGANIZER_EMAIL` becomes the parameters of `Operations.CreateAppStorage`.
- `FileHeader.Open()` is an outcome stored in the header; `defer src.Close()` and the file contents are left out (a source is an opaque handle). These do not affect any returned value.
- A nil `*StoreFileInput` in the input list, or a nil `FileHeader`, makes the Go code panic (gdstorage.go:159, 167, 204). The model cannot express this: an input is a non-null object and its header is a value.
- The index-out-of-range panic is a `Panicked` outcome carrying the calls made before it; stack unwinding and recovery are not modelled.
- Errors are represented by their `Error()` texts; error types and wrapping are not modelled.
- Text.Ext treats only `/` as a path separator, and strings are sequences of characters where Go's are bytes. Both agree with the source on Linux for valid UTF-8 names.
- Text.ToLower maps ASCII letters only. For the comparisons with `jpeg`, `jpg` and `png` this agrees with Go's Unicode `strings.ToLower`, because no other character lowers to one of those letters.
- The `GoogleDriveStorage` interface, `New` and the JSON tags of `DriveFile` are plumbing without behaviour of their own.
- `GetAppStorages` reads only the first page of the listing, as the source does; paging is not modelled.
