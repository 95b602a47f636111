/**
 * The single-call operations of gdstorage.go over an abstract Drive
 * service: each remote call is answered by the reply passed for it, and
 * each operation reports the calls it issued.
 */
module Operations {
  import opened Results
  import opened Text
  import opened Drive
  import opened Naming

  /**
   * GetDirectory, as written: a failure whose reason is not "notFound"
   * yields an empty record and no error, while a "notFound" failure is
   * returned as the error.
   */
  function GetDirectory(dirID: string, reply: Result<RemoteFile>, parse: string -> Result<Time>): (r: Run<DriveFile>)
    ensures r.Returned? && r.calls == [FilesGet(dirID, FileFields)]
    ensures reply.Err? ==> r.value == EmptyDriveFile
    ensures reply.Err? ==> (r.err.None? <==> !NotFoundText(reply.message))
    ensures reply.Err? && r.err.Some? ==> r.err.value == reply.message
    ensures reply.Ok? ==> (r.err.None? <==> parse(reply.value.createdTime).Ok?)
    ensures reply.Ok? && parse(reply.value.createdTime).Err? ==> r.err == Some(parse(reply.value.createdTime).message)
    ensures reply.Ok? && r.err.None? ==> r.value.id == reply.value.id && r.value.url == reply.value.webViewLink
    ensures reply.Ok? && r.err.None? ==> r.value == FormatDriveFile(reply.value, parse).value
    ensures r.err.Some? ==> r.value == EmptyDriveFile
  {
    var calls := [FilesGet(dirID, FileFields)];
    match reply
    case Err(m) =>
      if !IsNotFound(m) then Returned(EmptyDriveFile, None, calls)
      else Returned(EmptyDriveFile, Some(m), calls)
    case Ok(f) =>
      match FormatDriveFile(f, parse)
      case Err(m) => Returned(EmptyDriveFile, Some(m), calls)
      case Ok(d) => Returned(d, None, calls)
  }

  /** The error of StoreFile and StoreFiles when the parent lookup finds no folder. */
  function ParentMissing(parentID: string): (e: string)
    ensures |e| > |parentID| && e[|e| - |parentID|..] == parentID
    ensures e[..|e| - |parentID|] == "Unable to find parent directory with id of: "
  {
    "Unable to find parent directory with id of: " + parentID
  }

  /** The runtime panic of indexing element [1] of a one-element slice. */
  const IndexPanic: string := "runtime error: index out of range [1] with length 1"

  /** What building and sending one upload comes to. */
  datatype Step =
    | Stored(id: string, call: Call)
    | Refused(err: string)
    | Failed(err: string, call: Call)
    | NoExtension

  /**
   * The upload part shared by StoreFile and StoreFiles: derive the stored
   * name and the MIME type, then create the file with the opened source
   * as media, unless the extension is missing (a panic) or not accepted.
   */
  function UploadStep(name: string, filename: string, src: Source, parent: string, ts: int, reply: Result<string>): (s: Step)
    ensures s.NoExtension? <==> ExtensionOf(filename).None?
    ensures s.Refused? <==> ExtensionOf(filename).Some? && MimeTypeFor(ExtensionOf(filename).value).None?
    ensures s.Refused? ==> s.err == UnsupportedType(ExtensionOf(filename).value)
    ensures s.Stored? || s.Failed? ==>
      var ext := ExtensionOf(filename).value;
      MimeTypeFor(ext).Some? &&
      s.call == FilesUpload(UploadName(name, ts, ext), MimeTypeFor(ext).value, [parent], src)
    ensures s.Stored? <==> (s.Stored? || s.Failed?) && reply.Ok?
    ensures s.Stored? ==> s.id == reply.value
    ensures s.Failed? ==> reply.Err? && s.err == reply.message
  {
    var newFileName := name + "_" + Decimal(ts);
    match ExtensionOf(filename)
    case None => NoExtension
    case Some(ext) =>
      var fullFileName := newFileName + "." + ext;
      match MimeTypeFor(ext)
      case None => Refused(UnsupportedType(ext))
      case Some(mime) =>
        var call := FilesUpload(fullFileName, mime, [parent], src);
        match reply
        case Err(m) => Failed(m, call)
        case Ok(id) => Stored(id, call)
  }

  /**
   * StoreFile: look the parent up, open the source, then upload it under
   * <name>_<ts>.<ext> into the folder found.
   */
  function StoreFile(file: StoreFileInput, parentID: string, getReply: Result<RemoteFile>, ts: int,
                     uploadReply: Result<string>, parse: string -> Result<Time>): (r: Run<string>)
    ensures |r.calls| >= 1 && r.calls[0] == FilesGet(parentID, FileFields) && |r.calls| <= 2
    ensures var dir := GetDirectory(parentID, getReply, parse);
      dir.err.Some? || dir.value.id == "" ==>
        r.Returned? && r.value == "" && r.calls == [FilesGet(parentID, FileFields)] &&
        r.err == (if dir.err.Some? then dir.err else Some(ParentMissing(parentID)))
    ensures file.header.open.Err? ==> r.Returned? && r.err.Some? && NoUpload(r.calls)
    ensures var dir := GetDirectory(parentID, getReply, parse);
      dir.err.None? && dir.value.id != "" && file.header.open.Err? ==>
        r == Returned("", Some(file.header.open.message), [FilesGet(parentID, FileFields)])
    ensures var dir := GetDirectory(parentID, getReply, parse);
      var ext := ExtensionOf(file.header.filename);
      dir.err.None? && dir.value.id != "" && file.header.open.Ok? ==>
        (ext.None? ==> r == Panicked(IndexPanic, [FilesGet(parentID, FileFields)])) &&
        (ext.Some? && MimeTypeFor(ext.value).None? ==>
          r == Returned("", Some(UnsupportedType(ext.value)), [FilesGet(parentID, FileFields)])) &&
        (ext.Some? && MimeTypeFor(ext.value).Some? ==>
          r.Returned? && |r.calls| == 2 &&
          r.calls[1] == FilesUpload(UploadName(file.name, ts, ext.value), MimeTypeFor(ext.value).value, [dir.value.id], file.header.open.value) &&
          (uploadReply.Ok? ==> r.err.None? && r.value == uploadReply.value) &&
          (uploadReply.Err? ==> r.err == Some(uploadReply.message)))
    ensures ExtensionOf(file.header.filename).None? ==> NoUpload(r.calls) && (r.Panicked? || r.err.Some?)
    ensures var ext := ExtensionOf(file.header.filename);
      ext.Some? && MimeTypeFor(ext.value).None? ==> r.Returned? && r.err.Some? && NoUpload(r.calls)
    ensures !NoUpload(r.calls) ==>
      var dir := GetDirectory(parentID, getReply, parse);
      var ext := ExtensionOf(file.header.filename);
      dir.err.None? && dir.value.id != "" && file.header.open.Ok? && ext.Some? && MimeTypeFor(ext.value).Some? &&
      |r.calls| == 2 &&
      r.calls[1] == FilesUpload(UploadName(file.name, ts, ext.value), MimeTypeFor(ext.value).value, [dir.value.id], file.header.open.value)
    ensures r.Returned? && r.err.None? ==> !NoUpload(r.calls) && uploadReply == Ok(r.value)
    ensures r.Returned? && r.err.Some? ==> r.value == ""
  {
    var dir := GetDirectory(parentID, getReply, parse);
    if dir.err.Some? then Returned("", dir.err, dir.calls)
    else if dir.value.id == "" then Returned("", Some(ParentMissing(parentID)), dir.calls)
    else
      match file.header.open
      case Err(m) => Returned("", Some(m), dir.calls)
      case Ok(src) =>
        match UploadStep(file.name, file.header.filename, src, dir.value.id, ts, uploadReply)
        case NoExtension => Panicked(IndexPanic, dir.calls)
        case Refused(e) => Returned("", Some(e), dir.calls)
        case Failed(e, call) => Returned("", Some(e), dir.calls + [call])
        case Stored(id, call) =>
          assert (dir.calls + [call])[1] == call;
          Returned(id, None, dir.calls + [call])
  }

  /** The error DeleteFile and DeleteFiles report for a failed deletion. */
  function DeleteError(fileID: string, message: string): (e: string)
    ensures NotFoundText(message) ==> e == "Unable to find file with ID " + fileID
    ensures !NotFoundText(message) ==> e == message
  {
    if IsNotFound(message) then "Unable to find file with ID " + fileID else message
  }

  /** DeleteFile: delete one file, rewording a not-found failure; `failure` is the error Delete().Do() returns (None for nil). */
  function DeleteFile(fileID: string, failure: Option<string>): (r: Run<()>)
    ensures r.Returned? && r.calls == [FilesDelete(fileID)]
    ensures r.err.None? <==> failure.None?
    ensures failure.Some? && NotFoundText(failure.value) ==> r.err == Some("Unable to find file with ID " + fileID)
    ensures failure.Some? && !NotFoundText(failure.value) ==> r.err == Some(failure.value)
  {
    match failure
    case Some(m) => Returned((), Some(DeleteError(fileID, m)), [FilesDelete(fileID)])
    case None => Returned((), None, [FilesDelete(fileID)])
  }

  /** The error CreateAppStorage reports without an organizer email. */
  const MissingEmail: string := "Missing DRIVE_ORGANIZER_EMAIL in .env"

  /**
   * CreateAppStorage: create the folder storage_<project>_<app> under the
   * root, make it readable by anyone, then give the organizer write access.
   * The project id, app name and organizer email are the values the source
   * reads from the environment.
   */
  function CreateAppStorage(projectId: string, appName: string, organizerEmail: string,
                            created: Result<RemoteFile>, readerGrant: Result<()>, writerGrant: Result<()>): (r: Run<DriveFile>)
    ensures r.Returned? && 1 <= |r.calls| <= 3
    ensures r.calls[0] == FilesCreate(FolderName(projectId, appName), FolderMimeType, ["root"])
    ensures r.err.None? <==> created.Ok? && readerGrant.Ok? && organizerEmail != "" && writerGrant.Ok?
    ensures r.err.None? ==> r.value == DriveFile(created.value.id, created.value.name, "", "", ZeroTime)
    ensures r.err.None? ==> r.calls == [
      FilesCreate(FolderName(projectId, appName), FolderMimeType, ["root"]),
      PermissionsCreate(created.value.id, "anyone", "reader", ""),
      PermissionsCreate(created.value.id, "user", "writer", organizerEmail)]
    ensures r.err.Some? ==> r.value == EmptyDriveFile
    ensures created.Err? ==> r.err == Some(created.message) && |r.calls| == 1
    ensures created.Ok? && readerGrant.Err? ==>
      r.err == Some(readerGrant.message) &&
      r.calls == [FilesCreate(FolderName(projectId, appName), FolderMimeType, ["root"]),
                  PermissionsCreate(created.value.id, "anyone", "reader", "")]
    ensures created.Ok? && readerGrant.Ok? && organizerEmail != "" && writerGrant.Err? ==>
      r.err == Some(writerGrant.message) &&
      r.calls == [FilesCreate(FolderName(projectId, appName), FolderMimeType, ["root"]),
                  PermissionsCreate(created.value.id, "anyone", "reader", ""),
                  PermissionsCreate(created.value.id, "user", "writer", organizerEmail)]
    ensures created.Ok? && readerGrant.Ok? && organizerEmail == "" ==>
      r.err == Some(MissingEmail) &&
      r.calls == [FilesCreate(FolderName(projectId, appName), FolderMimeType, ["root"]),
                  PermissionsCreate(created.value.id, "anyone", "reader", "")]
  {
    var create := FilesCreate(FolderName(projectId, appName), FolderMimeType, ["root"]);
    match created
    case Err(m) => Returned(EmptyDriveFile, Some(m), [create])
    case Ok(appDir) =>
      var reader := PermissionsCreate(appDir.id, "anyone", "reader", "");
      match readerGrant
      case Err(m) => Returned(EmptyDriveFile, Some(m), [create, reader])
      case Ok(_) =>
        if organizerEmail != "" then
          var writer := PermissionsCreate(appDir.id, "user", "writer", organizerEmail);
          match writerGrant
          case Err(m) => Returned(EmptyDriveFile, Some(m), [create, reader, writer])
          case Ok(_) => Returned(DriveFile(appDir.id, appDir.name, "", "", ZeroTime), None, [create, reader, writer])
        else
          Returned(EmptyDriveFile, Some(MissingEmail), [create, reader])
  }
}
