/**
 * The data that gdstorage.go handles: the local projection of a Drive file,
 * the fields of a remote drive.File the package asks for, an upload request,
 * and the log of remote calls an operation issues.
 */
module Drive {
  import opened Results

  /**
   * A time.Time reduced to its instant: seconds since 0001-01-01T00:00:00Z
   * and a nanosecond part. The zero value is Go's zero time.
   */
  datatype Time = Time(sec: int, nsec: nat)

  const ZeroTime: Time := Time(0, 0)

  /** The package's DriveFile record. */
  datatype DriveFile = DriveFile(id: string, name: string, url: string, mimeType: string, createdAt: Time)

  /** DriveFile{}: every field at its zero value. */
  const EmptyDriveFile: DriveFile := DriveFile("", "", "", "", ZeroTime)

  /** The fields of a remote drive.File that the package requests. */
  datatype RemoteFile = RemoteFile(id: string, name: string, webViewLink: string, mimeType: string, createdTime: string)

  /** An opened multipart.File, known only by an opaque handle. */
  datatype Source = Source(handle: nat)

  /**
   * A multipart.FileHeader: the client's file name, and what Open() on
   * it answers (an opened source, or an error text).
   */
  datatype FileHeader = FileHeader(filename: string, open: Result<Source>)

  /**
   * StoreFileInput: the name chosen by the caller, the header of the
   * uploaded part, and the FileSource slot that StoreFiles fills in.
   */
  class StoreFileInput {
    const name: string
    const header: FileHeader
    var source: Option<Source>

    constructor (name: string, header: FileHeader)
      ensures this.name == name && this.header == header && source == None
    {
      this.name := name;
      this.header := header;
      source := None;
    }
  }

  /** A call to the Drive v3 service, with the arguments that the package passes. */
  datatype Call =
    | FilesList(query: string, fields: string)
    | FilesCreate(name: string, mimeType: string, parents: seq<string>)
    | PermissionsCreate(fileId: string, kind: string, role: string, email: string)
    | FilesGet(fileId: string, fields: string)
    | FilesUpload(name: string, mimeType: string, parents: seq<string>, media: Source)
    | FilesDelete(fileId: string)

  /**
   * How an operation ends: it returns a value and Go's error (None for
   * nil), or it panics; either way with the remote calls it issued, in order.
   */
  datatype Run<T> =
    | Returned(value: T, err: Option<string>, calls: seq<Call>)
    | Panicked(reason: string, calls: seq<Call>)

  /** No call in the log uploads a file. */
  predicate NoUpload(calls: seq<Call>) {
    forall i :: 0 <= i < |calls| ==> !calls[i].FilesUpload?
  }

  /** The MIME type Drive gives to folders. */
  const FolderMimeType: string := "application/vnd.google-apps.folder"

  /** The fields GetDirectory asks for. */
  const FileFields: string := "id, name, webViewLink, mimeType, createdTime"

  /** The query and fields of the listing in GetAppStorages. */
  const StorageQuery: string := "'root' in parents and mimeType='application/vnd.google-apps.folder' and name contains 'storage_'"
  const StorageListFields: string := "files(id, name, webViewLink, mimeType, createdTime)"
}
