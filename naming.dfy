/**
 * The pure helpers of gdstorage.go: the public URL of a file, the
 * projection of a remote record, the folder name of an app storage, the
 * name and MIME type of an upload, and the test for a "notFound" error.
 */
module Naming {
  import opened Results
  import opened Text
  import opened Drive

  const URLPrefix: string := "https://drive.google.com/uc?id="

  /** The file id that a public URL names, if it has the URL's form. */
  function IdOfURL(url: string): Option<string> {
    if |URLPrefix| <= |url| && url[..|URLPrefix|] == URLPrefix then Some(url[|URLPrefix|..]) else None
  }

  /** GetURL: the public download URL of a file; no remote call is made. */
  function GetURL(id: string): (url: string)
    ensures IdOfURL(url) == Some(id)
  {
    var url := URLPrefix + id;
    assert url[..|URLPrefix|] == URLPrefix && url[|URLPrefix|..] == id;
    url
  }

  /** Distinct files get distinct URLs. */
  lemma GetURLInjective(a: string, b: string)
    requires GetURL(a) == GetURL(b)
    ensures a == b
  {
    assert IdOfURL(GetURL(a)) == IdOfURL(GetURL(b));
  }

  /** The folder-name marker that GetAppStorages filters on. */
  const StorageMarker: string := "storage_"

  /** The name CreateAppStorage gives its folder: storage_<project>_<app>. */
  function FolderName(projectId: string, appName: string): (name: string)
    ensures |StorageMarker| <= |name| && name[..|StorageMarker|] == StorageMarker && Occurs(name, StorageMarker)
  {
    var name := StorageMarker + projectId + "_" + appName;
    assert OccursAt(name, StorageMarker, 0);
    name
  }

  /**
   * With a project id free of '_' (as Google Cloud project ids are), the
   * folder name determines both the project id and the app name.
   */
  lemma FolderNameInjective(p: string, a: string, p': string, a': string)
    requires FolderName(p, a) == FolderName(p', a')
    requires '_' !in p && '_' !in p'
    ensures p == p' && a == a'
  {
    var n := |StorageMarker|;
    assert FolderName(p, a)[n..] == p + ['_'] + a;
    assert FolderName(p', a')[n..] == p' + ['_'] + a';
    CutAtFirst(p, a, p', a', '_');
  }

  /**
   * The extension that StoreFile and StoreFiles use: element [1] of
   * strings.Split(filepath.Ext(filename), "."). None stands for the index
   * being out of range, which happens exactly when the last element of
   * the file name has no dot.
   */
  function ExtensionOf(filename: string): (ext: Option<string>)
    ensures ext.None? <==> NoDotInBase(filename)
    ensures ext.Some? ==> EndsWith(filename, "." + ext.value) && '.' !in ext.value && '/' !in ext.value
  {
    var e := Ext(filename);
    if e == "" then
      assert Split(e, ".") == [""];
      None
    else
      SplitDotted(e[1..]);
      assert e == "." + e[1..];
      var parts := Split(e, ".");
      if |parts| > 1 then Some(parts[1]) else None
  }

  lemma SplitDotted(rest: string)
    requires '.' !in rest
    ensures Split("." + rest, ".") == ["", rest]
  {
    var s := "." + rest;
    assert OccursAt(s, ".", 0);
    assert s[1..] == rest;
    OccursChar(rest, '.');
    assert Split(rest, ".") == [rest];
  }

  /** The MIME type stored for an extension: only JPEG and PNG images are accepted. */
  function MimeTypeFor(ext: string): (mime: Option<string>)
    ensures mime == Some("image/jpeg") <==> SameIgnoringCase(ext, "jpeg") || SameIgnoringCase(ext, "jpg")
    ensures mime == Some("image/png") <==> SameIgnoringCase(ext, "png")
    ensures mime.None? <==> !SameIgnoringCase(ext, "jpeg") && !SameIgnoringCase(ext, "jpg") && !SameIgnoringCase(ext, "png")
  {
    ToLowerEq(ext, "jpeg");
    ToLowerEq(ext, "jpg");
    ToLowerEq(ext, "png");
    var lower := ToLower(ext);
    assert "image/" + "jpeg" == "image/jpeg" && "image/" + "png" == "image/png";
    if lower == "jpeg" || lower == "jpg" then Some("image/" + "jpeg")
    else if lower == "png" then Some("image/" + "png")
    else None
  }

  /** The error of an upload whose extension is not accepted. */
  function UnsupportedType(ext: string): (e: string)
    ensures |e| > |ext| && e[|e| - |ext|..] == ext
    ensures e[..|e| - |ext|] == "Unable to store files with type "
  {
    "Unable to store files with type " + ext
  }

  /** The name an upload is stored under: <name>_<UnixNano>.<ext>. */
  function UploadName(name: string, ts: int, ext: string): (n: string)
    ensures |n| > |name| + |ext| + 1 && n[..|name| + 1] == name + "_"
    ensures n[|n| - |ext| - 1..] == "." + ext
  {
    var n := name + "_" + Decimal(ts) + "." + ext;
    assert n[..|name| + 1] == name + "_";
    assert n[|n| - |ext| - 1..] == "." + ext;
    n
  }

  /** The stored name keeps the extension of the client's file name. */
  lemma UploadNameKeepsExtension(name: string, ts: int, filename: string)
    requires ExtensionOf(filename).Some?
    ensures ExtensionOf(UploadName(name, ts, ExtensionOf(filename).value)) == ExtensionOf(filename)
  {
    var ext := ExtensionOf(filename).value;
    ExtAfterDot(name + "_" + Decimal(ts), ext);
    SplitDotted(ext);
  }

  /**
   * The stored name determines the caller's name, the timestamp and the
   * extension, so two uploads with different stamps never share a name.
   */
  lemma UploadNameInjective(name: string, ts: int, ext: string, name': string, ts': int, ext': string)
    requires UploadName(name, ts, ext) == UploadName(name', ts', ext')
    requires '.' !in ext && '.' !in ext'
    ensures name == name' && ts == ts' && ext == ext'
  {
    var d, d' := Decimal(ts), Decimal(ts');
    assert UploadName(name, ts, ext) == name + "_" + d + ['.'] + ext;
    assert UploadName(name', ts', ext') == name' + "_" + d' + ['.'] + ext';
    CutAtLast(name + "_" + d, ext, name' + "_" + d', ext', '.');
    assert '_' !in d && '_' !in d';
    assert name + "_" + d == name + ['_'] + d;
    assert name' + "_" + d' == name' + ['_'] + d';
    CutAtLast(name, d, name', d', '_');
    DecimalRoundTrip(ts);
    DecimalRoundTrip(ts');
  }

  /** The Drive error reason the package looks for. */
  const NotFoundReason: string := "notFound"

  /** The error text is "notFound" or ends in ", notFound". */
  predicate NotFoundText(message: string) {
    message == NotFoundReason || EndsWith(message, ", " + NotFoundReason)
  }

  /**
   * The package's test for a not-found error: the last piece of
   * strings.Split(err.Error(), ", ") is "notFound".
   */
  function IsNotFound(message: string): (r: bool)
    ensures r <==> NotFoundText(message)
  {
    NotFoundIff(message);
    LastPiece(message, ", ") == NotFoundReason
  }

  lemma CommaSpace(s: string, j: nat)
    ensures OccursAt(s, ", ", j) <==> j + 2 <= |s| && s[j] == ',' && s[j + 1] == ' '
  {
    if j + 2 <= |s| {
      assert s[j..j + 2] == [s[j], s[j + 1]];
    }
  }

  /** The last ", "-piece of a message, read as facts about the message's characters. */
  lemma LastPieceChars(message: string)
    ensures var k := |message| - |LastPiece(message, ", ")|;
      0 <= k && message[k..] == LastPiece(message, ", ") &&
      (k != 0 ==> k >= 2 && message[k - 2] == ',' && message[k - 1] == ' ') &&
      (forall j :: k <= j < |message| - 1 ==> !(message[j] == ',' && message[j + 1] == ' '))
  {
    LastPieceShape(message, ", ");
    var p := LastPiece(message, ", ");
    var k := |message| - |p|;
    if k != 0 {
      CommaSpace(message, k - 2);
    }
    forall j | k <= j < |message| - 1
      ensures !(message[j] == ',' && message[j + 1] == ' ')
    {
      CommaSpace(p, j - k);
      assert p[j - k] == message[j] && p[j - k + 1] == message[j + 1];
    }
  }

  lemma NotFoundIff(message: string)
    ensures LastPiece(message, ", ") == NotFoundReason <==> NotFoundText(message)
  {
    var t := NotFoundReason;
    LastPieceChars(message);
    var p := LastPiece(message, ", ");
    var n := |message|;
    var k := n - |p|;
    if p == t && k != 0 {
      assert message[n - 10..] == message[k - 2..k] + message[k..];
    }
    if NotFoundText(message) {
      SuffixChars(message, t);
      assert message != t ==> n >= 10 && message[n - 10] == ',' && message[n - 9] == ' ' by {
        if message != t {
          assert message[n - 10..] == ", " + t;
          assert message[n - 10] == message[n - 10..][0];
          assert message[n - 9] == message[n - 10..][1];
        }
      }
      assert k == n - 8;
    }
  }

  /** A message ending in "notFound" has neither ',' nor ' ' in its last eight characters. */
  lemma SuffixChars(message: string, t: string)
    requires t == NotFoundReason && NotFoundText(message)
    ensures |message| >= 8 && message[|message| - 8..] == t
    ensures forall j :: |message| - 8 <= j < |message| ==> message[j] != ',' && message[j] != ' '
  {
    var n := |message|;
    if message != t {
      assert message[n - 8..] == message[n - 10..][2..];
    }
    forall j | n - 8 <= j < n
      ensures message[j] != ',' && message[j] != ' '
    {
      assert message[j] == t[j - (n - 8)];
    }
  }

  /**
   * formatDriveFile: the projection of a remote record, which fails when
   * its creation time does not parse as RFC 3339.
   */
  function FormatDriveFile(f: RemoteFile, parse: string -> Result<Time>): (r: Result<DriveFile>)
    ensures r.Ok? <==> parse(f.createdTime).Ok?
    ensures r.Ok? ==> r.value == DriveFile(f.id, f.name, f.webViewLink, f.mimeType, parse(f.createdTime).value)
    ensures r.Err? ==> r.message == parse(f.createdTime).message
  {
    match parse(f.createdTime)
    case Err(m) => Err(m)
    case Ok(t) => Ok(DriveFile(f.id, f.name, f.webViewLink, f.mimeType, t))
  }
}
