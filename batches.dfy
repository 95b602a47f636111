/**
 * The batch operations of gdstorage.go: GetAppStorages, StoreFiles and
 * DeleteFiles. Each is a method with the source's loop, proved equal to a
 * specification function, whose stop-at-first-failure behaviour is then
 * proved as lemmas.
 */
module Batches {
  import opened Results
  import opened Text
  import opened Drive
  import opened Naming
  import opened Operations

  // ---------------------------------------------------------------- GetAppStorages

  /** The records mapped so far, and the error that stopped the mapping. */
  datatype Mapped = Mapped(files: seq<DriveFile>, err: Option<string>)

  /** formatDriveFile over the listed records, in order, stopping at the first failure. */
  function FormatAll(records: seq<RemoteFile>, parse: string -> Result<Time>): (m: Mapped)
    ensures |m.files| <= |records|
    ensures m.err.None? <==> forall j :: 0 <= j < |records| ==> parse(records[j].createdTime).Ok?
    decreases |records|
  {
    if |records| == 0 then Mapped([], None)
    else
      match FormatDriveFile(records[0], parse)
      case Err(m) => Mapped([], Some(m))
      case Ok(d) =>
        var rest := FormatAll(records[1..], parse);
        assert forall j :: 0 < j < |records| ==> records[j] == records[1..][j - 1];
        Mapped([d] + rest.files, rest.err)
  }

  /** Record `f` is the first whose creation time does not parse (`f` = |records| if none). */
  predicate FirstUnparsable(records: seq<RemoteFile>, parse: string -> Result<Time>, f: nat) {
    f <= |records| &&
    (forall j :: 0 <= j < f ==> parse(records[j].createdTime).Ok?) &&
    (f < |records| ==> parse(records[f].createdTime).Err?)
  }

  /**
   * The listing keeps, in order, the projections of the records before the
   * first malformed one, and reports that record's parse error.
   */
  lemma {:induction false} FormatAllStopsAtFirstFailure(records: seq<RemoteFile>, parse: string -> Result<Time>, f: nat)
    requires FirstUnparsable(records, parse, f)
    ensures |FormatAll(records, parse).files| == f
    ensures forall j :: 0 <= j < f ==> FormatAll(records, parse).files[j] == FormatDriveFile(records[j], parse).value
    ensures FormatAll(records, parse).err == if f < |records| then Some(parse(records[f].createdTime).message) else None
    decreases f
  {
    if f > 0 {
      assert FirstUnparsable(records[1..], parse, f - 1);
      FormatAllStopsAtFirstFailure(records[1..], parse, f - 1);
    }
  }

  /** What GetAppStorages returns for the listing's reply. */
  function GetAppStoragesSpec(listReply: Result<seq<RemoteFile>>, parse: string -> Result<Time>): (r: Run<seq<DriveFile>>)
    ensures r.Returned? && r.calls == [FilesList(StorageQuery, StorageListFields)]
    ensures listReply.Err? ==> r.value == [] && r.err == Some(listReply.message)
    ensures listReply.Ok? ==> |r.value| <= |listReply.value|
    ensures listReply.Ok? ==> (r.err.None? <==> forall j :: 0 <= j < |listReply.value| ==> parse(listReply.value[j].createdTime).Ok?)
  {
    var calls := [FilesList(StorageQuery, StorageListFields)];
    match listReply
    case Err(m) => Returned([], Some(m), calls)
    case Ok(records) =>
      var mapped := FormatAll(records, parse);
      Returned(mapped.files, mapped.err, calls)
  }

  /** GetAppStorages: list the storage folders under the root and project each record. */
  method GetAppStorages(listReply: Result<seq<RemoteFile>>, parse: string -> Result<Time>) returns (r: Run<seq<DriveFile>>)
    ensures r == GetAppStoragesSpec(listReply, parse)
  {
    var fileList: seq<DriveFile> := [];
    var calls := [FilesList(StorageQuery, StorageListFields)];
    if listReply.Err? {
      return Returned(fileList, Some(listReply.message), calls);
    }
    var records := listReply.value;
    var i := 0;
    while i < |records|
      invariant 0 <= i <= |records|
      invariant |fileList| == i
      invariant forall j :: 0 <= j < i ==> parse(records[j].createdTime).Ok?
      invariant forall j :: 0 <= j < i ==> fileList[j] == FormatDriveFile(records[j], parse).value
    {
      var formatted := FormatDriveFile(records[i], parse);
      if formatted.Err? {
        FormatAllStopsAtFirstFailure(records, parse, i);
        assert fileList == FormatAll(records, parse).files;
        return Returned(fileList, Some(formatted.message), calls);
      }
      fileList := fileList + [formatted.value];
      i := i + 1;
    }
    FormatAllStopsAtFirstFailure(records, parse, |records|);
    assert fileList == FormatAll(records, parse).files;
    return Returned(fileList, None, calls);
  }

  // ---------------------------------------------------------------- DeleteFiles

  /** What DeleteFiles does, given the error each deletion returns (None for nil). */
  function DeleteAll(ids: seq<string>, replies: seq<Option<string>>): (r: Run<()>)
    requires |replies| == |ids|
    ensures r.Returned? && |r.calls| <= |ids|
    ensures r.err.None? <==> forall j :: 0 <= j < |replies| ==> replies[j].None?
    decreases |ids|
  {
    if |ids| == 0 then Returned((), None, [])
    else if replies[0].Some? then Returned((), Some(DeleteError(ids[0], replies[0].value)), [FilesDelete(ids[0])])
    else
      var rest := DeleteAll(ids[1..], replies[1..]);
      assert forall j :: 0 < j < |replies| ==> replies[j] == replies[1..][j - 1];
      Returned((), rest.err, [FilesDelete(ids[0])] + rest.calls)
  }

  /** Deletion `f` is the first that fails (`f` = |ids| if none). */
  predicate FirstFailedDelete(replies: seq<Option<string>>, f: nat) {
    f <= |replies| &&
    (forall j :: 0 <= j < f ==> replies[j].None?) &&
    (f < |replies| ==> replies[f].Some?)
  }

  /**
   * DeleteFiles deletes the ids in order up to and including the first
   * failure, attempts none after it, and reports that failure classified
   * as DeleteFile does.
   */
  lemma {:induction false} DeleteAllStopsAtFirstFailure(ids: seq<string>, replies: seq<Option<string>>, f: nat)
    requires |replies| == |ids| && FirstFailedDelete(replies, f)
    ensures DeleteAll(ids, replies).Returned?
    ensures |DeleteAll(ids, replies).calls| == if f < |ids| then f + 1 else f
    ensures forall j :: 0 <= j < |DeleteAll(ids, replies).calls| ==> DeleteAll(ids, replies).calls[j] == FilesDelete(ids[j])
    ensures DeleteAll(ids, replies).err == if f < |ids| then Some(DeleteError(ids[f], replies[f].value)) else None
    decreases f
  {
    if f > 0 {
      assert FirstFailedDelete(replies[1..], f - 1);
      DeleteAllStopsAtFirstFailure(ids[1..], replies[1..], f - 1);
    }
  }

  /** Deleting a one-element list is DeleteFile. */
  lemma DeleteFilesOfOne(id: string, failure: Option<string>)
    ensures DeleteAll([id], [failure]) == DeleteFile(id, failure)
  {
    assert [id][1..] == [];
  }

  /**
   * DeleteFiles: delete the ids one after another, stopping at the first
   * failure; returns Go's error (None for nil) and the calls made.
   */
  method DeleteFiles(ids: seq<string>, replies: seq<Option<string>>) returns (r: Run<()>)
    requires |replies| == |ids|
    ensures r == DeleteAll(ids, replies)
    ensures r.Returned? && |r.calls| <= |ids| && forall j :: 0 <= j < |r.calls| ==> r.calls[j] == FilesDelete(ids[j])
    ensures r.err.None? <==> forall j :: 0 <= j < |replies| ==> replies[j].None?
  {
    var err: Option<string> := None;
    var calls: seq<Call> := [];
    var i := 0;
    while i < |ids| && err.None?
      invariant 0 <= i <= |ids|
      invariant |calls| == i
      invariant forall j :: 0 <= j < i ==> calls[j] == FilesDelete(ids[j])
      invariant err.None? ==> forall j :: 0 <= j < i ==> replies[j].None?
      invariant err.Some? ==> 0 < i && FirstFailedDelete(replies, i - 1) && err == Some(DeleteError(ids[i - 1], replies[i - 1].value))
    {
      calls := calls + [FilesDelete(ids[i])];
      assert forall j :: 0 <= j <= i ==> calls[j] == FilesDelete(ids[j]);
      if replies[i].Some? {
        err := Some(DeleteError(ids[i], replies[i].value));
      }
      i := i + 1;
    }
    var f := if err.Some? then i - 1 else |ids|;
    assert calls == DeleteAll(ids, replies).calls by {
      DeleteAllStopsAtFirstFailure(ids, replies, f);
    }
    DeleteAllStopsAtFirstFailure(ids, replies, f);
    r := Returned((), err, calls);
  }

  // ---------------------------------------------------------------- StoreFiles

  predicate AllOpen(files: seq<StoreFileInput>) {
    forall j :: 0 <= j < |files| ==> files[j].header.open.Ok?
  }

  /** The index of the first input whose Open() fails (|files| if none). */
  function FirstOpenFailure(files: seq<StoreFileInput>): (k: nat)
    ensures k <= |files|
    ensures forall j :: 0 <= j < k ==> files[j].header.open.Ok?
    ensures k < |files| ==> files[k].header.open.Err?
    decreases |files|
  {
    if |files| == 0 || files[0].header.open.Err? then 0
    else 1 + FirstOpenFailure(files[1..])
  }

  /** The upload step for input `j`. */
  function StepAt(files: seq<StoreFileInput>, parent: string, stamps: seq<int>, uploads: seq<Result<string>>, j: nat): Step
    requires j < |files| && |stamps| == |files| && |uploads| == |files| && files[j].header.open.Ok?
  {
    UploadStep(files[j].name, files[j].header.filename, files[j].header.open.value, parent, stamps[j], uploads[j])
  }

  /** Prefix ids and calls to a run; a panic loses the ids. */
  function Prepend(ids: seq<string>, calls: seq<Call>, r: Run<seq<string>>): Run<seq<string>> {
    match r
    case Returned(v, e, c) => Returned(ids + v, e, calls + c)
    case Panicked(reason, c) => Panicked(reason, calls + c)
  }

  lemma PrependNothing(r: Run<seq<string>>)
    ensures Prepend([], [], r) == r
  {
    match r
    case Returned(v, e, c) =>
      assert [] + v == v && [] + c == c;
    case Panicked(reason, c) =>
      assert [] + c == c;
  }

  lemma PrependPrepend(ids: seq<string>, calls: seq<Call>, ids': seq<string>, calls': seq<Call>, r: Run<seq<string>>)
    ensures Prepend(ids, calls, Prepend(ids', calls', r)) == Prepend(ids + ids', calls + calls', r)
  {
    match r
    case Returned(v, e, c) =>
      assert ids + (ids' + v) == ids + ids' + v;
      assert calls + (calls' + c) == calls + calls' + c;
    case Panicked(reason, c) =>
      assert calls + (calls' + c) == calls + calls' + c;
  }

  /** The upload step of every input, in order. */
  function StepsOf(files: seq<StoreFileInput>, parent: string, stamps: seq<int>, uploads: seq<Result<string>>): (steps: seq<Step>)
    requires |stamps| == |files| && |uploads| == |files| && AllOpen(files)
    ensures |steps| == |files|
    decreases |files|
  {
    if |files| == 0 then []
    else [StepAt(files, parent, stamps, uploads, 0)] + StepsOf(files[1..], parent, stamps[1..], uploads[1..])
  }

  /** Step `j` is the upload step for input `j`. */
  lemma {:induction false} StepsOfAt(files: seq<StoreFileInput>, parent: string, stamps: seq<int>, uploads: seq<Result<string>>, j: nat)
    requires |stamps| == |files| && |uploads| == |files| && AllOpen(files) && j < |files|
    ensures StepsOf(files, parent, stamps, uploads)[j] == StepAt(files, parent, stamps, uploads, j)
    decreases j
  {
    if j > 0 {
      StepsOfAt(files[1..], parent, stamps[1..], uploads[1..], j - 1);
      assert files[1..][j - 1] == files[j];
    }
  }

  /** Run the steps in order, stopping at the first that does not store a file. */
  function Gather(steps: seq<Step>): Run<seq<string>>
    decreases |steps|
  {
    if |steps| == 0 then Returned([], None, [])
    else
      match steps[0]
      case NoExtension => Panicked(IndexPanic, [])
      case Refused(e) => Returned([], Some(e), [])
      case Failed(e, c) => Returned([], Some(e), [c])
      case Stored(id, c) => Prepend([id], [c], Gather(steps[1..]))
  }

  /**
   * A run panics only with the index panic, records at least one upload per
   * stored id and at most one per step, and without an error stores every step.
   */
  lemma {:induction false} GatherBounds(steps: seq<Step>)
    ensures var r := Gather(steps);
      (r.Panicked? ==> r.reason == IndexPanic) &&
      (r.Returned? ==> |r.value| <= |r.calls| <= |steps|) &&
      (r.Returned? && r.err.None? ==> |r.value| == |steps|)
    decreases |steps|
  {
    if |steps| > 0 && steps[0].Stored? {
      GatherBounds(steps[1..]);
    }
  }

  /** The upload phase of StoreFiles: upload the inputs in order, stopping at the first failure. */
  function UploadPhase(files: seq<StoreFileInput>, parent: string, stamps: seq<int>, uploads: seq<Result<string>>): (r: Run<seq<string>>)
    requires |stamps| == |files| && |uploads| == |files| && AllOpen(files)
    ensures r.Panicked? ==> r.reason == IndexPanic
    ensures r.Returned? ==> |r.value| <= |r.calls| <= |files|
    ensures r.Returned? && r.err.None? ==> |r.value| == |files|
  {
    GatherBounds(StepsOf(files, parent, stamps, uploads));
    Gather(StepsOf(files, parent, stamps, uploads))
  }

  /** Gather on the steps from `k` on, unfolded once. */
  lemma GatherFrom(steps: seq<Step>, k: nat)
    requires k < |steps|
    ensures steps[k].NoExtension? ==> Gather(steps[k..]) == Panicked(IndexPanic, [])
    ensures steps[k].Refused? ==> Gather(steps[k..]) == Returned([], Some(steps[k].err), [])
    ensures steps[k].Failed? ==> Gather(steps[k..]) == Returned([], Some(steps[k].err), [steps[k].call])
    ensures steps[k].Stored? ==> Gather(steps[k..]) == Prepend([steps[k].id], [steps[k].call], Gather(steps[k + 1..]))
  {
    assert steps[k..][0] == steps[k];
    assert steps[k..][1..] == steps[k + 1..];
  }

  /** A stored step moves its id and its call from the rest of the run to the part already done. */
  lemma GatherAdvance(steps: seq<Step>, k: nat, ids: seq<string>, calls: seq<Call>)
    requires k < |steps| && steps[k].Stored?
    requires Gather(steps) == Prepend(ids, calls, Gather(steps[k..]))
    ensures Gather(steps) == Prepend(ids + [steps[k].id], calls + [steps[k].call], Gather(steps[k + 1..]))
  {
    GatherFrom(steps, k);
    PrependPrepend(ids, calls, [steps[k].id], [steps[k].call], Gather(steps[k + 1..]));
  }

  /** A step that stores nothing ends the run. */
  lemma GatherStop(steps: seq<Step>, k: nat, ids: seq<string>, calls: seq<Call>)
    requires k < |steps| && !steps[k].Stored?
    requires Gather(steps) == Prepend(ids, calls, Gather(steps[k..]))
    ensures steps[k].NoExtension? ==> Gather(steps) == Panicked(IndexPanic, calls)
    ensures steps[k].Refused? ==> Gather(steps) == Returned(ids, Some(steps[k].err), calls)
    ensures steps[k].Failed? ==> Gather(steps) == Returned(ids, Some(steps[k].err), calls + [steps[k].call])
  {
    GatherFrom(steps, k);
    assert ids + [] == ids && calls + [] == calls;
  }

  /** Past the last step, the run is what has been done. */
  lemma GatherDone(steps: seq<Step>, ids: seq<string>, calls: seq<Call>)
    requires Gather(steps) == Prepend(ids, calls, Gather(steps[|steps|..]))
    ensures Gather(steps) == Returned(ids, None, calls)
  {
    assert steps[|steps|..] == [];
    assert ids + [] == ids && calls + [] == calls;
  }

  /** Step `f` is the first that does not store a file (`f` = |steps| if none). */
  predicate FirstUnstored(steps: seq<Step>, f: nat) {
    f <= |steps| &&
    (forall j :: 0 <= j < f ==> steps[j].Stored?) &&
    (f < |steps| ==> !steps[f].Stored?)
  }

  /**
   * The steps return, in order, exactly the ids stored before the first
   * failing step; they issue those uploads, plus the failing one when it
   * was sent, and nothing after. They panic exactly when that step found
   * no extension.
   */
  lemma {:induction false} GatherStopsAtFirstFailure(steps: seq<Step>, f: nat)
    requires FirstUnstored(steps, f)
    ensures Gather(steps).Panicked? <==> f < |steps| && steps[f].NoExtension?
    ensures Gather(steps).Returned? ==>
      |Gather(steps).value| == f && (forall j :: 0 <= j < f ==> Gather(steps).value[j] == steps[j].id) &&
      (Gather(steps).err.None? <==> f == |steps|) &&
      (f < |steps| ==> Gather(steps).err == Some(steps[f].err))
    ensures var sent := f < |steps| && steps[f].Failed?;
      |Gather(steps).calls| == (if sent then f + 1 else f) &&
      (forall j :: 0 <= j < f ==> Gather(steps).calls[j] == steps[j].call) &&
      (sent ==> Gather(steps).calls[f] == steps[f].call)
    decreases f
  {
    if f > 0 {
      assert FirstUnstored(steps[1..], f - 1);
      GatherStopsAtFirstFailure(steps[1..], f - 1);
    }
  }

  /** The parent lookup of StoreFiles found a folder. */
  predicate ParentFound(parentID: string, getReply: Result<RemoteFile>, parse: string -> Result<Time>) {
    var dir := GetDirectory(parentID, getReply, parse);
    dir.err.None? && dir.value.id != ""
  }

  /** How many inputs StoreFiles opens and records a source for. */
  function OpenedCount(files: seq<StoreFileInput>, parentID: string, getReply: Result<RemoteFile>, parse: string -> Result<Time>): nat {
    if ParentFound(parentID, getReply, parse) then FirstOpenFailure(files) else 0
  }

  /**
   * What StoreFiles returns: resolve the parent once, open every input, then
   * run the upload phase into the folder found.
   */
  function StoreFilesSpec(files: seq<StoreFileInput>, parentID: string, getReply: Result<RemoteFile>, stamps: seq<int>,
                          uploads: seq<Result<string>>, parse: string -> Result<Time>): (r: Run<seq<string>>)
    requires |stamps| == |files| && |uploads| == |files|
    ensures |r.calls| >= 1 && r.calls[0] == FilesGet(parentID, FileFields)
    ensures !ParentFound(parentID, getReply, parse) ==>
      r.Returned? && r.value == [] && r.err.Some? && r.calls == [FilesGet(parentID, FileFields)]
    ensures FirstOpenFailure(files) < |files| ==> r.Returned? && r.value == [] && r.err.Some? && NoUpload(r.calls)
    ensures var dir := GetDirectory(parentID, getReply, parse);
      (dir.err.Some? ==> r.err == dir.err) &&
      (dir.err.None? && dir.value.id == "" ==> r.err == Some(ParentMissing(parentID)))
    ensures ParentFound(parentID, getReply, parse) && FirstOpenFailure(files) < |files| ==>
      r.err == Some(files[FirstOpenFailure(files)].header.open.message)
  {
    var dir := GetDirectory(parentID, getReply, parse);
    if dir.err.Some? then Returned([], dir.err, dir.calls)
    else if dir.value.id == "" then Returned([], Some(ParentMissing(parentID)), dir.calls)
    else
      var k := FirstOpenFailure(files);
      if k < |files| then Returned([], Some(files[k].header.open.message), dir.calls)
      else Prepend([], dir.calls, UploadPhase(files, dir.value.id, stamps, uploads))
  }

  /**
   * Once the parent is found and every input opened, StoreFiles returns the
   * ids of the uploads before the first failing input, in input order, and
   * panics exactly when that input has no extension.
   */
  lemma StoreFilesStopsAtFirstFailure(files: seq<StoreFileInput>, parentID: string, getReply: Result<RemoteFile>, stamps: seq<int>,
                                      uploads: seq<Result<string>>, parse: string -> Result<Time>, parent: string, f: nat)
    requires |stamps| == |files| && |uploads| == |files|
    requires ParentFound(parentID, getReply, parse) && GetDirectory(parentID, getReply, parse).value.id == parent
    requires AllOpen(files) && FirstUnstored(StepsOf(files, parent, stamps, uploads), f)
    ensures var r := StoreFilesSpec(files, parentID, getReply, stamps, uploads, parse);
      (r.Panicked? <==> f < |files| && StepsOf(files, parent, stamps, uploads)[f].NoExtension?) &&
      (r.Returned? ==> |r.value| == f && (forall j :: 0 <= j < f ==> uploads[j] == Ok(r.value[j])) && (r.err.None? <==> f == |files|))
  {
    var steps := StepsOf(files, parent, stamps, uploads);
    StoreFilesRunsUploadPhase(files, parentID, getReply, stamps, uploads, parse, parent);
    GatherStopsAtFirstFailure(steps, f);
    forall j | 0 <= j < f
      ensures uploads[j] == Ok(steps[j].id)
    {
      StoredIdIsReply(files, parent, stamps, uploads, j);
    }
  }

  /** A stored step's id is the one the upload reply returned. */
  lemma StoredIdIsReply(files: seq<StoreFileInput>, parent: string, stamps: seq<int>, uploads: seq<Result<string>>, j: nat)
    requires |stamps| == |files| && |uploads| == |files| && AllOpen(files) && j < |files|
    requires StepsOf(files, parent, stamps, uploads)[j].Stored?
    ensures uploads[j] == Ok(StepsOf(files, parent, stamps, uploads)[j].id)
  {
    StepsOfAt(files, parent, stamps, uploads, j);
  }

  /** Once the parent is found and every input opened, StoreFiles is one lookup followed by the upload phase. */
  lemma StoreFilesRunsUploadPhase(files: seq<StoreFileInput>, parentID: string, getReply: Result<RemoteFile>, stamps: seq<int>,
                                  uploads: seq<Result<string>>, parse: string -> Result<Time>, parent: string)
    requires |stamps| == |files| && |uploads| == |files|
    requires ParentFound(parentID, getReply, parse) && GetDirectory(parentID, getReply, parse).value.id == parent
    requires AllOpen(files)
    ensures var r := StoreFilesSpec(files, parentID, getReply, stamps, uploads, parse);
      var g := UploadPhase(files, parent, stamps, uploads);
      (r.Panicked? <==> g.Panicked?) &&
      (r.Returned? ==> r.value == g.value && r.err == g.err) &&
      r.calls == [FilesGet(parentID, FileFields)] + g.calls
  {
    assert FirstOpenFailure(files) == |files|;
    var g := UploadPhase(files, parent, stamps, uploads);
    assert StoreFilesSpec(files, parentID, getReply, stamps, uploads, parse) == Prepend([], [FilesGet(parentID, FileFields)], g);
    match g
    case Returned(v, e, c) => assert [] + v == v;
    case Panicked(reason, c) =>
  }

  /** For a single input, StoreFiles does what StoreFile does, with the id wrapped in a list. */
  lemma StoreFilesOfOne(file: StoreFileInput, parentID: string, getReply: Result<RemoteFile>, ts: int,
                        upload: Result<string>, parse: string -> Result<Time>)
    ensures var one := StoreFile(file, parentID, getReply, ts, upload, parse);
      var many := StoreFilesSpec([file], parentID, getReply, [ts], [upload], parse);
      (one.Panicked? <==> many.Panicked?) && one.calls == many.calls &&
      (one.Returned? ==> many.Returned? && many.err == one.err && many.value == if one.err.None? then [one.value] else [])
  {
    var files := [file];
    if ParentFound(parentID, getReply, parse) && file.header.open.Ok? {
      var parent := GetDirectory(parentID, getReply, parse).value.id;
      var steps := StepsOf(files, parent, [ts], [upload]);
      StepsOfAt(files, parent, [ts], [upload], 0);
      assert steps[0] == UploadStep(file.name, file.header.filename, file.header.open.value, parent, ts, upload);
      assert steps[1..] == [];
      assert FirstOpenFailure(files) == 1;
      var dir := GetDirectory(parentID, getReply, parse);
      assert StoreFilesSpec(files, parentID, getReply, [ts], [upload], parse) == Prepend([], dir.calls, Gather(steps));
      match steps[0]
      case Stored(id, call) =>
        assert Gather(steps[1..]) == Returned([], None, []);
        assert [id] + [] == [id] && [call] + [] == [call];
        assert Gather(steps) == Returned([id], None, [call]);
        assert StoreFile(file, parentID, getReply, ts, upload, parse) == Returned(id, None, dir.calls + [call]);
      case Failed(e, call) =>
        assert StoreFile(file, parentID, getReply, ts, upload, parse) == Returned("", Some(e), dir.calls + [call]);
      case Refused(e) =>
        assert StoreFile(file, parentID, getReply, ts, upload, parse) == Returned("", Some(e), dir.calls);
      case NoExtension =>
        assert StoreFile(file, parentID, getReply, ts, upload, parse) == Panicked(IndexPanic, dir.calls);
    } else if ParentFound(parentID, getReply, parse) {
      assert FirstOpenFailure(files) == 0;
    }
  }

  /**
   * The open phase of StoreFiles: open the inputs in order and record each
   * source, stopping at the first that fails; returns how many were opened.
   */
  method OpenAll(files: seq<StoreFileInput>) returns (k: nat)
    modifies set f | f in files
    ensures k == FirstOpenFailure(files)
    ensures forall f :: f in files ==> f.source == if f in files[..k] then Some(f.header.open.value) else old(f.source)
  {
    k := 0;
    while k < |files|
      invariant 0 <= k <= |files|
      invariant forall j :: 0 <= j < k ==> files[j].header.open.Ok?
      invariant forall f :: f in files ==> f.source == if f in files[..k] then Some(f.header.open.value) else old(f.source)
    {
      var file := files[k];
      assert files[..k + 1] == files[..k] + [file];
      if file.header.open.Err? {
        assert FirstOpenFailure(files) == k;
        return;
      }
      file.source := Some(file.header.open.value);
      k := k + 1;
    }
    assert FirstOpenFailure(files) == |files|;
  }

  /**
   * The upload phase of StoreFiles: upload the opened sources in order,
   * collecting the new ids and stopping at the first failure.
   */
  method UploadAll(files: seq<StoreFileInput>, parent: string, stamps: seq<int>, uploads: seq<Result<string>>)
    returns (r: Run<seq<string>>)
    requires |stamps| == |files| && |uploads| == |files| && AllOpen(files)
    requires forall f :: f in files ==> f.source == Some(f.header.open.value)
    ensures r == UploadPhase(files, parent, stamps, uploads)
  {
    ghost var steps := StepsOf(files, parent, stamps, uploads);
    var driveFiles: seq<string> := [];
    var sent: seq<Call> := [];
    var k := 0;
    assert steps[0..] == steps;
    PrependNothing(Gather(steps));
    while k < |files|
      invariant 0 <= k <= |files|
      invariant Gather(steps) == Prepend(driveFiles, sent, Gather(steps[k..]))
    {
      var file := files[k];
      var step := UploadStep(file.name, file.header.filename, file.source.value, parent, stamps[k], uploads[k]);
      StepsOfAt(files, parent, stamps, uploads, k);
      match step {
        case NoExtension =>
          GatherStop(steps, k, driveFiles, sent);
          return Panicked(IndexPanic, sent);
        case Refused(e) =>
          GatherStop(steps, k, driveFiles, sent);
          return Returned(driveFiles, Some(e), sent);
        case Failed(e, call) =>
          GatherStop(steps, k, driveFiles, sent);
          return Returned(driveFiles, Some(e), sent + [call]);
        case Stored(id, call) =>
          GatherAdvance(steps, k, driveFiles, sent);
          driveFiles := driveFiles + [id];
          sent := sent + [call];
      }
      k := k + 1;
    }
    GatherDone(steps, driveFiles, sent);
    return Returned(driveFiles, None, sent);
  }

  /**
   * StoreFiles: resolve the parent once, open every input and record its
   * source, then upload the inputs one after another.
   */
  method StoreFiles(files: seq<StoreFileInput>, parentID: string, getReply: Result<RemoteFile>, stamps: seq<int>,
                    uploads: seq<Result<string>>, parse: string -> Result<Time>) returns (r: Run<seq<string>>)
    requires |stamps| == |files| && |uploads| == |files|
    modifies set f | f in files
    ensures r == StoreFilesSpec(files, parentID, getReply, stamps, uploads, parse)
    ensures forall f :: f in files ==>
      f.source == if f in files[..OpenedCount(files, parentID, getReply, parse)] then Some(f.header.open.value) else old(f.source)
  {
    var dir := GetDirectory(parentID, getReply, parse);
    if dir.err.Some? {
      return Returned([], dir.err, dir.calls);
    }
    if dir.value.id == "" {
      return Returned([], Some(ParentMissing(parentID)), dir.calls);
    }
    // open every input first, so that a failure uploads nothing
    var count := OpenAll(files);
    if count < |files| {
      return Returned([], Some(files[count].header.open.message), dir.calls);
    }
    assert files[..count] == files;
    var uploaded := UploadAll(files, dir.value.id, stamps, uploads);
    r := Prepend([], dir.calls, uploaded);
  }
}
