/**
 * The SFS driver's garbage collector (driver/sfs/sfs_gc.cc, SFSGC): each
 * run removes the buckets marked deleted, with their multipart uploads,
 * objects and versions, within a budget of rgw_gc_max_objs rows; a worker
 * repeats the run unless the collector is suspended.
 *
 * What the database lists (deleted buckets, a bucket's objects, an
 * object's versions, a bucket's uploads and an upload's parts) and which
 * part files exist are parameters; the removals are kept as a log.
 */
module SfsGc {
  import FsPath
  import UuidPath
  import MT = MultipartTypes
  import opened GcCascade

  /** The UUID of an object that has files: valid and not nil. */
  type FileUuid = u: UuidPath.Uuid | u.Valid() && !u.IsNil()
    witness SomeFileUuid()

  function SomeFileUuid(): (u: UuidPath.Uuid)
    ensures u.Valid() && !u.IsNil()
  {
    var u := UuidPath.Uuid([1] + seq(15, _ => 0));
    assert u.bytes[0] != 0;
    u
  }

  /** A multipart upload row as the collector reads it: its id and its object's UUID. */
  datatype Upload = Upload(uploadId: string, objectUuid: FileUuid)

  /** What the database and the file system answer the collector. */
  datatype Queries = Queries(
    objectsOf: string -> seq<UuidPath.Uuid>,
    versionsOf: UuidPath.Uuid -> seq<nat>,
    uploadsOf: string -> seq<Upload>,
    partsOf: string -> seq<int>,
    fileExists: FsPath.Path -> bool)

  /**
   * The part file delete_multiparts looks for, as written: the part's
   * path relative to the process's working directory.
   */
  function GcPartPathAsWritten(u: FileUuid, num: int): (p: FsPath.Path)
    ensures p == MT.PartPath(u, num) && !FsPath.IsAbsolute(p)
  {
    PartPathRelative(u, num);
    MT.PartPath(u, num)
  }

  /** The part file as the multipart code stores it: under the store's data path. */
  function GcPartPath(dataPath: FsPath.Path, u: FileUuid, num: int): (p: FsPath.Path)
    ensures |p| >= |dataPath| && p[..|dataPath|] == dataPath
  {
    PartPathRelative(u, num);
    FsPath.JoinExtends(dataPath, MT.PartPath(u, num));
    FsPath.Join(dataPath, MT.PartPath(u, num))
  }

  /** A part path starts with a hex digit, never with a separator. */
  lemma PartPathRelative(u: FileUuid, num: int)
    ensures !FsPath.IsAbsolute(MT.PartPath(u, num))
  {
    var up := UuidPath.MakeUuidPath(u);
    var base := UuidPath.ToPath(up);
    UuidPath.UuidStringHasNoSeparator(u);
    assert base[0] == up.first[0] == (up.first + up.second + up.fname)[0];
    assert MT.PartPath(u, num)[0] == MT.PartPath(u, num)[..|base|][0] == base[0];
  }

  /**
   * With any data path but the empty one, the file the collector checks
   * is not the one the upload wrote: the collector never removes it.
   */
  lemma GcPartPathMissesStoredPart(dataPath: FsPath.Path, u: FileUuid, num: int)
    requires |dataPath| > 0
    ensures GcPartPathAsWritten(u, num) != GcPartPath(dataPath, u, num)
  {
    PartPathRelative(u, num);
    var q := MT.PartPath(u, num);
    assert |GcPartPath(dataPath, u, num)| >= |dataPath| + |q|;
  }

  /** Where a relative path lands after joining it to the data path. */
  function JoinOffset(dataPath: FsPath.Path): nat
  {
    if FsPath.HasFileName(dataPath) then |dataPath| + 1 else |dataPath|
  }

  lemma GcPartPathSuffix(dataPath: FsPath.Path, u: FileUuid, num: int)
    ensures |GcPartPath(dataPath, u, num)| == JoinOffset(dataPath) + |MT.PartPath(u, num)|
    ensures GcPartPath(dataPath, u, num)[JoinOffset(dataPath)..] == MT.PartPath(u, num)
  {
    PartPathRelative(u, num);
  }

  /**
   * The corrected path names one part's file: distinct parts (numbers
   * 0..99999) of one upload, and parts of distinct uploads, get distinct
   * files under the data path.
   */
  lemma GcPartPathInjective(dataPath: FsPath.Path, u: FileUuid, a: int, v: FileUuid, b: int)
    requires GcPartPath(dataPath, u, a) == GcPartPath(dataPath, v, b)
    ensures u == v
    ensures 0 <= a < 100000 && 0 <= b < 100000 ==> a == b
  {
    GcPartPathSuffix(dataPath, u, a);
    GcPartPathSuffix(dataPath, v, b);
    MT.PartPathSeparatesUploads(u, v, a, b);
    if 0 <= a < 100000 && 0 <= b < 100000 {
      MT.PartPathInjective(u, a, b);
    }
  }

  /** The part files of one upload, by part number, under the data path. */
  function UploadPartFile(dataPath: FsPath.Path, u: FileUuid): int -> FsPath.Path
  {
    num => GcPartPath(dataPath, u, num)
  }

  /** The existing files among the parts' files, removed in order. */
  function PartsLog(nums: seq<int>, partFile: int -> FsPath.Path, fileExists: FsPath.Path -> bool): seq<GcOp>
  {
    if |nums| == 0 then []
    else
      var p := partFile(nums[|nums| - 1]);
      PartsLog(nums[..|nums| - 1], partFile, fileExists) + (if fileExists(p) then [RemovePartFile(p)] else [])
  }

  predicate OnlyPartFiles(log: seq<GcOp>)
  {
    forall i :: 0 <= i < |log| ==> log[i].RemovePartFile?
  }

  predicate OnlyPartRemovals(log: seq<GcOp>)
  {
    forall i :: 0 <= i < |log| ==> log[i].RemovePartFile? || log[i].RemoveParts?
  }

  lemma OnlyPartFilesAppend(a: seq<GcOp>, b: seq<GcOp>)
    requires OnlyPartFiles(a) && OnlyPartFiles(b)
    ensures OnlyPartFiles(a + b)
  {
    forall i | 0 <= i < |a + b|
      ensures (a + b)[i].RemovePartFile?
    {
      if i >= |a| {
        assert (a + b)[i] == b[i - |a|];
      }
    }
  }

  lemma OnlyPartRemovalsAppend(a: seq<GcOp>, b: seq<GcOp>)
    requires OnlyPartRemovals(a) && OnlyPartRemovals(b)
    ensures OnlyPartRemovals(a + b)
  {
    forall i | 0 <= i < |a + b|
      ensures (a + b)[i].RemovePartFile? || (a + b)[i].RemoveParts?
    {
      if i >= |a| {
        assert (a + b)[i] == b[i - |a|];
      }
    }
  }

  /** Only part files are removed while clearing one upload's parts. */
  lemma {:induction false} PartsLogFiles(nums: seq<int>, partFile: int -> FsPath.Path, fileExists: FsPath.Path -> bool)
    ensures OnlyPartFiles(PartsLog(nums, partFile, fileExists))
  {
    if |nums| > 0 {
      var p := partFile(nums[|nums| - 1]);
      var last: seq<GcOp> := if fileExists(p) then [RemovePartFile(p)] else [];
      PartsLogFiles(nums[..|nums| - 1], partFile, fileExists);
      OnlyPartFilesAppend(PartsLog(nums[..|nums| - 1], partFile, fileExists), last);
    }
  }

  lemma PartsLogSnoc(nums: seq<int>, i: nat, partFile: int -> FsPath.Path, fileExists: FsPath.Path -> bool)
    requires i < |nums|
    ensures var p := partFile(nums[i]);
            PartsLog(nums[..i + 1], partFile, fileExists)
            == PartsLog(nums[..i], partFile, fileExists) + (if fileExists(p) then [RemovePartFile(p)] else [])
  {
    assert nums[..i + 1][..i] == nums[..i];
  }

  /** For each upload, its part files, then its part rows. */
  function UploadsLog(dataPath: FsPath.Path, ups: seq<Upload>, partsOf: string -> seq<int>, fileExists: FsPath.Path -> bool): seq<GcOp>
  {
    if |ups| == 0 then []
    else
      var up := ups[|ups| - 1];
      UploadsLog(dataPath, ups[..|ups| - 1], partsOf, fileExists)
        + PartsLog(partsOf(up.uploadId), UploadPartFile(dataPath, up.objectUuid), fileExists) + [RemoveParts(up.uploadId)]
  }

  /** Only part files and part rows are removed while clearing uploads. */
  lemma {:induction false} UploadsLogParts(dataPath: FsPath.Path, ups: seq<Upload>, partsOf: string -> seq<int>, fileExists: FsPath.Path -> bool)
    ensures OnlyPartRemovals(UploadsLog(dataPath, ups, partsOf, fileExists))
  {
    if |ups| > 0 {
      var up := ups[|ups| - 1];
      var init := UploadsLog(dataPath, ups[..|ups| - 1], partsOf, fileExists);
      var parts := PartsLog(partsOf(up.uploadId), UploadPartFile(dataPath, up.objectUuid), fileExists);
      UploadsLogParts(dataPath, ups[..|ups| - 1], partsOf, fileExists);
      PartsLogFiles(partsOf(up.uploadId), UploadPartFile(dataPath, up.objectUuid), fileExists);
      OnlyPartRemovalsAppend(init, parts);
      OnlyPartRemovalsAppend(init + parts, [RemoveParts(up.uploadId)]);
    }
  }

  lemma UploadsLogSnoc(dataPath: FsPath.Path, ups: seq<Upload>, i: nat, partsOf: string -> seq<int>, fileExists: FsPath.Path -> bool)
    requires i < |ups|
    ensures UploadsLog(dataPath, ups[..i + 1], partsOf, fileExists)
            == UploadsLog(dataPath, ups[..i], partsOf, fileExists)
               + PartsLog(partsOf(ups[i].uploadId), UploadPartFile(dataPath, ups[i].objectUuid), fileExists) + [RemoveParts(ups[i].uploadId)]
  {
    assert ups[..i + 1][..i] == ups[..i];
  }

  /**
   * delete_multiparts: the bucket's uploads are aborted; when any are
   * listed, their parts are removed, then the upload rows. None of it is
   * paid from the budget.
   */
  function MultipartLog(dataPath: FsPath.Path, bucketId: string, ups: seq<Upload>,
                        partsOf: string -> seq<int>, fileExists: FsPath.Path -> bool): seq<GcOp>
  {
    [AbortMultiparts(bucketId)]
    + (if |ups| == 0 then [] else UploadsLog(dataPath, ups, partsOf, fileExists) + [RemoveMultiparts(bucketId)])
  }

  /**
   * delete_multiparts always starts by aborting the bucket's uploads, ends
   * by removing their rows when any were listed, and does nothing else
   * when none were.
   */
  lemma MultipartLogShape(dataPath: FsPath.Path, bucketId: string, ups: seq<Upload>,
                          partsOf: string -> seq<int>, fileExists: FsPath.Path -> bool)
    ensures |MultipartLog(dataPath, bucketId, ups, partsOf, fileExists)| > 0
    ensures MultipartLog(dataPath, bucketId, ups, partsOf, fileExists)[0] == AbortMultiparts(bucketId)
    ensures |ups| > 0 ==> MultipartLog(dataPath, bucketId, ups, partsOf, fileExists)[|MultipartLog(dataPath, bucketId, ups, partsOf, fileExists)| - 1] == RemoveMultiparts(bucketId)
    ensures |ups| == 0 ==> MultipartLog(dataPath, bucketId, ups, partsOf, fileExists) == [AbortMultiparts(bucketId)]
  {
  }

  /** None of delete_multiparts is paid from the budget. */
  lemma MultipartLogFree(dataPath: FsPath.Path, bucketId: string, ups: seq<Upload>,
                         partsOf: string -> seq<int>, fileExists: FsPath.Path -> bool)
    ensures Cost(MultipartLog(dataPath, bucketId, ups, partsOf, fileExists)) == 0
  {
    var abort := [AbortMultiparts(bucketId)];
    assert Cost(abort) == 0 by {
      assert abort[1..] == [];
    }
    if |ups| > 0 {
      var uploads := UploadsLog(dataPath, ups, partsOf, fileExists);
      var remove := [RemoveMultiparts(bucketId)];
      UploadsLogParts(dataPath, ups, partsOf, fileExists);
      assert OnlyPartRemovals(uploads);
      CostFree(uploads);
      assert Cost(remove) == 0 by {
        assert remove[1..] == [];
      }
      CostAppend(uploads, remove);
      CostAppend(abort, uploads + remove);
    } else {
      assert MultipartLog(dataPath, bucketId, ups, partsOf, fileExists) == abort;
    }
  }

  /**
   * The cascade the driver's collector runs: with data removal and
   * multipart clean-up, removing part files at the corrected GcPartPath
   * (GcPartPathAsWritten is the path the source builds).
   */
  function SourceOf(dataPath: FsPath.Path, q: Queries): (src: Source)
    ensures src.withData && src.objectsOf == q.objectsOf && src.versionsOf == q.versionsOf
  {
    Source(q.objectsOf, q.versionsOf, b => MultipartLog(dataPath, b, q.uploadsOf(b), q.partsOf, q.fileExists), true)
  }

  /** For each bucket, the driver's cascade runs delete_multiparts over the bucket's listed uploads, at no cost. */
  lemma SourceMultipart(dataPath: FsPath.Path, q: Queries, b: string)
    ensures SourceOf(dataPath, q).mpLogOf(b) == MultipartLog(dataPath, b, q.uploadsOf(b), q.partsOf, q.fileExists)
    ensures Cost(SourceOf(dataPath, q).mpLogOf(b)) == 0
  {
    MultipartLogFree(dataPath, b, q.uploadsOf(b), q.partsOf, q.fileExists);
  }

  lemma SourceUnpaid(dataPath: FsPath.Path, q: Queries)
    ensures Unpaid(SourceOf(dataPath, q))
  {
    forall b {
      SourceMultipart(dataPath, q, b);
    }
  }

  /**
   * A run of the driver's collector removes exactly as many rows as its
   * budget drops by, never more than the budget, and with a budget of
   * one at most one row.
   */
  lemma DriverRunCost(dataPath: FsPath.Path, q: Queries, bucketIds: seq<string>, budget: int)
    ensures var r := BucketsRun(bucketIds, SourceOf(dataPath, q), budget);
            && Cost(r.log) == budget - r.left
            && (budget >= 0 ==> 0 <= r.left <= budget)
            && (budget == 1 ==> Cost(r.log) <= 1)
  {
    SourceUnpaid(dataPath, q);
    BucketsRunCost(bucketIds, SourceOf(dataPath, q), budget);
  }

  /**
   * One step of process_deleted_buckets, in the driver's own terms: once
   * bucket i's run is appended, what is left of the whole run starts at
   * bucket i + 1.
   */
  lemma DriverStep(dataPath: FsPath.Path, q: Queries, bucketIds: seq<string>, i: nat, total: Run,
                   done: seq<GcOp>, budget: int, done': seq<GcOp>, budget': int)
    requires i < |bucketIds| && budget > 0
    requires total.log == done + BucketsRun(bucketIds[i..], SourceOf(dataPath, q), budget).log
    requires total.left == BucketsRun(bucketIds[i..], SourceOf(dataPath, q), budget).left
    requires var b := bucketIds[i];
             var src := SourceOf(dataPath, q);
             var a := BucketRun(b, src.mpLogOf(b), src.objectsOf(b), src.versionsOf, src.withData, budget);
             done' == done + a.log && budget' == a.left
    ensures total.log == done' + BucketsRun(bucketIds[i + 1..], SourceOf(dataPath, q), budget').log
    ensures total.left == BucketsRun(bucketIds[i + 1..], SourceOf(dataPath, q), budget').left
  {
    BucketsRunStep(bucketIds, i, SourceOf(dataPath, q), budget, done);
  }

  /** Before the first bucket, what is left of the run is all of it. */
  lemma DriverStart(dataPath: FsPath.Path, q: Queries, bucketIds: seq<string>, done: seq<GcOp>, budget: int)
    ensures BucketsRun(bucketIds[0..], SourceOf(dataPath, q), budget) == BucketsRun(bucketIds, SourceOf(dataPath, q), budget)
  {
    assert bucketIds[0..] == bucketIds;
  }

  /** When the buckets or the budget run out, the whole run has been made. */
  lemma DriverDone(dataPath: FsPath.Path, q: Queries, bucketIds: seq<string>, i: nat, total: Run, done: seq<GcOp>, budget: int)
    requires i <= |bucketIds| && (i == |bucketIds| || budget <= 0)
    requires total.log == done + BucketsRun(bucketIds[i..], SourceOf(dataPath, q), budget).log
    requires total.left == BucketsRun(bucketIds[i..], SourceOf(dataPath, q), budget).left
    ensures total == Run(done, budget)
  {
    BucketsRunDone(bucketIds, i, SourceOf(dataPath, q), budget);
    assert done + [] == done;
  }

  lemma AppendAssoc(a: seq<GcOp>, b: seq<GcOp>, c: seq<GcOp>)
    ensures (a + b) + c == a + (b + c)
  {
  }

  /** SFSGC: the run's budget, the worker's flags, and the removals made so far. */
  class SFSGC {
    const dataPath: FsPath.Path
    var maxObjects: int
    var downFlag: bool
    var suspendFlag: bool
    var workerRunning: bool
    var log: seq<GcOp>

    /** A new collector: going down until initialized, not suspended, nothing removed. */
    constructor (dataPath0: FsPath.Path)
      ensures dataPath == dataPath0 && downFlag && !suspendFlag && !workerRunning && log == []
    {
      dataPath := dataPath0;
      maxObjects := 0;
      downFlag := true;
      suspendFlag := false;
      workerRunning := false;
      log := [];
    }

    /** initialize: the worker is started and the collector is up. */
    method Initialize()
      modifies this
      ensures workerRunning && !downFlag
      ensures suspendFlag == old(suspendFlag) && log == old(log) && maxObjects == old(maxObjects)
    {
      workerRunning := true;
      downFlag := false;
    }

    /** The destructor: the collector goes down and a started worker is stopped and joined. */
    method Shutdown()
      modifies this
      ensures downFlag && !workerRunning
      ensures suspendFlag == old(suspendFlag) && log == old(log) && maxObjects == old(maxObjects)
    {
      downFlag := true;
      if workerRunning {
        workerRunning := false;
      }
    }

    function Suspended(): (b: bool)
      reads this
      ensures b == suspendFlag
    {
      suspendFlag
    }

    function GoingDown(): (b: bool)
      reads this
      ensures b == downFlag
    {
      downFlag
    }

    method Suspend()
      modifies this
      ensures suspendFlag
      ensures downFlag == old(downFlag) && workerRunning == old(workerRunning) && log == old(log)
    {
      suspendFlag := true;
    }

    method Resume()
      modifies this
      ensures !suspendFlag
      ensures downFlag == old(downFlag) && workerRunning == old(workerRunning) && log == old(log)
    {
      suspendFlag := false;
    }

    /** delete_versioned_object: the version's row and file go; one unit is spent. */
    method DeleteVersionedObject(u: UuidPath.Uuid, id: nat)
      modifies this
      ensures log == old(log) + VersionStep(u, id, true) && maxObjects == old(maxObjects) - 1
      ensures downFlag == old(downFlag) && suspendFlag == old(suspendFlag) && workerRunning == old(workerRunning)
    {
      log := log + [RemoveVersionRow(u, id)];
      log := log + [RemoveVersionData(u, id)];
      maxObjects := maxObjects - 1;
    }

    /** delete_versioned_objects: the object's versions in order, while budget remains. */
    method DeleteVersionedObjects(u: UuidPath.Uuid, ids: seq<nat>)
      modifies this
      ensures log == old(log) + Versions(u, ids[..Affordable(|ids|, old(maxObjects))], true)
      ensures maxObjects == old(maxObjects) - Affordable(|ids|, old(maxObjects))
      ensures downFlag == old(downFlag) && suspendFlag == old(suspendFlag) && workerRunning == old(workerRunning)
    {
      ghost var b0 := maxObjects;
      var i := 0;
      while i < |ids| && maxObjects > 0
        invariant 0 <= i <= Affordable(|ids|, b0) && maxObjects == b0 - i
        invariant log == old(log) + Versions(u, ids[..i], true)
        invariant downFlag == old(downFlag) && suspendFlag == old(suspendFlag) && workerRunning == old(workerRunning)
      {
        assert ids[..i + 1][..i] == ids[..i];
        DeleteVersionedObject(u, ids[i]);
        i := i + 1;
      }
    }

    /** delete_object: the versions first, then, if budget remains, the object's row and directory. */
    method DeleteObject(u: UuidPath.Uuid, ids: seq<nat>)
      modifies this
      ensures log == old(log) + ObjectRun(u, ids, true, old(maxObjects)).log
      ensures maxObjects == ObjectRun(u, ids, true, old(maxObjects)).left
      ensures downFlag == old(downFlag) && suspendFlag == old(suspendFlag) && workerRunning == old(workerRunning)
    {
      DeleteVersionedObjects(u, ids);
      if maxObjects > 0 {
        log := log + [RemoveObjectRow(u)];
        log := log + [RemoveObjectData(u)];
        maxObjects := maxObjects - 1;
      }
    }

    /** delete_objects: the bucket's objects in order, while budget remains. */
    method DeleteObjects(objs: seq<UuidPath.Uuid>, versionsOf: UuidPath.Uuid -> seq<nat>)
      modifies this
      ensures log == old(log) + ObjectsRun(objs, versionsOf, true, old(maxObjects)).log
      ensures maxObjects == ObjectsRun(objs, versionsOf, true, old(maxObjects)).left
      ensures downFlag == old(downFlag) && suspendFlag == old(suspendFlag) && workerRunning == old(workerRunning)
    {
      var i := 0;
      while i < |objs| && maxObjects > 0
        invariant 0 <= i <= |objs|
        invariant old(log) + ObjectsRun(objs, versionsOf, true, old(maxObjects)).log
                  == log + ObjectsRun(objs[i..], versionsOf, true, maxObjects).log
        invariant ObjectsRun(objs, versionsOf, true, old(maxObjects)).left
                  == ObjectsRun(objs[i..], versionsOf, true, maxObjects).left
        invariant downFlag == old(downFlag) && suspendFlag == old(suspendFlag) && workerRunning == old(workerRunning)
      {
        ghost var a := ObjectRun(objs[i], versionsOf(objs[i]), true, maxObjects);
        ghost var rest := ObjectsRun(objs[i + 1..], versionsOf, true, a.left);
        ObjectsRunUnroll(objs, i, versionsOf, true, maxObjects);
        ghost var pre := log;
        DeleteObject(objs[i], versionsOf(objs[i]));
        AppendAssoc(pre, a.log, rest.log);
        i := i + 1;
      }
    }

    /** The existing part files of one upload are removed. */
    method DeletePartFiles(nums: seq<int>, partFile: int -> FsPath.Path, fileExists: FsPath.Path -> bool)
      modifies this
      ensures log == old(log) + PartsLog(nums, partFile, fileExists)
      ensures maxObjects == old(maxObjects)
      ensures downFlag == old(downFlag) && suspendFlag == old(suspendFlag) && workerRunning == old(workerRunning)
    {
      var i := 0;
      while i < |nums|
        invariant 0 <= i <= |nums| && maxObjects == old(maxObjects)
        invariant log == old(log) + PartsLog(nums[..i], partFile, fileExists)
        invariant downFlag == old(downFlag) && suspendFlag == old(suspendFlag) && workerRunning == old(workerRunning)
      {
        PartsLogSnoc(nums, i, partFile, fileExists);
        var p := partFile(nums[i]);
        if fileExists(p) {
          log := log + [RemovePartFile(p)];
        }
        i := i + 1;
      }
      assert nums[..|nums|] == nums;
    }

    /**
     * delete_multiparts: abort the bucket's uploads; when any are listed,
     * remove each one's part files and part rows, then the upload rows.
     * The budget is untouched.
     */
    method DeleteMultiparts(bucketId: string, ups: seq<Upload>, partsOf: string -> seq<int>, fileExists: FsPath.Path -> bool)
      modifies this
      ensures log == old(log) + MultipartLog(dataPath, bucketId, ups, partsOf, fileExists)
      ensures maxObjects == old(maxObjects)
      ensures downFlag == old(downFlag) && suspendFlag == old(suspendFlag) && workerRunning == old(workerRunning)
    {
      log := log + [AbortMultiparts(bucketId)];
      if |ups| == 0 {
        return;
      }
      ghost var start := log;
      var i := 0;
      while i < |ups|
        invariant 0 <= i <= |ups| && maxObjects == old(maxObjects)
        invariant log == start + UploadsLog(dataPath, ups[..i], partsOf, fileExists)
        invariant downFlag == old(downFlag) && suspendFlag == old(suspendFlag) && workerRunning == old(workerRunning)
      {
        ghost var done := UploadsLog(dataPath, ups[..i], partsOf, fileExists);
        var partFile := UploadPartFile(dataPath, ups[i].objectUuid);
        ghost var parts := PartsLog(partsOf(ups[i].uploadId), partFile, fileExists);
        UploadsLogSnoc(dataPath, ups, i, partsOf, fileExists);
        DeletePartFiles(partsOf(ups[i].uploadId), partFile, fileExists);
        AppendAssoc(start, done, parts);
        log := log + [RemoveParts(ups[i].uploadId)];
        AppendAssoc(start, done + parts, [RemoveParts(ups[i].uploadId)]);
        i := i + 1;
      }
      assert ups[..|ups|] == ups;
      ghost var all := UploadsLog(dataPath, ups, partsOf, fileExists);
      log := log + [RemoveMultiparts(bucketId)];
      AppendAssoc(start, all, [RemoveMultiparts(bucketId)]);
      AppendAssoc(old(log), [AbortMultiparts(bucketId)], all + [RemoveMultiparts(bucketId)]);
    }

    /**
     * delete_bucket: the multipart uploads, then the objects, then, if
     * budget remains, the bucket row for one unit.
     */
    method DeleteBucket(bucketId: string, q: Queries)
      modifies this
      ensures var src := SourceOf(dataPath, q);
              var r := BucketRun(bucketId, src.mpLogOf(bucketId), src.objectsOf(bucketId), src.versionsOf, src.withData, old(maxObjects));
              log == old(log) + r.log && maxObjects == r.left
      ensures downFlag == old(downFlag) && suspendFlag == old(suspendFlag) && workerRunning == old(workerRunning)
    {
      ghost var log0, budget0 := log, maxObjects;
      ghost var mp := MultipartLog(dataPath, bucketId, q.uploadsOf(bucketId), q.partsOf, q.fileExists);
      SourceMultipart(dataPath, q, bucketId);
      DeleteMultiparts(bucketId, q.uploadsOf(bucketId), q.partsOf, q.fileExists);
      DeleteObjects(q.objectsOf(bucketId), q.versionsOf);
      ghost var o := ObjectsRun(q.objectsOf(bucketId), q.versionsOf, true, budget0);
      AppendAssoc(log0, mp, o.log);
      if maxObjects > 0 {
        log := log + [RemoveBucketRow(bucketId)];
        maxObjects := maxObjects - 1;
        AppendAssoc(log0, mp + o.log, [RemoveBucketRow(bucketId)]);
      }
    }

    /**
     * One iteration of process_deleted_buckets: bucket i is deleted, and
     * what is left of the whole run then starts at bucket i + 1.
     */
    method DeleteBucketAt(bucketIds: seq<string>, i: nat, q: Queries, ghost total: Run)
      requires i < |bucketIds| && maxObjects > 0
      requires total.log == log + BucketsRun(bucketIds[i..], SourceOf(dataPath, q), maxObjects).log
      requires total.left == BucketsRun(bucketIds[i..], SourceOf(dataPath, q), maxObjects).left
      modifies this
      ensures total.log == log + BucketsRun(bucketIds[i + 1..], SourceOf(dataPath, q), maxObjects).log
      ensures total.left == BucketsRun(bucketIds[i + 1..], SourceOf(dataPath, q), maxObjects).left
      ensures downFlag == old(downFlag) && suspendFlag == old(suspendFlag) && workerRunning == old(workerRunning)
    {
      ghost var done, budget := log, maxObjects;
      DeleteBucket(bucketIds[i], q);
      DriverStep(dataPath, q, bucketIds, i, total, done, budget, log, maxObjects);
    }

    /** process_deleted_buckets: the deleted buckets in order, while budget remains. */
    method ProcessDeletedBuckets(bucketIds: seq<string>, q: Queries)
      modifies this
      ensures log == old(log) + BucketsRun(bucketIds, SourceOf(dataPath, q), old(maxObjects)).log
      ensures maxObjects == BucketsRun(bucketIds, SourceOf(dataPath, q), old(maxObjects)).left
      ensures downFlag == old(downFlag) && suspendFlag == old(suspendFlag) && workerRunning == old(workerRunning)
    {
      ghost var whole := BucketsRun(bucketIds, SourceOf(dataPath, q), maxObjects);
      ghost var total := Run(log + whole.log, whole.left);
      DriverStart(dataPath, q, bucketIds, log, maxObjects);
      var i := 0;
      while i < |bucketIds| && maxObjects > 0
        invariant 0 <= i <= |bucketIds|
        invariant total.log == log + BucketsRun(bucketIds[i..], SourceOf(dataPath, q), maxObjects).log
        invariant total.left == BucketsRun(bucketIds[i..], SourceOf(dataPath, q), maxObjects).left
        invariant downFlag == old(downFlag) && suspendFlag == old(suspendFlag) && workerRunning == old(workerRunning)
      {
        DeleteBucketAt(bucketIds, i, q, total);
        i := i + 1;
      }
      DriverDone(dataPath, q, bucketIds, i, total, log, maxObjects);
    }

    /** process: the budget is reset to rgw_gc_max_objs, then the deleted buckets are processed. */
    method Process(gcMaxObjs: int, bucketIds: seq<string>, q: Queries) returns (r: int)
      modifies this
      ensures r == 0
      ensures log == old(log) + BucketsRun(bucketIds, SourceOf(dataPath, q), gcMaxObjs).log
      ensures maxObjects == BucketsRun(bucketIds, SourceOf(dataPath, q), gcMaxObjs).left
      ensures downFlag == old(downFlag) && suspendFlag == old(suspendFlag) && workerRunning == old(workerRunning)
    {
      maxObjects := gcMaxObjs;
      ProcessDeletedBuckets(bucketIds, q);
      r := 0;
    }

    /**
     * One round of the worker: a run unless suspended; the answer is
     * whether the worker waits for another round (the collector is not
     * going down).
     */
    method WorkerRound(gcMaxObjs: int, bucketIds: seq<string>, q: Queries) returns (again: bool)
      modifies this
      ensures old(suspendFlag) ==> log == old(log) && maxObjects == old(maxObjects)
      ensures !old(suspendFlag) ==>
                && log == old(log) + BucketsRun(bucketIds, SourceOf(dataPath, q), gcMaxObjs).log
                && maxObjects == BucketsRun(bucketIds, SourceOf(dataPath, q), gcMaxObjs).left
      ensures again <==> !downFlag
      ensures downFlag == old(downFlag) && suspendFlag == old(suspendFlag) && workerRunning == old(workerRunning)
    {
      if !Suspended() {
        var _ := Process(gcMaxObjs, bucketIds, q);
      }
      again := !GoingDown();
    }
  }
}
