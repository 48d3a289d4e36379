/**
 * The older store's garbage collector (store/sfs/sfs_gc.cc, SFSGC): the
 * same budgeted cascade over deleted buckets, objects and versions, without
 * multipart clean-up and without removing files; a worker that is started
 * and stopped explicitly.
 *
 * The database's listings are parameters; the removals are kept as a log.
 */
module StoreSfsGc {
  import UuidPath
  import opened GcCascade

  /** What the database answers the collector. */
  datatype Queries = Queries(objectsOf: string -> seq<UuidPath.Uuid>, versionsOf: UuidPath.Uuid -> seq<nat>)

  /**
   * The cascade this collector runs: the object, version and bucket
   * removals it asks for, with no data-file step of its own and no
   * multipart uploads.
   */
  function SourceOf(q: Queries): (src: Source)
    ensures !src.withData && src.objectsOf == q.objectsOf && src.versionsOf == q.versionsOf
    ensures forall b :: src.mpLogOf(b) == []
  {
    Source(q.objectsOf, q.versionsOf, b => [], false)
  }

  /**
   * A run removes exactly as many rows as its budget drops by, never more
   * than the budget; with rgw_gc_max_objs at 1, at most one row per run.
   */
  lemma StoreRunCost(q: Queries, bucketIds: seq<string>, budget: int)
    ensures var r := BucketsRun(bucketIds, SourceOf(q), budget);
            && Cost(r.log) == budget - r.left
            && (budget >= 0 ==> 0 <= r.left <= budget)
            && (budget == 1 ==> Cost(r.log) <= 1)
  {
    BucketsRunCost(bucketIds, SourceOf(q), budget);
  }

  lemma AppendAssoc(a: seq<GcOp>, b: seq<GcOp>, c: seq<GcOp>)
    ensures (a + b) + c == a + (b + c)
  {
  }

  /** SFSGC: the run's budget, the worker and its flag, and the removals made so far. */
  class SFSGC {
    var maxObjects: int
    var downFlag: bool
    var workerRunning: bool
    var log: seq<GcOp>

    /** A default-constructed collector: not going down, no worker, nothing removed. */
    constructor ()
      ensures !downFlag && !workerRunning && log == []
    {
      maxObjects := 0;
      downFlag := false;
      workerRunning := false;
      log := [];
    }

    function GoingDown(): (b: bool)
      reads this
      ensures b == downFlag
    {
      downFlag
    }

    /** start_processor: a worker is created and started. */
    method StartProcessor()
      modifies this
      ensures workerRunning
      ensures downFlag == old(downFlag) && log == old(log) && maxObjects == old(maxObjects)
    {
      workerRunning := true;
    }

    /**
     * stop_processor (also run by the destructor): the collector goes
     * down, a running worker is stopped and joined, and none is left.
     */
    method StopProcessor()
      modifies this
      ensures downFlag && !workerRunning
      ensures log == old(log) && maxObjects == old(maxObjects)
    {
      downFlag := true;
      if workerRunning {
        workerRunning := false;
      }
    }

    /** delete_versioned_object: the version's row goes; one unit is spent. */
    method DeleteVersionedObject(u: UuidPath.Uuid, id: nat)
      modifies this
      ensures log == old(log) + VersionStep(u, id, false) && maxObjects == old(maxObjects) - 1
      ensures downFlag == old(downFlag) && workerRunning == old(workerRunning)
    {
      log := log + [RemoveVersionRow(u, id)];
      maxObjects := maxObjects - 1;
    }

    /** delete_versioned_objects: the object's versions in order, while budget remains. */
    method DeleteVersionedObjects(u: UuidPath.Uuid, ids: seq<nat>)
      modifies this
      ensures log == old(log) + Versions(u, ids[..Affordable(|ids|, old(maxObjects))], false)
      ensures maxObjects == old(maxObjects) - Affordable(|ids|, old(maxObjects))
      ensures downFlag == old(downFlag) && workerRunning == old(workerRunning)
    {
      ghost var b0 := maxObjects;
      var i := 0;
      while i < |ids| && maxObjects > 0
        invariant 0 <= i <= Affordable(|ids|, b0) && maxObjects == b0 - i
        invariant log == old(log) + Versions(u, ids[..i], false)
        invariant downFlag == old(downFlag) && workerRunning == old(workerRunning)
      {
        assert ids[..i + 1][..i] == ids[..i];
        DeleteVersionedObject(u, ids[i]);
        i := i + 1;
      }
    }

    /** delete_object: the versions first, then, if budget remains, the object's row. */
    method DeleteObject(u: UuidPath.Uuid, ids: seq<nat>)
      modifies this
      ensures log == old(log) + ObjectRun(u, ids, false, old(maxObjects)).log
      ensures maxObjects == ObjectRun(u, ids, false, old(maxObjects)).left
      ensures downFlag == old(downFlag) && workerRunning == old(workerRunning)
    {
      DeleteVersionedObjects(u, ids);
      if maxObjects > 0 {
        log := log + [RemoveObjectRow(u)];
        maxObjects := maxObjects - 1;
      }
    }

    /** delete_objects: the bucket's objects in order, while budget remains. */
    method DeleteObjects(objs: seq<UuidPath.Uuid>, versionsOf: UuidPath.Uuid -> seq<nat>)
      modifies this
      ensures log == old(log) + ObjectsRun(objs, versionsOf, false, old(maxObjects)).log
      ensures maxObjects == ObjectsRun(objs, versionsOf, false, old(maxObjects)).left
      ensures downFlag == old(downFlag) && workerRunning == old(workerRunning)
    {
      var i := 0;
      while i < |objs| && maxObjects > 0
        invariant 0 <= i <= |objs|
        invariant old(log) + ObjectsRun(objs, versionsOf, false, old(maxObjects)).log
                  == log + ObjectsRun(objs[i..], versionsOf, false, maxObjects).log
        invariant ObjectsRun(objs, versionsOf, false, old(maxObjects)).left
                  == ObjectsRun(objs[i..], versionsOf, false, maxObjects).left
        invariant downFlag == old(downFlag) && workerRunning == old(workerRunning)
      {
        ghost var a := ObjectRun(objs[i], versionsOf(objs[i]), false, maxObjects);
        ghost var rest := ObjectsRun(objs[i + 1..], versionsOf, false, a.left);
        ObjectsRunUnroll(objs, i, versionsOf, false, maxObjects);
        ghost var pre := log;
        DeleteObject(objs[i], versionsOf(objs[i]));
        AppendAssoc(pre, a.log, rest.log);
        i := i + 1;
      }
    }

    /** delete_bucket: the objects, then, if budget remains, the bucket row. */
    method DeleteBucket(bucketId: string, q: Queries)
      modifies this
      ensures var r := BucketRun(bucketId, [], q.objectsOf(bucketId), q.versionsOf, false, old(maxObjects));
              log == old(log) + r.log && maxObjects == r.left
      ensures downFlag == old(downFlag) && workerRunning == old(workerRunning)
    {
      ghost var log0, budget0 := log, maxObjects;
      DeleteObjects(q.objectsOf(bucketId), q.versionsOf);
      ghost var o := ObjectsRun(q.objectsOf(bucketId), q.versionsOf, false, budget0);
      assert [] + o.log == o.log;
      if maxObjects > 0 {
        log := log + [RemoveBucketRow(bucketId)];
        maxObjects := maxObjects - 1;
        AppendAssoc(log0, o.log, [RemoveBucketRow(bucketId)]);
      }
    }

    /** process_deleted_buckets: the deleted buckets in order, while budget remains. */
    method ProcessDeletedBuckets(bucketIds: seq<string>, q: Queries)
      modifies this
      ensures log == old(log) + BucketsRun(bucketIds, SourceOf(q), old(maxObjects)).log
      ensures maxObjects == BucketsRun(bucketIds, SourceOf(q), old(maxObjects)).left
      ensures downFlag == old(downFlag) && workerRunning == old(workerRunning)
    {
      var src := SourceOf(q);
      var i := 0;
      while i < |bucketIds| && maxObjects > 0
        invariant 0 <= i <= |bucketIds|
        invariant old(log) + BucketsRun(bucketIds, src, old(maxObjects)).log
                  == log + BucketsRun(bucketIds[i..], src, maxObjects).log
        invariant BucketsRun(bucketIds, src, old(maxObjects)).left == BucketsRun(bucketIds[i..], src, maxObjects).left
        invariant downFlag == old(downFlag) && workerRunning == old(workerRunning)
      {
        var b := bucketIds[i];
        ghost var a := BucketRun(b, src.mpLogOf(b), src.objectsOf(b), src.versionsOf, false, maxObjects);
        ghost var rest := BucketsRun(bucketIds[i + 1..], src, a.left);
        BucketsRunUnroll(bucketIds, i, src, maxObjects);
        assert src.mpLogOf(b) == [];
        ghost var pre := log;
        DeleteBucket(b, q);
        AppendAssoc(pre, a.log, rest.log);
        i := i + 1;
      }
    }

    /** process: the budget is reset to rgw_gc_max_objs, then the deleted buckets are processed. */
    method Process(gcMaxObjs: int, bucketIds: seq<string>, q: Queries) returns (r: int)
      modifies this
      ensures r == 0
      ensures log == old(log) + BucketsRun(bucketIds, SourceOf(q), gcMaxObjs).log
      ensures maxObjects == BucketsRun(bucketIds, SourceOf(q), gcMaxObjs).left
      ensures downFlag == old(downFlag) && workerRunning == old(workerRunning)
    {
      maxObjects := gcMaxObjs;
      ProcessDeletedBuckets(bucketIds, q);
      r := 0;
    }

    /**
     * One round of the worker: a run, then whether the worker waits for
     * another round (the collector is not going down).
     */
    method WorkerRound(gcMaxObjs: int, bucketIds: seq<string>, q: Queries) returns (again: bool)
      modifies this
      ensures log == old(log) + BucketsRun(bucketIds, SourceOf(q), gcMaxObjs).log
      ensures maxObjects == BucketsRun(bucketIds, SourceOf(q), gcMaxObjs).left
      ensures again <==> !downFlag
      ensures downFlag == old(downFlag) && workerRunning == old(workerRunning)
    {
      var _ := Process(gcMaxObjs, bucketIds, q);
      again := !GoingDown();
    }
  }
}
