/**
 * The garbage collector's budgeted removal cascade, shared by the SFS
 * driver's collector (driver/sfs/sfs_gc.cc) and the older store's
 * (store/sfs/sfs_gc.cc): deleted buckets one by one, within a bucket its
 * objects, within an object its versions; every version row, object row
 * and bucket row removed costs one unit of the run's budget, and every
 * loop stops once the budget is spent.
 *
 * The functions here say what one run removes, in order, and what budget
 * it leaves; the collectors' methods are proved to do exactly that.
 */
module GcCascade {
  import UuidPath

  /** One removal the collector performs. */
  datatype GcOp =
    | RemoveVersionRow(uuid: UuidPath.Uuid, id: nat)
    | RemoveVersionData(uuid: UuidPath.Uuid, id: nat)
    | RemoveObjectRow(uuid: UuidPath.Uuid)
    | RemoveObjectData(uuid: UuidPath.Uuid)
    | RemoveBucketRow(bucketId: string)
    | AbortMultiparts(bucketId: string)
    | RemovePartFile(path: string)
    | RemoveParts(uploadId: string)
    | RemoveMultiparts(bucketId: string)

  /** The removals the budget pays for: version, object and bucket rows. */
  predicate Costed(op: GcOp)
  {
    op.RemoveVersionRow? || op.RemoveObjectRow? || op.RemoveBucketRow?
  }

  /** The number of paid removals in a log. */
  function Cost(log: seq<GcOp>): nat
  {
    if |log| == 0 then 0 else (if Costed(log[0]) then 1 else 0) + Cost(log[1..])
  }

  lemma {:induction false} CostAppend(a: seq<GcOp>, b: seq<GcOp>)
    ensures Cost(a + b) == Cost(a) + Cost(b)
  {
    if |a| > 0 {
      assert (a + b)[0] == a[0];
      assert (a + b)[1..] == a[1..] + b;
      CostAppend(a[1..], b);
    } else {
      assert a + b == b;
    }
  }

  /** A log of unpaid removals only costs nothing. */
  lemma {:induction false} CostFree(log: seq<GcOp>)
    requires forall i :: 0 <= i < |log| ==> !Costed(log[i])
    ensures Cost(log) == 0
  {
    if |log| > 0 {
      CostFree(log[1..]);
    }
  }

  /** The outcome of a run: what it removed and the budget it leaves. */
  datatype Run = Run(log: seq<GcOp>, left: int)

  /** delete_versioned_object: the version row, and with withData the version's file. */
  function VersionStep(u: UuidPath.Uuid, id: nat, withData: bool): seq<GcOp>
  {
    [RemoveVersionRow(u, id)] + (if withData then [RemoveVersionData(u, id)] else [])
  }

  /** The removal of the object row, and with withData the object's directory. */
  function ObjectStep(u: UuidPath.Uuid, withData: bool): seq<GcOp>
  {
    [RemoveObjectRow(u)] + (if withData then [RemoveObjectData(u)] else [])
  }

  /** Each step pays for exactly one row. */
  lemma StepCosts(u: UuidPath.Uuid, id: nat, withData: bool)
    ensures Cost(VersionStep(u, id, withData)) == 1
    ensures Cost(ObjectStep(u, withData)) == 1
  {
    var v, o := VersionStep(u, id, withData), ObjectStep(u, withData);
    assert Cost(v) == 1 + Cost(v[1..]);
    assert Cost(o) == 1 + Cost(o[1..]);
    if withData {
      assert Cost(v[1..]) == Cost(v[2..]) && v[2..] == [];
      assert Cost(o[1..]) == Cost(o[2..]) && o[2..] == [];
    }
  }

  /** The removal of the listed versions, in order. */
  function Versions(u: UuidPath.Uuid, ids: seq<nat>, withData: bool): seq<GcOp>
  {
    if |ids| == 0 then []
    else Versions(u, ids[..|ids| - 1], withData) + VersionStep(u, ids[|ids| - 1], withData)
  }

  predicate OnlyVersionOps(log: seq<GcOp>)
  {
    forall i :: 0 <= i < |log| ==> log[i].RemoveVersionRow? || log[i].RemoveVersionData?
  }

  /** Removing versions pays exactly one unit per version and touches nothing but versions. */
  lemma {:induction false} VersionsCost(u: UuidPath.Uuid, ids: seq<nat>, withData: bool)
    ensures Cost(Versions(u, ids, withData)) == |ids|
    ensures OnlyVersionOps(Versions(u, ids, withData))
  {
    if |ids| > 0 {
      var init := Versions(u, ids[..|ids| - 1], withData);
      var step := VersionStep(u, ids[|ids| - 1], withData);
      VersionsCost(u, ids[..|ids| - 1], withData);
      CostAppend(init, step);
      StepCosts(u, ids[|ids| - 1], withData);
      forall i | 0 <= i < |init + step|
        ensures (init + step)[i].RemoveVersionRow? || (init + step)[i].RemoveVersionData?
      {
        if i < |init| {
          assert (init + step)[i] == init[i];
        } else {
          assert (init + step)[i] == step[i - |init|];
        }
      }
    }
  }

  /** The number of versions a budget pays for. */
  function Affordable(n: nat, budget: int): (k: nat)
    ensures k <= n
    ensures budget <= 0 ==> k == 0
    ensures budget > 0 ==> k <= budget && (k == n || k == budget)
  {
    if budget <= 0 then 0 else if n <= budget then n else budget
  }

  /**
   * delete_object: its versions while the budget lasts, then its own row
   * (and data) if budget remains.
   */
  function ObjectRun(u: UuidPath.Uuid, ids: seq<nat>, withData: bool, budget: int): Run
  {
    var k := Affordable(|ids|, budget);
    if budget - k > 0 then Run(Versions(u, ids[..k], withData) + ObjectStep(u, withData), budget - k - 1)
    else Run(Versions(u, ids[..k], withData), budget - k)
  }

  /**
   * The budget pays for the rows an object's removal takes and never goes
   * below zero from a non-negative start.
   */
  lemma ObjectRunCost(u: UuidPath.Uuid, ids: seq<nat>, withData: bool, budget: int)
    ensures var r := ObjectRun(u, ids, withData, budget);
            Cost(r.log) == budget - r.left && r.left <= budget && (budget >= 0 ==> r.left >= 0)
  {
    var k := Affordable(|ids|, budget);
    VersionsCost(u, ids[..k], withData);
    if budget - k > 0 {
      CostAppend(Versions(u, ids[..k], withData), ObjectStep(u, withData));
      StepCosts(u, 0, withData);
    }
  }

  /**
   * An object's row goes exactly when the budget exceeds its number of
   * versions, and then after all of them.
   */
  lemma ObjectRunShape(u: UuidPath.Uuid, ids: seq<nat>, withData: bool, budget: int)
    ensures RemoveObjectRow(u) in ObjectRun(u, ids, withData, budget).log <==> budget > |ids|
    ensures budget > |ids| ==> ObjectRun(u, ids, withData, budget).log == FullObject(u, ids, withData)
    ensures budget <= |ids| ==> ObjectRun(u, ids, withData, budget).left <= 0
  {
    var k := Affordable(|ids|, budget);
    var vs := Versions(u, ids[..k], withData);
    VersionsCost(u, ids[..k], withData);
    if budget - k > 0 {
      assert ids[..k] == ids;
      assert (vs + ObjectStep(u, withData))[|vs|] == RemoveObjectRow(u);
    } else {
      forall i | 0 <= i < |vs|
        ensures vs[i] != RemoveObjectRow(u)
      {
        assert vs[i].RemoveVersionRow? || vs[i].RemoveVersionData?;
      }
    }
  }

  /** The full removal of one object, versions first: what an unlimited budget does. */
  function FullObject(u: UuidPath.Uuid, ids: seq<nat>, withData: bool): seq<GcOp>
  {
    Versions(u, ids, withData) + ObjectStep(u, withData)
  }

  /** delete_objects: the bucket's objects in order, each only while budget remains. */
  function ObjectsRun(objs: seq<UuidPath.Uuid>, versionsOf: UuidPath.Uuid -> seq<nat>, withData: bool, budget: int): Run
  {
    if |objs| == 0 || budget <= 0 then Run([], budget)
    else
      var a := ObjectRun(objs[0], versionsOf(objs[0]), withData, budget);
      var b := ObjectsRun(objs[1..], versionsOf, withData, a.left);
      Run(a.log + b.log, b.left)
  }

  /** A run from the i-th object on: that object's run, then the rest on what it left. */
  lemma ObjectsRunUnroll(objs: seq<UuidPath.Uuid>, i: nat, versionsOf: UuidPath.Uuid -> seq<nat>, withData: bool, budget: int)
    requires i < |objs| && budget > 0
    ensures var a := ObjectRun(objs[i], versionsOf(objs[i]), withData, budget);
            var b := ObjectsRun(objs[i + 1..], versionsOf, withData, a.left);
            ObjectsRun(objs[i..], versionsOf, withData, budget) == Run(a.log + b.log, b.left)
  {
    assert objs[i..][0] == objs[i] && objs[i..][1..] == objs[i + 1..];
  }

  /** The full removal of the listed objects. */
  function FullObjects(objs: seq<UuidPath.Uuid>, versionsOf: UuidPath.Uuid -> seq<nat>, withData: bool): seq<GcOp>
  {
    if |objs| == 0 then []
    else FullObject(objs[0], versionsOf(objs[0]), withData) + FullObjects(objs[1..], versionsOf, withData)
  }

  /** The budget pays for exactly the rows removed and stays non-negative. */
  lemma {:induction false} ObjectsRunCost(objs: seq<UuidPath.Uuid>, versionsOf: UuidPath.Uuid -> seq<nat>, withData: bool, budget: int)
    ensures var r := ObjectsRun(objs, versionsOf, withData, budget);
            Cost(r.log) == budget - r.left && r.left <= budget && (budget >= 0 ==> r.left >= 0)
  {
    if |objs| > 0 && budget > 0 {
      var a := ObjectRun(objs[0], versionsOf(objs[0]), withData, budget);
      ObjectRunCost(objs[0], versionsOf(objs[0]), withData, budget);
      ObjectsRunCost(objs[1..], versionsOf, withData, a.left);
      CostAppend(a.log, ObjectsRun(objs[1..], versionsOf, withData, a.left).log);
    }
  }

  /**
   * A run over a bucket's objects that leaves budget has removed every
   * object completely, each after its versions.
   */
  lemma {:induction false} ObjectsRunComplete(objs: seq<UuidPath.Uuid>, versionsOf: UuidPath.Uuid -> seq<nat>, withData: bool, budget: int)
    requires ObjectsRun(objs, versionsOf, withData, budget).left > 0
    ensures ObjectsRun(objs, versionsOf, withData, budget).log == FullObjects(objs, versionsOf, withData)
  {
    if |objs| > 0 {
      var a := ObjectRun(objs[0], versionsOf(objs[0]), withData, budget);
      ObjectsRunCost(objs[1..], versionsOf, withData, a.left);
      ObjectRunCost(objs[0], versionsOf(objs[0]), withData, budget);
      ObjectRunShape(objs[0], versionsOf(objs[0]), withData, budget);
      ObjectsRunComplete(objs[1..], versionsOf, withData, a.left);
    }
  }

  /**
   * delete_bucket: the multipart removals (mpLog, unpaid), the objects,
   * then the bucket row if budget remains.
   */
  function BucketRun(bucketId: string, mpLog: seq<GcOp>, objs: seq<UuidPath.Uuid>,
                     versionsOf: UuidPath.Uuid -> seq<nat>, withData: bool, budget: int): Run
  {
    var o := ObjectsRun(objs, versionsOf, withData, budget);
    if o.left > 0 then Run(mpLog + o.log + [RemoveBucketRow(bucketId)], o.left - 1)
    else Run(mpLog + o.log, o.left)
  }

  /**
   * A bucket row is removed only after every one of its objects (each
   * after its versions), and only when budget remains for it.
   */
  lemma BucketRunShape(bucketId: string, mpLog: seq<GcOp>, objs: seq<UuidPath.Uuid>,
                       versionsOf: UuidPath.Uuid -> seq<nat>, withData: bool, budget: int)
    ensures var o := ObjectsRun(objs, versionsOf, withData, budget);
            o.left > 0 ==>
              BucketRun(bucketId, mpLog, objs, versionsOf, withData, budget).log
                == mpLog + FullObjects(objs, versionsOf, withData) + [RemoveBucketRow(bucketId)]
    ensures var o := ObjectsRun(objs, versionsOf, withData, budget);
            o.left <= 0 ==> BucketRun(bucketId, mpLog, objs, versionsOf, withData, budget).log == mpLog + o.log
  {
    if ObjectsRun(objs, versionsOf, withData, budget).left > 0 {
      ObjectsRunComplete(objs, versionsOf, withData, budget);
    }
  }

  /** Where the collector finds a bucket's objects, an object's versions and a bucket's multipart removals. */
  datatype Source = Source(
    objectsOf: string -> seq<UuidPath.Uuid>,
    versionsOf: UuidPath.Uuid -> seq<nat>,
    mpLogOf: string -> seq<GcOp>,
    withData: bool)

  /** The multipart removals cost nothing. */
  ghost predicate Unpaid(src: Source)
  {
    forall b :: Cost(src.mpLogOf(b)) == 0
  }

  /** process_deleted_buckets: the deleted buckets in order, each only while budget remains. */
  function BucketsRun(bucketIds: seq<string>, src: Source, budget: int): Run
  {
    if |bucketIds| == 0 || budget <= 0 then Run([], budget)
    else
      var b := bucketIds[0];
      var a := BucketRun(b, src.mpLogOf(b), src.objectsOf(b), src.versionsOf, src.withData, budget);
      var rest := BucketsRun(bucketIds[1..], src, a.left);
      Run(a.log + rest.log, rest.left)
  }

  /** The bucket loop stops when the buckets or the budget run out: nothing is left of the run. */
  lemma BucketsRunDone(bucketIds: seq<string>, i: nat, src: Source, budget: int)
    requires i <= |bucketIds| && (i == |bucketIds| || budget <= 0)
    ensures BucketsRun(bucketIds[i..], src, budget) == Run([], budget)
  {
  }

  /**
   * One step of the bucket loop, stated on the removals made so far: after
   * bucket i's run is appended, the rest of the run starts at bucket i + 1.
   */
  lemma BucketsRunStep(bucketIds: seq<string>, i: nat, src: Source, budget: int, done: seq<GcOp>)
    requires i < |bucketIds| && budget > 0
    ensures var b := bucketIds[i];
            var a := BucketRun(b, src.mpLogOf(b), src.objectsOf(b), src.versionsOf, src.withData, budget);
            && done + BucketsRun(bucketIds[i..], src, budget).log == (done + a.log) + BucketsRun(bucketIds[i + 1..], src, a.left).log
            && BucketsRun(bucketIds[i..], src, budget).left == BucketsRun(bucketIds[i + 1..], src, a.left).left
  {
    BucketsRunUnroll(bucketIds, i, src, budget);
    var b := bucketIds[i];
    var a := BucketRun(b, src.mpLogOf(b), src.objectsOf(b), src.versionsOf, src.withData, budget);
    assert done + (a.log + BucketsRun(bucketIds[i + 1..], src, a.left).log)
        == (done + a.log) + BucketsRun(bucketIds[i + 1..], src, a.left).log;
  }

  /** One step of the bucket loop: the run from i on is bucket i's run followed by the rest. */
  lemma BucketsRunUnroll(bucketIds: seq<string>, i: nat, src: Source, budget: int)
    requires i < |bucketIds| && budget > 0
    ensures var b := bucketIds[i];
            var a := BucketRun(b, src.mpLogOf(b), src.objectsOf(b), src.versionsOf, src.withData, budget);
            var rest := BucketsRun(bucketIds[i + 1..], src, a.left);
            BucketsRun(bucketIds[i..], src, budget) == Run(a.log + rest.log, rest.left)
  {
    assert bucketIds[i..][0] == bucketIds[i] && bucketIds[i..][1..] == bucketIds[i + 1..];
  }

  /**
   * A run removes exactly as many rows as it spends, never more than its
   * budget, and a non-negative budget stays non-negative.
   */
  lemma {:induction false} BucketsRunCost(bucketIds: seq<string>, src: Source, budget: int)
    requires Unpaid(src)
    ensures var r := BucketsRun(bucketIds, src, budget);
            Cost(r.log) == budget - r.left && r.left <= budget && (budget >= 0 ==> r.left >= 0)
  {
    if |bucketIds| > 0 && budget > 0 {
      var b := bucketIds[0];
      var o := ObjectsRun(src.objectsOf(b), src.versionsOf, src.withData, budget);
      ObjectsRunCost(src.objectsOf(b), src.versionsOf, src.withData, budget);
      var a := BucketRun(b, src.mpLogOf(b), src.objectsOf(b), src.versionsOf, src.withData, budget);
      assert Cost(src.mpLogOf(b)) == 0;
      CostAppend(src.mpLogOf(b), o.log);
      if o.left > 0 {
        CostAppend(src.mpLogOf(b) + o.log, [RemoveBucketRow(b)]);
      }
      BucketsRunCost(bucketIds[1..], src, a.left);
      CostAppend(a.log, BucketsRun(bucketIds[1..], src, a.left).log);
    }
  }

  /** A run with budget 1 removes at most one row. */
  lemma OneRowPerRun(bucketIds: seq<string>, src: Source)
    requires Unpaid(src)
    ensures Cost(BucketsRun(bucketIds, src, 1).log) <= 1
  {
    BucketsRunCost(bucketIds, src, 1);
  }
}
