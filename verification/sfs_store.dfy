/**
 * The bucket map of the SFS store (rgw_sal_sfs.h, SFStore): the buckets by
 * name, as created by bucket_create and rebuilt from the stored bucket
 * records by _refresh_buckets.
 *
 * The stored records themselves (the bucket table) are kept as a map from
 * bucket id to record; which records the table returns when the map is
 * rebuilt is a parameter, since its query is not part of this model.
 */
module SfsStore {
  import opened Wrappers
  import opened SfsTypes
  import Collections
  import StringOrder
  import Decimal
  import MC = MultipartConversions

  /** DBOPBucketInfo: the bucket's stored record. */
  datatype BucketRecord = BucketRecord(
    name: string, bucketId: string, marker: string, ownerId: string, creationTime: int,
    zonegroup: string, placement: MC.Placement, versioningEnabled: bool, attrs: Attrs, deleted: bool)

  /** The clock value of creation: seconds and nanoseconds, as in a timespec. */
  datatype Timespec = Timespec(sec: int, nsec: nat)

  /** A new bucket's id and marker: the name, a dot, then the seconds and nanoseconds in decimal. */
  function BucketId(name: string, ts: Timespec): (id: string)
    ensures |id| > |name| + 1 && id[..|name| + 1] == name + "."
    ensures ts.sec >= 0 ==> Decimal.AllDigits(id[|name| + 1..])
  {
    var id := name + "." + Decimal.IntToString(ts.sec) + Decimal.NatToString(ts.nsec);
    Decimal.NatToStringDigits(ts.nsec);
    Decimal.NatToStringDigits(if ts.sec >= 0 then ts.sec else 0);
    assert id[|name| + 1..] == Decimal.IntToString(ts.sec) + Decimal.NatToString(ts.nsec);
    id
  }

  /**
   * Two creations of one name get one id only at one clock value, as long
   * as their seconds have equally many digits.
   */
  lemma BucketIdTimeInjective(name: string, a: Timespec, b: Timespec)
    requires |Decimal.IntToString(a.sec)| == |Decimal.IntToString(b.sec)|
    requires BucketId(name, a) == BucketId(name, b)
    ensures a == b
  {
    var k := |name| + 1;
    var sa, sb := Decimal.IntToString(a.sec), Decimal.IntToString(b.sec);
    var ida, idb := BucketId(name, a), BucketId(name, b);
    assert ida[k..k + |sa|] == sa;
    assert idb[k..k + |sb|] == sb;
    Decimal.IntToStringInjective(a.sec, b.sec);
    assert ida[k + |sa|..] == Decimal.NatToString(a.nsec);
    assert idb[k + |sb|..] == Decimal.NatToString(b.nsec);
    Decimal.NatToStringInjective(a.nsec, b.nsec);
  }

  /** existing is what get_buckets answers: every record of the table, each once or more, in some order. */
  predicate ListsRecords(existing: seq<BucketRecord>, records: map<string, BucketRecord>)
  {
    && (forall i :: 0 <= i < |existing| ==> existing[i].bucketId in records && records[existing[i].bucketId] == existing[i])
    && (forall id :: id in records ==> records[id] in existing)
  }

  /** The last of the records that has the name: the one the rebuilt map keeps for it. */
  function LastNamed(existing: seq<BucketRecord>, name: string): (r: Option<BucketRecord>)
    ensures r.Some? ==> r.value in existing && r.value.name == name
    ensures r.None? ==> forall i :: 0 <= i < |existing| ==> existing[i].name != name
  {
    if |existing| == 0 then None
    else if existing[|existing| - 1].name == name then Some(existing[|existing| - 1])
    else LastNamed(existing[..|existing| - 1], name)
  }

  /** One more record decides its own name and leaves the others as they were. */
  lemma LastNamedSnoc(existing: seq<BucketRecord>, i: nat)
    requires i < |existing|
    ensures forall n :: LastNamed(existing[..i + 1], n)
                        == if n == existing[i].name then Some(existing[i]) else LastNamed(existing[..i], n)
  {
    var s := existing[..i + 1];
    assert s[..|s| - 1] == existing[..i] && s[|s| - 1] == existing[i];
    forall n
      ensures LastNamed(s, n) == if n == existing[i].name then Some(existing[i]) else LastNamed(existing[..i], n)
    {
    }
  }

  /** SFStore: the bucket map and the bucket table. */
  class SFStore {
    var buckets: map<string, Bucket>
    var records: map<string, BucketRecord>

    /** Each record is stored under its own bucket id. */
    predicate Keyed()
      reads this
    {
      forall k :: k in records ==> records[k].bucketId == k
    }

    constructor ()
      ensures buckets == map[] && records == map[]
    {
      buckets := map[];
      records := map[];
    }

    /** bucket_exists. */
    function BucketExists(name: string): (b: bool)
      reads this
      ensures b <==> name in buckets
    {
      name in buckets
    }

    /** get_bucket_ref: the bucket of the name, or null for an unknown name. */
    method GetBucketRef(name: string) returns (r: Bucket?)
      ensures r == null <==> name !in buckets
      ensures r != null ==> r == buckets[name]
    {
      if name !in buckets {
        return null;
      }
      return buckets[name];
    }

    /** store_bucket: the record replaces any with the same bucket id. */
    method StoreBucket(rec: BucketRecord)
      modifies this
      ensures records == old(records)[rec.bucketId := rec]
      ensures buckets == old(buckets)
      ensures old(Keyed()) ==> Keyed()
    {
      records := records[rec.bucketId := rec];
    }

    /**
     * bucket_create: an existing name gives null and changes nothing.
     * Otherwise a record with the id BucketId(name, now), used as marker
     * too, is stored, and a new bucket is entered under the name.
     */
    method BucketCreate(name: string, ownerId: string, zonegroup: string, placement: MC.Placement, attrs: Attrs, now: Timespec)
      returns (r: Bucket?)
      modifies this
      ensures old(name in buckets) ==> r == null && buckets == old(buckets) && records == old(records)
      ensures old(name !in buckets) ==>
                && r != null && fresh(r)
                && r.name == name && r.bucketId == BucketId(name, now) && !r.versioningEnabled
                && buckets == old(buckets)[name := r]
                && records == old(records)[BucketId(name, now) :=
                     BucketRecord(name, BucketId(name, now), BucketId(name, now), ownerId, now.sec,
                                  zonegroup, placement, false, map[], false)]
    {
      if name in buckets {
        return null;
      }
      var id := BucketId(name, now);
      StoreBucket(BucketRecord(name, id, id, ownerId, now.sec, zonegroup, placement, false, map[], false));
      r := new Bucket(name, id, false, map[]);
      buckets := buckets[name := r];
    }

    /**
     * _refresh_buckets: the map is cleared and rebuilt from the records
     * the table returns, one new bucket per name, the last record of a
     * name winning.
     */
    method RefreshBuckets(existing: seq<BucketRecord>)
      requires ListsRecords(existing, records)
      modifies this
      ensures records == old(records)
      ensures forall n :: n in buckets <==> LastNamed(existing, n).Some?
      ensures forall n :: n in buckets ==>
                && buckets[n].name == n && buckets[n].bucketId == LastNamed(existing, n).value.bucketId
                && buckets[n].versioningEnabled == LastNamed(existing, n).value.versioningEnabled
                && buckets[n].attrs == LastNamed(existing, n).value.attrs
    {
      buckets := map[];
      var i := 0;
      while i < |existing|
        invariant i <= |existing| && records == old(records)
        invariant forall n :: n in buckets <==> LastNamed(existing[..i], n).Some?
        invariant forall n :: n in buckets ==> Built(buckets[n], LastNamed(existing[..i], n).value)
      {
        AddBuilt(existing, i);
        i := i + 1;
      }
      assert existing[..|existing|] == existing;
    }

    /** One step of _refresh_buckets: a new bucket for the i-th record. */
    method AddBuilt(existing: seq<BucketRecord>, i: nat)
      requires i < |existing|
      requires forall n :: n in buckets <==> LastNamed(existing[..i], n).Some?
      requires forall n :: n in buckets ==> Built(buckets[n], LastNamed(existing[..i], n).value)
      modifies this
      ensures records == old(records)
      ensures forall n :: n in buckets <==> LastNamed(existing[..i + 1], n).Some?
      ensures forall n :: n in buckets ==> Built(buckets[n], LastNamed(existing[..i + 1], n).value)
    {
      var rec := existing[i];
      LastNamedSnoc(existing, i);
      ghost var before := buckets;
      var b := new Bucket(rec.name, rec.bucketId, rec.versioningEnabled, rec.attrs);
      assert forall n :: n in before ==> Built(before[n], LastNamed(existing[..i], n).value);
      buckets := buckets[rec.name := b];
    }

    /**
     * bucket_list: the map is rebuilt, then every bucket in it, in the
     * map's name order.
     */
    method BucketList(existing: seq<BucketRecord>) returns (r: seq<Bucket>)
      requires ListsRecords(existing, records)
      modifies this
      ensures records == old(records)
      ensures forall n :: n in buckets <==> LastNamed(existing, n).Some?
      ensures |r| == |buckets|
      ensures forall i :: 0 <= i < |r| ==> r[i] == buckets[StringOrder.SortedKeys(buckets.Keys)[i]]
    {
      RefreshBuckets(existing);
      r := ValuesInOrder(buckets);
    }

    /** _delete_bucket: the name leaves the map. */
    method DeleteBucket(name: string)
      modifies this
      ensures buckets == old(buckets) - {name} && records == old(records)
    {
      buckets := buckets - {name};
    }
  }

  /** The bucket was built from the record. */
  predicate Built(b: Bucket, rec: BucketRecord)
    reads b
  {
    b.name == rec.name && b.bucketId == rec.bucketId
    && b.versioningEnabled == rec.versioningEnabled && b.attrs == rec.attrs
  }

  /** Visiting the least remaining name keeps the visit in map order. */
  lemma VisitLeast(keys: set<string>, visited: seq<string>, todo: set<string>)
    requires todo != {}
    requires StringOrder.SortedKeys(keys) == visited + StringOrder.SortedKeys(todo)
    ensures var n := StringOrder.Least(todo);
            StringOrder.SortedKeys(keys) == (visited + [n]) + StringOrder.SortedKeys(todo - {n})
  {
    var n := StringOrder.Least(todo);
    assert StringOrder.SortedKeys(todo) == [n] + StringOrder.SortedKeys(todo - {n});
  }

  /** The values of a map, in the order iterating a std::map visits its keys. */
  method ValuesInOrder<V>(m: map<string, V>) returns (r: seq<V>)
    ensures |r| == |m|
    ensures forall i :: 0 <= i < |r| ==> r[i] == m[StringOrder.SortedKeys(m.Keys)[i]]
  {
    r := [];
    var todo := m.Keys;
    ghost var visited: seq<string> := [];
    while todo != {}
      invariant todo <= m.Keys
      invariant StringOrder.SortedKeys(m.Keys) == visited + StringOrder.SortedKeys(todo)
      invariant |r| == |visited| && forall i :: 0 <= i < |r| ==> visited[i] in m && r[i] == m[visited[i]]
      decreases |todo|
    {
      var n := StringOrder.Least(todo);
      VisitLeast(m.Keys, visited, todo);
      r := r + [m[n]];
      visited := visited + [n];
      todo := todo - {n};
    }
    assert |m.Keys| == |m|;
  }
}
