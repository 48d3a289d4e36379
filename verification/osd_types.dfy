/**
 * Value types of the OSD layer: placement-group ids, the compound
 * (epoch, version) counter and the statistics records with their add/sub
 * algebra.
 */
module OsdTypes {
  import opened Wrappers
  import opened Collections

  const U32: int := 0x1_0000_0000
  const U64: int := 0x1_0000_0000_0000_0000
  type u32 = x: int | 0 <= x < 0x1_0000_0000
  type u64 = x: int | 0 <= x < 0x1_0000_0000_0000_0000
  type s32 = x: int | -0x8000_0000 <= x < 0x8000_0000

  /** The implicit conversion of an `int64_t` to `int`: two's complement
   *  wrap-around, which OSD ids read from a command undergo when they are
   *  passed to `OSDMap::exists(int)` or stored in an `int32_t` field. */
  function AsInt(x: int): (r: s32)
    ensures (r - x) % U32 == 0
    ensures -0x8000_0000 <= x < 0x8000_0000 ==> r == x
  {
    var low := x % U32;
    if low < 0x8000_0000 then low else low - U32
  }

  /** Every id of a list converted by AsInt. */
  function AsInts(ids: seq<int>): (r: seq<int>)
    ensures |r| == |ids|
    ensures forall i :: 0 <= i < |ids| ==> r[i] == AsInt(ids[i])
  {
    seq(|ids|, i requires 0 <= i < |ids| => AsInt(ids[i]))
  }

  /** An id 2^32 above a small one converts to it. */
  lemma WrappedIdAliases(k: int)
    requires 0 <= k < 0x8000_0000
    ensures AsInt(U32 + k) == k && AsInt(U32 + k) != U32 + k
  {
  }

  /** Lexicographic comparison of two pairs equals the comparison of their
   *  mixed-radix encodings when the low digit is below the radix. */
  lemma {:induction false} LexRank(a: int, b: int, c: int, d: int, radix: int)
    requires 0 <= b < radix && 0 <= d < radix
    ensures a * radix + b < c * radix + d <==> a < c || (a == c && b < d)
    ensures a * radix + b == c * radix + d <==> a == c && b == d
  {
    if a < c {
      calc {
        a * radix + b;
      < a * radix + radix;
      == (a + 1) * radix;
      <= { assert a + 1 <= c; MulMonotone(a + 1, c, radix); }
        c * radix;
      <= c * radix + d;
      }
    } else if a > c {
      calc {
        c * radix + d;
      < c * radix + radix;
      == (c + 1) * radix;
      <= { MulMonotone(c + 1, a, radix); }
        a * radix;
      <= a * radix + b;
      }
    }
  }

  lemma MulMonotone(x: int, y: int, radix: int)
    requires x <= y && 0 <= radix
    ensures x * radix <= y * radix
  {
    var diff := y - x;
    assert y * radix == x * radix + diff * radix;
  }

  // ---------------------------------------------------------------------
  // pg_t

  /** A placement-group id: pool, preferred OSD (-1 for none) and seed. */
  datatype PgId = PgId(pool: u64, preferred: s32, ps: u32)

  /** The default-constructed pg_t. */
  function DefaultPgId(): (p: PgId)
    ensures p.pool == 0 && p.ps == 0 && p.preferred == -1
  {
    PgId(0, -1, 0)
  }

  predicate PgLt(l: PgId, r: PgId)
  {
    l.pool < r.pool ||
    (l.pool == r.pool && (l.preferred < r.preferred ||
                          (l.preferred == r.preferred && l.ps < r.ps)))
  }

  predicate PgLe(l: PgId, r: PgId)
  {
    l.pool < r.pool ||
    (l.pool == r.pool && (l.preferred < r.preferred ||
                          (l.preferred == r.preferred && l.ps <= r.ps)))
  }

  predicate PgEq(l: PgId, r: PgId)
  {
    l.pool == r.pool && l.preferred == r.preferred && l.ps == r.ps
  }

  predicate PgNe(l: PgId, r: PgId)
  {
    l.pool != r.pool || l.preferred != r.preferred || l.ps != r.ps
  }

  predicate PgGt(l: PgId, r: PgId)
  {
    l.pool > r.pool ||
    (l.pool == r.pool && (l.preferred > r.preferred ||
                          (l.preferred == r.preferred && l.ps > r.ps)))
  }

  predicate PgGe(l: PgId, r: PgId)
  {
    l.pool > r.pool ||
    (l.pool == r.pool && (l.preferred > r.preferred ||
                          (l.preferred == r.preferred && l.ps >= r.ps)))
  }

  /** Reference key: the id read as one mixed-radix number (pool, preferred, ps). */
  function PgRank(p: PgId): int
  {
    (p.pool * U32 + (p.preferred + 0x8000_0000)) * U32 + p.ps
  }

  /** The six pg_t operators are exactly the integer order on PgRank, so they
   *  form one strict total order consistent with equality. */
  lemma PgOrderIsRankOrder(l: PgId, r: PgId)
    ensures PgLt(l, r) <==> PgRank(l) < PgRank(r)
    ensures PgLe(l, r) <==> PgRank(l) <= PgRank(r)
    ensures PgGt(l, r) <==> PgRank(l) > PgRank(r)
    ensures PgGe(l, r) <==> PgRank(l) >= PgRank(r)
    ensures PgEq(l, r) <==> PgRank(l) == PgRank(r)
    ensures PgNe(l, r) <==> PgRank(l) != PgRank(r)
    ensures PgEq(l, r) <==> l == r
  {
    var hl := l.pool * U32 + (l.preferred + 0x8000_0000);
    var hr := r.pool * U32 + (r.preferred + 0x8000_0000);
    LexRank(hl, l.ps, hr, r.ps, U32);
    LexRank(l.pool, l.preferred + 0x8000_0000, r.pool, r.preferred + 0x8000_0000, U32);
    LexRank(hr, r.ps, hl, l.ps, U32);
    LexRank(r.pool, r.preferred + 0x8000_0000, l.pool, l.preferred + 0x8000_0000, U32);
  }

  /** Consequence: pg_t's < is a strict total order. */
  lemma PgLtStrictTotal(a: PgId, b: PgId, c: PgId)
    ensures !PgLt(a, a)
    ensures PgLt(a, b) && PgLt(b, c) ==> PgLt(a, c)
    ensures PgLt(a, b) || a == b || PgLt(b, a)
  {
    PgOrderIsRankOrder(a, a);
    PgOrderIsRankOrder(a, b);
    PgOrderIsRankOrder(b, a);
    PgOrderIsRankOrder(b, c);
    PgOrderIsRankOrder(a, c);
  }

  // ---------------------------------------------------------------------
  // eversion_t

  /** The compound rados version: a 32-bit epoch and a 64-bit version. */
  datatype EVersion = EVersion(epoch: u32, version: u64)

  predicate EvEq(l: EVersion, r: EVersion) { l.epoch == r.epoch && l.version == r.version }
  predicate EvNe(l: EVersion, r: EVersion) { l.epoch != r.epoch || l.version != r.version }
  predicate EvLt(l: EVersion, r: EVersion)
  { if l.epoch == r.epoch then l.version < r.version else l.epoch < r.epoch }
  predicate EvLe(l: EVersion, r: EVersion)
  { if l.epoch == r.epoch then l.version <= r.version else l.epoch <= r.epoch }
  predicate EvGt(l: EVersion, r: EVersion)
  { if l.epoch == r.epoch then l.version > r.version else l.epoch > r.epoch }
  predicate EvGe(l: EVersion, r: EVersion)
  { if l.epoch == r.epoch then l.version >= r.version else l.epoch >= r.epoch }

  /** Reference key: epoch as the high digit, version as the low one. */
  function EvRank(v: EVersion): int
  {
    v.epoch * U64 + v.version
  }

  /** The eversion_t operators are the integer order on EvRank: lexicographic
   *  on (epoch, version) and mutually consistent. */
  lemma EvOrderIsRankOrder(l: EVersion, r: EVersion)
    ensures EvLt(l, r) <==> EvRank(l) < EvRank(r)
    ensures EvLe(l, r) <==> EvRank(l) <= EvRank(r)
    ensures EvGt(l, r) <==> EvRank(l) > EvRank(r)
    ensures EvGe(l, r) <==> EvRank(l) >= EvRank(r)
    ensures EvEq(l, r) <==> EvRank(l) == EvRank(r)
    ensures EvNe(l, r) <==> EvRank(l) != EvRank(r)
    ensures EvEq(l, r) <==> l == r
  {
    LexRank(l.epoch, l.version, r.epoch, r.version, U64);
    LexRank(r.epoch, r.version, l.epoch, l.version, U64);
  }

  /** eversion_t::inc: raise the epoch to at least e and bump the 64-bit
   *  version, which wraps at 2^64. */
  function Inc(v: EVersion, e: u32): (r: EVersion)
    ensures r.epoch == if v.epoch < e then e else v.epoch
    ensures r.epoch >= v.epoch && r.epoch >= e
    ensures v.version + 1 < U64 ==> r.version == v.version + 1
    ensures v.version + 1 == U64 ==> r.version == 0
  {
    EVersion(if v.epoch < e then e else v.epoch, (v.version + 1) % U64)
  }

  /** inc yields a strictly greater version except in the single case where
   *  the version counter wraps and the epoch is not raised. */
  lemma IncIsGreater(v: EVersion, e: u32)
    ensures EvGt(Inc(v, e), v) <==> !(v.version == U64 - 1 && e <= v.epoch)
  {
    EvOrderIsRankOrder(Inc(v, e), v);
  }

  // ---------------------------------------------------------------------
  // osd_stat_t

  /** Aggregate statistics of one OSD; hbIn/hbOut are heartbeat peer lists. */
  datatype OsdStat = OsdStat(kb: int, kbUsed: int, kbAvail: int,
                             hbIn: seq<int>, hbOut: seq<int>,
                             snapTrimQueueLen: int, numSnapTrimming: int)

  function OsdStatZero(): OsdStat { OsdStat(0, 0, 0, [], [], 0, 0) }

  /** osd_stat_t::add: adds the five scalar counters; the heartbeat lists stay. */
  function OsdStatAdd(s: OsdStat, o: OsdStat): (r: OsdStat)
    ensures r.hbIn == s.hbIn && r.hbOut == s.hbOut
  {
    s.(kb := s.kb + o.kb, kbUsed := s.kbUsed + o.kbUsed, kbAvail := s.kbAvail + o.kbAvail,
       snapTrimQueueLen := s.snapTrimQueueLen + o.snapTrimQueueLen,
       numSnapTrimming := s.numSnapTrimming + o.numSnapTrimming)
  }

  /** osd_stat_t::sub: subtracts the five scalar counters; the heartbeat lists stay. */
  function OsdStatSub(s: OsdStat, o: OsdStat): (r: OsdStat)
    ensures r.hbIn == s.hbIn && r.hbOut == s.hbOut
  {
    s.(kb := s.kb - o.kb, kbUsed := s.kbUsed - o.kbUsed, kbAvail := s.kbAvail - o.kbAvail,
       snapTrimQueueLen := s.snapTrimQueueLen - o.snapTrimQueueLen,
       numSnapTrimming := s.numSnapTrimming - o.numSnapTrimming)
  }

  /** add and sub undo each other, in either order. */
  lemma OsdStatAddSubInverse(s: OsdStat, o: OsdStat)
    ensures OsdStatSub(OsdStatAdd(s, o), o) == s
    ensures OsdStatAdd(OsdStatSub(s, o), o) == s
  {
  }

  // ---------------------------------------------------------------------
  // object_stat_sum_t

  /** The twelve signed counters of object_stat_sum_t. */
  datatype StatSum = StatSum(
    numBytes: int, numKb: int, numObjects: int, numObjectClones: int,
    numObjectCopies: int, numObjectsMissingOnPrimary: int,
    numObjectsDegraded: int, numObjectsUnfound: int,
    numRd: int, numRdKb: int, numWr: int, numWrKb: int)

  function StatZero(): StatSum { StatSum(0, 0, 0, 0, 0, 0, 0, 0, 0, 0, 0, 0) }

  /** The counters as a sequence, in declaration order (a reference view for
   *  stating field-wise properties). */
  function Counters(s: StatSum): (c: seq<int>)
    ensures |c| == 12
  {
    [s.numBytes, s.numKb, s.numObjects, s.numObjectClones, s.numObjectCopies,
     s.numObjectsMissingOnPrimary, s.numObjectsDegraded, s.numObjectsUnfound,
     s.numRd, s.numRdKb, s.numWr, s.numWrKb]
  }

  function StatAdd(s: StatSum, o: StatSum): StatSum
  {
    StatSum(s.numBytes + o.numBytes, s.numKb + o.numKb, s.numObjects + o.numObjects,
            s.numObjectClones + o.numObjectClones, s.numObjectCopies + o.numObjectCopies,
            s.numObjectsMissingOnPrimary + o.numObjectsMissingOnPrimary,
            s.numObjectsDegraded + o.numObjectsDegraded,
            s.numObjectsUnfound + o.numObjectsUnfound,
            s.numRd + o.numRd, s.numRdKb + o.numRdKb, s.numWr + o.numWr, s.numWrKb + o.numWrKb)
  }

  function StatSub(s: StatSum, o: StatSum): StatSum
  {
    StatSum(s.numBytes - o.numBytes, s.numKb - o.numKb, s.numObjects - o.numObjects,
            s.numObjectClones - o.numObjectClones, s.numObjectCopies - o.numObjectCopies,
            s.numObjectsMissingOnPrimary - o.numObjectsMissingOnPrimary,
            s.numObjectsDegraded - o.numObjectsDegraded,
            s.numObjectsUnfound - o.numObjectsUnfound,
            s.numRd - o.numRd, s.numRdKb - o.numRdKb, s.numWr - o.numWr, s.numWrKb - o.numWrKb)
  }

  /** add and sub act counter by counter: all twelve counters, num_objects_unfound included. */
  lemma StatAddSubFieldwise(s: StatSum, o: StatSum)
    ensures forall i :: 0 <= i < 12 ==> Counters(StatAdd(s, o))[i] == Counters(s)[i] + Counters(o)[i]
    ensures forall i :: 0 <= i < 12 ==> Counters(StatSub(s, o))[i] == Counters(s)[i] - Counters(o)[i]
  {
  }

  /** add(o) followed by sub(o) restores every counter, and the converse. */
  lemma StatAddSubInverse(s: StatSum, o: StatSum)
    ensures StatSub(StatAdd(s, o), o) == s
    ensures StatAdd(StatSub(s, o), o) == s
  {
  }

  /** calc_copies_degraded: copies = nrep * objects, degraded = (nrep - acting) * objects;
   *  every other counter is kept. */
  function CalcCopiesDegraded(s: StatSum, nrep: int, actingNrep: int): (r: StatSum)
    ensures r.numObjectCopies == nrep * s.numObjects
    ensures r.numObjectsDegraded == (nrep - actingNrep) * s.numObjects
    ensures forall i :: 0 <= i < 12 && i != 4 && i != 6 ==> Counters(r)[i] == Counters(s)[i]
  {
    s.(numObjectCopies := nrep * s.numObjects,
       numObjectsDegraded := (nrep - actingNrep) * s.numObjects)
  }

  // ---------------------------------------------------------------------
  // object_stat_collection_t

  /** add or sub, selected by a flag. */
  function Combine(a: StatSum, b: StatSum, add: bool): StatSum
  {
    if add then StatAdd(a, b) else StatSub(a, b)
  }

  /** Category-wise combination of two category maps, a missing category
   *  counting as the zero sum (std::map::operator[] default-constructs it). */
  function MergeCats(a: map<string, StatSum>, b: map<string, StatSum>, add: bool): (r: map<string, StatSum>)
    ensures r.Keys == a.Keys + b.Keys
  {
    map k | k in a.Keys + b.Keys :: if k in b then Combine(GetOr(a, k, StatZero()), b[k], add) else a[k]
  }

  lemma MergeCatsExt(a: map<string, StatSum>, b: map<string, StatSum>, add: bool, r: map<string, StatSum>)
    requires r.Keys == a.Keys + b.Keys
    requires forall k :: k in b ==> r[k] == Combine(GetOr(a, k, StatZero()), b[k], add)
    requires forall k :: k in a && k !in b ==> r[k] == a[k]
    ensures r == MergeCats(a, b, add)
  {
  }

  /** object_stat_collection_t: the overall sum and one sum per category. */
  class StatCollection {
    var sum: StatSum
    var catSum: map<string, StatSum>

    constructor ()
      ensures sum == StatZero() && catSum == map[]
    {
      sum := StatZero();
      catSum := map[];
    }

    /** add(o, cat): always into sum, into cat_sum[cat] only for a non-empty category. */
    method AddToCategory(o: StatSum, cat: string)
      modifies this
      ensures sum == StatAdd(old(sum), o)
      ensures cat == [] ==> catSum == old(catSum)
      ensures cat != [] ==> catSum == old(catSum)[cat := StatAdd(GetOr(old(catSum), cat, StatZero()), o)]
    {
      sum := StatAdd(sum, o);
      if |cat| != 0 {
        catSum := catSum[cat := StatAdd(GetOr(catSum, cat, StatZero()), o)];
      }
    }

    /** add(coll) and sub(coll): field-wise on sum, then category by category. */
    method Merge(oSum: StatSum, oCats: map<string, StatSum>, add: bool)
      modifies this
      ensures sum == Combine(old(sum), oSum, add)
      ensures catSum == MergeCats(old(catSum), oCats, add)
    {
      sum := Combine(sum, oSum, add);
      var cats := MergeInto(catSum, oCats, (x, y) => Combine(x, y, add), StatZero());
      MergeCatsExt(catSum, oCats, add, cats);
      catSum := cats;
    }

    /** calc_copies_degraded on sum and on every category. */
    method CalcAllCopiesDegraded(nrep: int, actingNrep: int)
      modifies this
      ensures sum == CalcCopiesDegraded(old(sum), nrep, actingNrep)
      ensures catSum.Keys == old(catSum).Keys
      ensures forall k :: k in catSum ==> catSum[k] == CalcCopiesDegraded(old(catSum)[k], nrep, actingNrep)
    {
      sum := CalcCopiesDegraded(sum, nrep, actingNrep);
      var cats := catSum;
      var todo := catSum.Keys;
      while todo != {}
        invariant todo <= catSum.Keys && cats.Keys == catSum.Keys
        invariant forall k :: k in todo ==> cats[k] == catSum[k]
        invariant forall k :: k in catSum && k !in todo ==> cats[k] == CalcCopiesDegraded(catSum[k], nrep, actingNrep)
        decreases todo
      {
        var k :| k in todo;
        cats := cats[k := CalcCopiesDegraded(cats[k], nrep, actingNrep)];
        todo := todo - {k};
      }
      catSum := cats;
    }
  }

  /** Adding a collection and then subtracting it restores every category
   *  that existed before; categories it introduced remain as zero sums. */
  lemma MergeAddThenSub(a: map<string, StatSum>, b: map<string, StatSum>)
    ensures var r := MergeCats(MergeCats(a, b, true), b, false);
      r.Keys == a.Keys + b.Keys &&
      (forall k :: k in a ==> r[k] == a[k]) &&
      (forall k :: k in b && k !in a ==> r[k] == StatZero())
  {
    var m := MergeCats(a, b, true);
    var r := MergeCats(m, b, false);
    forall k | k in a
      ensures r[k] == a[k]
    {
      if k in b {
        StatAddSubInverse(a[k], b[k]);
      }
    }
    forall k | k in b && k !in a
      ensures r[k] == StatZero()
    {
      StatAddSubInverse(StatZero(), b[k]);
    }
  }
}
