/**
 * The removed/purged snapshot interval store of the monitor.  Each record
 * covers a half-open interval [begin, end) of snap ids of one pool and is
 * stored under the key of its LAST snap, so that a forward lower_bound
 * from the key of a snap lands on the only record that can contain it.
 *
 * The keys are strings whose snap part is fixed-width hex; the lemmas
 * below show that their byte order within one pool is the numeric order
 * of the snap, which is what lets the table be modelled as a map keyed by
 * (purged, pool, last) with "least key at or after" as the lookup.
 */
module SnapStore {
  import opened Wrappers
  import opened Collections
  import opened MonitorDBStore
  import Decimal
  import OsdTypes

  // ---------------------------------------------------------------------
  // Key makers

  /** One lower-case hex digit, as `%x` prints it. */
  function HexDigit(d: nat): (c: char)
    requires d < 16
    ensures d < 10 ==> c == '0' + d as char
    ensures d >= 10 ==> c == 'a' + (d - 10) as char
  {
    if d < 10 then '0' + d as char else 'a' + (d - 10) as char
  }

  function Pow16(w: nat): (p: nat)
    ensures p > 0
  {
    if w == 0 then 1 else 16 * Pow16(w - 1)
  }

  /** The widths the key makers use: 8 hex digits hold a u32, 16 a u64. */
  lemma Pow16Widths()
    ensures Pow16(8) == 0x1_0000_0000
    ensures Pow16(16) == 0x1_0000_0000_0000_0000
  {
    assert Pow16(2) == 0x100;
    assert Pow16(4) == 0x1_0000;
    assert Pow16(6) == 0x100_0000;
    assert Pow16(8) == 0x1_0000_0000;
    assert Pow16(10) == 0x100_0000_0000;
    assert Pow16(12) == 0x1_0000_0000_0000;
    assert Pow16(14) == 0x100_0000_0000_0000;
  }

  /** `%0<w>lx` of a value below 16^w: exactly w hex digits, most
   *  significant first. */
  function HexPad(x: nat, w: nat): (s: string)
    requires x < Pow16(w)
    ensures |s| == w
    decreases w
  {
    if w == 0 then ""
    else HexPad(x / 16, w - 1) + [HexDigit(x % 16)]
  }

  /** make_removed_snap_epoch_key: "removed_epoch_<pool>_<epoch, 8 hex>". */
  function MakeRemovedSnapEpochKey(pool: nat, epoch: OsdTypes.u32): (k: string)
    ensures |k| == 15 + |Decimal.NatToString(pool)| + 8
  {
    Pow16Widths();
    "removed_epoch_" + Decimal.NatToString(pool) + "_" + HexPad(epoch, 8)
  }

  /** make_purged_snap_epoch_key: "purged_epoch_<epoch, 8 hex>". */
  function MakePurgedSnapEpochKey(epoch: OsdTypes.u32): (k: string)
    ensures |k| == 13 + 8
  {
    Pow16Widths();
    "purged_epoch_" + HexPad(epoch, 8)
  }

  /** The part of a snap key shared by every snap of one pool. */
  function SnapKeyPrefix(purged: bool, pool: nat): string
  {
    (if purged then "purged" else "removed") + "_snap_" + Decimal.NatToString(pool) + "_"
  }

  /** _make_snap_key: the pool prefix followed by the snap as 16 hex digits. */
  function MakeSnapKey(purged: bool, pool: nat, snap: OsdTypes.u64): (k: string)
    ensures |k| == |SnapKeyPrefix(purged, pool)| + 16
  {
    Pow16Widths();
    SnapKeyPrefix(purged, pool) + HexPad(snap, 16)
  }

  lemma HexDigitMono(a: nat, b: nat)
    requires a <= b < 16
    ensures HexDigit(a) <= HexDigit(b)
    ensures a < b ==> HexDigit(a) < HexDigit(b)
  {
  }

  /** Distinct values print distinctly. */
  lemma {:induction false} HexPadInjective(x: nat, y: nat, w: nat)
    requires x < Pow16(w) && y < Pow16(w)
    requires HexPad(x, w) == HexPad(y, w)
    ensures x == y
    decreases w
  {
    if w > 0 {
      var sx, sy := HexPad(x, w), HexPad(y, w);
      assert sx[..w - 1] == HexPad(x / 16, w - 1) && sy[..w - 1] == HexPad(y / 16, w - 1);
      HexPadInjective(x / 16, y / 16, w - 1);
      assert sx[w - 1] == HexDigit(x % 16) && sy[w - 1] == HexDigit(y % 16);
    }
  }

  /** Fixed-width hex sorts like the numbers it prints. */
  lemma {:induction false} HexPadOrder(x: nat, y: nat, w: nat)
    requires x <= y < Pow16(w)
    ensures StrLe(HexPad(x, w), HexPad(y, w))
    decreases w
  {
    if w > 0 {
      var hx, hy := HexPad(x / 16, w - 1), HexPad(y / 16, w - 1);
      HexPadOrder(x / 16, y / 16, w - 1);
      if x / 16 == y / 16 {
        HexDigitMono(x % 16, y % 16);
        StrLeCommonPrefix(hx, [HexDigit(x % 16)], [HexDigit(y % 16)]);
      } else {
        if hx == hy { HexPadInjective(x / 16, y / 16, w - 1); }
        StrLeAppend(hx, hy, [HexDigit(x % 16)], [HexDigit(y % 16)]);
      }
    }
  }

  /** Once two equal-length strings differ, what follows them is irrelevant. */
  lemma {:induction false} StrLeAppend(a: string, b: string, u: string, v: string)
    requires |a| == |b| && a != b && StrLe(a, b)
    ensures StrLe(a + u, b + v)
    decreases |a|
  {
    assert (a + u)[0] == a[0] && (b + v)[0] == b[0];
    if a[0] == b[0] {
      assert a[1..] != b[1..] by { assert a == [a[0]] + a[1..] && b == [b[0]] + b[1..]; }
      StrLeAppend(a[1..], b[1..], u, v);
      assert (a + u)[1..] == a[1..] + u && (b + v)[1..] == b[1..] + v;
    }
  }

  /** A common prefix does not change the order. */
  lemma {:induction false} StrLeCommonPrefix(pre: string, a: string, b: string)
    requires StrLe(a, b)
    ensures StrLe(pre + a, pre + b)
    decreases |pre|
  {
    if |pre| > 0 {
      StrLeCommonPrefix(pre[1..], a, b);
      assert (pre + a)[0] == pre[0] == (pre + b)[0];
      assert (pre + a)[1..] == pre[1..] + a;
      assert (pre + b)[1..] == pre[1..] + b;
    } else {
      assert pre + a == a && pre + b == b;
    }
  }

  /** Within one pool, the store's byte order on snap keys is the numeric
   *  order on snaps: a forward lower_bound from a snap's key visits the
   *  pool's records in order of their last snap. */
  lemma SnapKeyOrder(purged: bool, pool: nat, s1: OsdTypes.u64, s2: OsdTypes.u64)
    requires s1 <= s2
    ensures StrLe(MakeSnapKey(purged, pool, s1), MakeSnapKey(purged, pool, s2))
  {
    Pow16Widths();
    HexPadOrder(s1, s2, 16);
    StrLeCommonPrefix(SnapKeyPrefix(purged, pool), HexPad(s1, 16), HexPad(s2, 16));
  }

  /** The purged-epoch keys sort by epoch, so a forward scan meets them in
   *  epoch order. */
  lemma PurgedEpochKeyOrder(e1: OsdTypes.u32, e2: OsdTypes.u32)
    requires e1 <= e2
    ensures StrLe(MakePurgedSnapEpochKey(e1), MakePurgedSnapEpochKey(e2))
  {
    Pow16Widths();
    HexPadOrder(e1, e2, 8);
    StrLeCommonPrefix("purged_epoch_", HexPad(e1, 8), HexPad(e2, 8));
  }

  // ---------------------------------------------------------------------
  // The interval table

  /** The key a record is stored under: its pool and its last snap. */
  datatype SnapKey = SnapKey(purged: bool, pool: nat, last: nat)

  /** The value: the interval [begin, end) and the epoch it was written in. */
  datatype SnapRecord = SnapRecord(begin: nat, end: nat, epoch: nat)

  type SnapTable = map<SnapKey, SnapRecord>

  /** The writes insert_snap_update queues on the transaction. */
  datatype SnapOp = PutRecord(key: SnapKey, rec: SnapRecord) | EraseRecord(key: SnapKey)

  function ApplySnapOps(t: SnapTable, ops: seq<SnapOp>): SnapTable
    decreases |ops|
  {
    if ops == [] then t
    else
      var t1 := match ops[0]
        case PutRecord(k, r) => t[k := r]
        case EraseRecord(k) => t - {k};
      ApplySnapOps(t1, ops[1..])
  }

  lemma ApplyPut(t: SnapTable, k: SnapKey, r: SnapRecord)
    ensures ApplySnapOps(t, [PutRecord(k, r)]) == t[k := r]
  {
    assert [PutRecord(k, r)][1..] == [];
  }

  lemma ApplyErasePut(t: SnapTable, k1: SnapKey, k2: SnapKey, r: SnapRecord)
    ensures ApplySnapOps(t, [EraseRecord(k1), PutRecord(k2, r)]) == (t - {k1})[k2 := r]
  {
    assert [EraseRecord(k1), PutRecord(k2, r)][1..] == [PutRecord(k2, r)];
    ApplyPut(t - {k1}, k2, r);
  }

  /** The last snaps of (purged, pool) records at or after `snap`. */
  function Candidates(t: SnapTable, purged: bool, pool: nat, snap: int): set<int>
  {
    set k | k in t && k.purged == purged && k.pool == pool && k.last >= snap :: k.last as int
  }

  lemma CandidateKey(t: SnapTable, purged: bool, pool: nat, snap: int, l: int)
    requires l in Candidates(t, purged, pool, snap)
    ensures l >= 0 && l >= snap && SnapKey(purged, pool, l) in t
  {
    var k :| k in t && k.purged == purged && k.pool == pool && k.last >= snap && l == k.last as int;
    assert k == SnapKey(purged, pool, l);
  }

  /**
   * _lookup_snap: the record at the first key at or after the snap's key,
   * provided it belongs to the same pool and its interval contains the
   * snap; None where the source returns -ENOENT.
   */
  ghost function Lookup(t: SnapTable, purged: bool, pool: nat, snap: int): (r: Option<SnapRecord>)
    ensures r.Some? ==> r.value.begin <= snap < r.value.end
  {
    var c := Candidates(t, purged, pool, snap);
    if c == {} then None
    else
      var l := MinKey(c);
      CandidateKey(t, purged, pool, snap, l);
      var r := t[SnapKey(purged, pool, l)];
      if snap < r.begin || snap >= r.end then None else Some(r)
  }

  /** Some record of the pool contains the snap. */
  ghost predicate Covered(t: SnapTable, purged: bool, pool: nat, snap: int)
  {
    exists k :: k in t && k.purged == purged && k.pool == pool && t[k].begin <= snap < t[k].end
  }

  /**
   * The shape the store keeps: every record is a non-empty interval of
   * u64 snaps stored under its last snap, and the records of one pool do
   * not overlap.
   */
  ghost predicate WellFormed(t: SnapTable)
  {
    (forall k :: k in t ==> t[k].begin < t[k].end < OsdTypes.U64 && k.last == t[k].end - 1) &&
    (forall k1, k2 :: k1 in t && k2 in t && k1 != k2 && k1.purged == k2.purged && k1.pool == k2.pool
       ==> t[k1].end <= t[k2].begin || t[k2].end <= t[k1].begin)
  }

  /** On a well-formed table the lookup finds a snap exactly when some
   *  record contains it, and then returns that record. */
  lemma LookupFindsCover(t: SnapTable, purged: bool, pool: nat, snap: int)
    requires WellFormed(t)
    ensures Lookup(t, purged, pool, snap).Some? <==> Covered(t, purged, pool, snap)
    ensures Lookup(t, purged, pool, snap).Some? ==>
              var r := Lookup(t, purged, pool, snap).value;
              SnapKey(purged, pool, r.end - 1) in t && t[SnapKey(purged, pool, r.end - 1)] == r
              && r.begin <= snap < r.end
  {
    var c := Candidates(t, purged, pool, snap);
    if Covered(t, purged, pool, snap) {
      var k :| k in t && k.purged == purged && k.pool == pool && t[k].begin <= snap < t[k].end;
      CoverIsFirstCandidate(t, purged, pool, snap, k);
    } else if c != {} {
      CandidateKey(t, purged, pool, snap, MinKey(c));
    }
  }

  /** A record containing the snap is the first one at or after it. */
  lemma CoverIsFirstCandidate(t: SnapTable, purged: bool, pool: nat, snap: int, k: SnapKey)
    requires WellFormed(t)
    requires k in t && k.purged == purged && k.pool == pool && t[k].begin <= snap < t[k].end
    ensures Candidates(t, purged, pool, snap) != {}
    ensures MinKey(Candidates(t, purged, pool, snap)) == k.last
  {
    var c := Candidates(t, purged, pool, snap);
    assert k.last as int in c;
    var l := MinKey(c);
    CandidateKey(t, purged, pool, snap, l);
    var k2 := SnapKey(purged, pool, l);
    if k2 != k {
      assert false;
    }
  }

  /** `start - 1` on a snapid_t: 0 wraps to the largest u64. */
  function PrevSnap(start: nat): nat
  {
    if start == 0 then OsdTypes.U64 - 1 else start - 1
  }

  /** No record of the pool meets [start, end). */
  ghost predicate Fresh(t: SnapTable, purged: bool, pool: nat, start: nat, end: nat)
  {
    forall k :: k in t && k.purged == purged && k.pool == pool ==> t[k].end <= start || end <= t[k].begin
  }

  /**
   * The table insert_snap_update leaves behind: one record for [start, end)
   * extended down over a record containing start-1 and up over one
   * containing end; the earlier record's key is erased and the later one's
   * is overwritten.
   */
  ghost function Merged(t: SnapTable, purged: bool, pool: nat, start: nat, end: nat, epoch: nat): SnapTable
    requires start < end
  {
    Replace(t, AbsorbedKey(t, purged, pool, start), JoinedKey(t, purged, pool, start, end, epoch),
            JoinedRecord(t, purged, pool, start, end, epoch))
  }

  /** The key the joined record is stored under: its last snap. */
  ghost function JoinedKey(t: SnapTable, purged: bool, pool: nat, start: nat, end: nat, epoch: nat): SnapKey
    requires start < end
  {
    SnapKey(purged, pool, JoinedRecord(t, purged, pool, start, end, epoch).end - 1)
  }

  /** The key of the record containing start-1, which the merge erases. */
  ghost function AbsorbedKey(t: SnapTable, purged: bool, pool: nat, start: nat): Option<SnapKey>
  {
    var b := Lookup(t, purged, pool, PrevSnap(start));
    if b.Some? then Some(SnapKey(purged, pool, b.value.end - 1)) else None
  }

  /** The record the merge writes: [start, end) widened by the record
   *  containing start-1 and the one containing end. */
  ghost function JoinedRecord(t: SnapTable, purged: bool, pool: nat, start: nat, end: nat, epoch: nat): (r: SnapRecord)
    requires start < end
    ensures r.end >= end > 0
  {
    var b := Lookup(t, purged, pool, PrevSnap(start));
    var a := Lookup(t, purged, pool, end);
    SnapRecord(if b.Some? then b.value.begin else start, if a.Some? then a.value.end else end, epoch)
  }

  /** Erase `drop` (if any), then write `nr` under `kn`. */
  function Replace(t: SnapTable, drop: Option<SnapKey>, kn: SnapKey, nr: SnapRecord): (m: SnapTable)
    ensures kn in m && m[kn] == nr
    ensures forall k :: k in m && k != kn ==> k in t && m[k] == t[k] && drop != Some(k)
    ensures forall k :: k in t && k !in m ==> drop == Some(k)
  {
    (if drop.Some? then t - {drop.value} else t)[kn := nr]
  }

  /**
   * The situation insert_snap_update meets on a well-formed table when
   * [start, end) is not yet recorded: `kb` is the record ending at start
   * (if any), `ka` the one beginning at end (if any), and `nr` under `kn`
   * is the record spanning all three.
   */
  ghost predicate Joinable(t: SnapTable, purged: bool, pool: nat, start: nat, end: nat,
                           kb: Option<SnapKey>, ka: Option<SnapKey>, kn: SnapKey, nr: SnapRecord)
  {
    WellFormed(t) && start < end < OsdTypes.U64 && Fresh(t, purged, pool, start, end) &&
    nr.end > 0 && kn == SnapKey(purged, pool, nr.end - 1) &&
    (kb.Some? ==> kb.value in t && kb.value.purged == purged && kb.value.pool == pool
                  && t[kb.value].end == start && nr.begin == t[kb.value].begin) &&
    (kb.None? ==> nr.begin == start) &&
    (ka.Some? ==> ka.value in t && ka.value == kn && t[ka.value].begin == end && nr.end == t[ka.value].end) &&
    (ka.None? ==> nr.end == end && kn !in t)
  }

  lemma JoinedWellFormed(t: SnapTable, purged: bool, pool: nat, start: nat, end: nat,
                         kb: Option<SnapKey>, ka: Option<SnapKey>, kn: SnapKey, nr: SnapRecord)
    requires Joinable(t, purged, pool, start, end, kb, ka, kn, nr)
    ensures WellFormed(Replace(t, kb, kn, nr))
  {
    var m := Replace(t, kb, kn, nr);
    forall k1, k2 | k1 in m && k2 in m && k1 != k2 && k1.purged == k2.purged && k1.pool == k2.pool
      ensures m[k1].end <= m[k2].begin || m[k2].end <= m[k1].begin
    {
      JoinedPair(t, purged, pool, start, end, kb, ka, kn, nr, k1, k2);
    }
  }

  /** Two records of the merged table lie clear of each other. */
  lemma JoinedPair(t: SnapTable, purged: bool, pool: nat, start: nat, end: nat,
                   kb: Option<SnapKey>, ka: Option<SnapKey>, kn: SnapKey, nr: SnapRecord, k1: SnapKey, k2: SnapKey)
    requires Joinable(t, purged, pool, start, end, kb, ka, kn, nr)
    requires var m := Replace(t, kb, kn, nr);
             k1 in m && k2 in m && k1 != k2 && k1.purged == k2.purged && k1.pool == k2.pool
    ensures var m := Replace(t, kb, kn, nr);
            m[k1].end <= m[k2].begin || m[k2].end <= m[k1].begin
  {
    var m := Replace(t, kb, kn, nr);
    if k1 == kn {
      JoinedApart(t, purged, pool, start, end, kb, ka, kn, nr, k2);
    } else if k2 == kn {
      JoinedApart(t, purged, pool, start, end, kb, ka, kn, nr, k1);
    } else {
      assert m[k1] == t[k1] && m[k2] == t[k2];
    }
  }

  /** A record the merge keeps lies clear of the joined record. */
  lemma JoinedApart(t: SnapTable, purged: bool, pool: nat, start: nat, end: nat,
                    kb: Option<SnapKey>, ka: Option<SnapKey>, kn: SnapKey, nr: SnapRecord, k: SnapKey)
    requires Joinable(t, purged, pool, start, end, kb, ka, kn, nr)
    requires k in t && k != kn && kb != Some(k) && k.purged == purged && k.pool == pool
    ensures t[k].end <= nr.begin || nr.end <= t[k].begin
  {
    if kb.Some? { assert t[k].end <= t[kb.value].begin || t[kb.value].end <= t[k].begin; }
    if ka.Some? { assert t[k].end <= t[ka.value].begin || t[ka.value].end <= t[k].begin; }
  }

  lemma JoinedCovers(t: SnapTable, purged: bool, pool: nat, start: nat, end: nat,
                     kb: Option<SnapKey>, ka: Option<SnapKey>, kn: SnapKey, nr: SnapRecord, s: int)
    requires Joinable(t, purged, pool, start, end, kb, ka, kn, nr)
    ensures Covered(Replace(t, kb, kn, nr), purged, pool, s) <==> Covered(t, purged, pool, s) || start <= s < end
  {
    var m := Replace(t, kb, kn, nr);
    if Covered(t, purged, pool, s) {
      var k :| k in t && k.purged == purged && k.pool == pool && t[k].begin <= s < t[k].end;
      if k !in m || k == kn {
        assert kn in m && m[kn].begin <= s < m[kn].end;
      } else {
        assert m[k] == t[k];
      }
    }
    if start <= s < end {
      assert kn in m && m[kn].begin <= s < m[kn].end;
    }
    if Covered(m, purged, pool, s) && !(start <= s < end) {
      var k :| k in m && k.purged == purged && k.pool == pool && m[k].begin <= s < m[k].end;
      if k == kn {
        if s < start {
          assert kb.Some? && t[kb.value].begin <= s < t[kb.value].end;
        } else {
          assert ka.Some? && t[ka.value].begin <= s < t[ka.value].end;
        }
      } else {
        assert m[k] == t[k];
      }
    }
  }

  /** What the two lookups of insert_snap_update find on a well-formed
   *  table when [start, end) is not yet recorded. */
  lemma MergeIsJoin(t: SnapTable, purged: bool, pool: nat, start: nat, end: nat, epoch: nat)
    requires WellFormed(t) && start < end < OsdTypes.U64 && Fresh(t, purged, pool, start, end)
    ensures var a := Lookup(t, purged, pool, end);
            Joinable(t, purged, pool, start, end, AbsorbedKey(t, purged, pool, start),
                     if a.Some? then Some(SnapKey(purged, pool, a.value.end - 1)) else None,
                     JoinedKey(t, purged, pool, start, end, epoch), JoinedRecord(t, purged, pool, start, end, epoch))
  {
    NeighbourFacts(t, purged, pool, start, end);
  }

  lemma NeighbourFacts(t: SnapTable, purged: bool, pool: nat, start: nat, end: nat)
    requires WellFormed(t) && start < end < OsdTypes.U64 && Fresh(t, purged, pool, start, end)
    ensures var b := Lookup(t, purged, pool, PrevSnap(start));
            b.Some? ==> start > 0 && b.value.end == start && SnapKey(purged, pool, start - 1) in t
                        && t[SnapKey(purged, pool, start - 1)] == b.value
    ensures var a := Lookup(t, purged, pool, end);
            a.Some? ==> a.value.begin == end && SnapKey(purged, pool, a.value.end - 1) in t
                        && t[SnapKey(purged, pool, a.value.end - 1)] == a.value
    ensures SnapKey(purged, pool, end - 1) !in t
  {
    LookupFindsCover(t, purged, pool, PrevSnap(start));
    LookupFindsCover(t, purged, pool, end);
  }

  /**
   * insert_snap_update on a well-formed table, for an interval not yet
   * recorded: afterwards the table keeps its shape and the pool's recorded
   * snaps are exactly the old ones plus [start, end).
   */
  lemma InsertSnapUpdateSpec(t: SnapTable, purged: bool, pool: nat, start: nat, end: nat, epoch: nat, s: int)
    requires WellFormed(t) && start < end < OsdTypes.U64 && Fresh(t, purged, pool, start, end)
    ensures WellFormed(Merged(t, purged, pool, start, end, epoch))
    ensures Covered(Merged(t, purged, pool, start, end, epoch), purged, pool, s)
            <==> Covered(t, purged, pool, s) || start <= s < end
  {
    MergeIsJoin(t, purged, pool, start, end, epoch);
    var a := Lookup(t, purged, pool, end);
    var ka := if a.Some? then Some(SnapKey(purged, pool, a.value.end - 1)) else None;
    var kb, kn, nr := AbsorbedKey(t, purged, pool, start), JoinedKey(t, purged, pool, start, end, epoch),
                      JoinedRecord(t, purged, pool, start, end, epoch);
    JoinedWellFormed(t, purged, pool, start, end, kb, ka, kn, nr);
    JoinedCovers(t, purged, pool, start, end, kb, ka, kn, nr, s);
  }

  /** The merge touches no other pool's records. */
  lemma MergedOthersUnchanged(t: SnapTable, purged: bool, pool: nat, start: nat, end: nat, epoch: nat, k: SnapKey)
    requires WellFormed(t) && start < end < OsdTypes.U64 && Fresh(t, purged, pool, start, end)
    requires k.purged != purged || k.pool != pool
    ensures k in Merged(t, purged, pool, start, end, epoch) <==> k in t
    ensures k in t ==> Merged(t, purged, pool, start, end, epoch)[k] == t[k]
  {
    MergeIsJoin(t, purged, pool, start, end, epoch);
  }

  /** _lookup_snap, walking forward from the snap's key. */
  method LookupSnap(t: SnapTable, purged: bool, pool: nat, snap: int) returns (r: int, begin: nat, end: nat)
    ensures r == 0 || r == -ENOENT
    ensures r == 0 <==> Lookup(t, purged, pool, snap).Some?
    ensures r == 0 ==> Lookup(t, purged, pool, snap) == Some(SnapRecord(begin, end, Lookup(t, purged, pool, snap).value.epoch))
  {
    var c := set k | k in t && k.purged == purged && k.pool == pool && k.last >= snap :: k.last as int;
    assert c == Candidates(t, purged, pool, snap);
    begin, end := 0, 0;
    if c == {} {
      return -ENOENT, begin, end;
    }
    var l := FindMinKey(c);
    CandidateKey(t, purged, pool, snap, l);
    var rec := t[SnapKey(purged, pool, l)];
    begin, end := rec.begin, rec.end;
    if snap < begin || snap >= end {
      return -ENOENT, begin, end;
    }
    r := 0;
  }

  const ENOENT: int := 2

  /** The ops for a join: erase the absorbed key (if any), then put. */
  function JoinOps(drop: Option<SnapKey>, kn: SnapKey, nr: SnapRecord): seq<SnapOp>
  {
    (if drop.Some? then [EraseRecord(drop.value)] else []) + [PutRecord(kn, nr)]
  }

  lemma ApplyJoinOps(t: SnapTable, drop: Option<SnapKey>, kn: SnapKey, nr: SnapRecord)
    ensures ApplySnapOps(t, JoinOps(drop, kn, nr)) == Replace(t, drop, kn, nr)
  {
    if drop.Some? {
      ApplyErasePut(t, drop.value, kn, nr);
    } else {
      ApplyPut(t, kn, nr);
    }
  }

  /**
   * insert_snap_update: records that [start, end) of the pool's snaps were
   * removed (or purged) in `epoch`, joining the records that touch it.  The
   * source's four cases (join both, join earlier, join later, new) differ
   * only in the begin and end of the record written and in whether the
   * earlier record's key is erased first; they are computed here in turn.
   */
  method InsertSnapUpdate(t: SnapTable, purged: bool, pool: nat, start: nat, end: nat, epoch: nat)
    returns (ops: seq<SnapOp>)
    requires start < end
    ensures ApplySnapOps(t, ops) == Merged(t, purged, pool, start, end, epoch)
    ensures 1 <= |ops| <= 2 && ops[|ops| - 1].PutRecord?
  {
    var b, beforeBegin, beforeEnd := LookupSnap(t, purged, pool, PrevSnap(start));
    var a, afterBegin, afterEnd := LookupSnap(t, purged, pool, end);
    var nb, ne, drop := start, end, None;
    if b == 0 {
      // erase only the earlier record; the later one is overwritten
      nb, drop := beforeBegin, Some(SnapKey(purged, pool, beforeEnd - 1));
    }
    if a == 0 {
      ne := afterEnd;
    }
    var nr := SnapRecord(nb, ne, epoch);
    assert nr == JoinedRecord(t, purged, pool, start, end, epoch);
    assert drop == AbsorbedKey(t, purged, pool, start);
    ops := JoinOps(drop, SnapKey(purged, pool, ne - 1), nr);
    ApplyJoinOps(t, drop, SnapKey(purged, pool, ne - 1), nr);
  }
}
