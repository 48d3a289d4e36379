/**
 * The placement-group commands of the OSD monitor (prepare_pg_command):
 * pg-temp, primary-temp, repeer, pg-upmap, rm-pg-upmap, pg-upmap-items and
 * rm-pg-upmap-items.  Each validates against the committed map and stages
 * its mapping in the pending incremental.  The id vectors are built by
 * loops that check every OSD and skip duplicates; those loops are methods
 * proved against the list functions below.
 */
module PgCommands {
  import opened Wrappers
  import opened OsdTypes
  import opened OsdMapModel

  /** How a prepare handler ends: a proposal follows, the request waits
   *  for the pending proposal and is retried, or it is answered with an
   *  error code now or once the pending proposal has committed. */
  datatype Outcome = Update | Retry | Reply(err: int) | ReplyAfterProposal(err: int)

  /** OSDMap::pg_exists: the pool exists and the seed is below its pg_num. */
  predicate PgExists(m: OsdMap, pgid: PgId)
  {
    pgid.pool as int in m.pools && pgid.ps < m.pools[pgid.pool as int].pgNum
  }

  function PoolOfPg(m: OsdMap, pgid: PgId): Pool
    requires PgExists(m, pgid)
  {
    m.pools[pgid.pool as int]
  }

  // ---------------------------------------------------------------------
  // Lists

  predicate NoDup<T(==,!new)>(s: seq<T>)
  {
    forall i, j :: 0 <= i < j < |s| ==> s[i] != s[j]
  }

  /** The first occurrence of every element, in order: what a loop that
   *  skips elements already pushed leaves behind. */
  function Dedup<T(==,!new)>(s: seq<T>): (r: seq<T>)
    ensures |r| <= |s|
    ensures |r| == 0 <==> |s| == 0
  {
    if |s| == 0 then []
    else
      var d := Dedup(s[..|s| - 1]);
      var x := s[|s| - 1];
      if x in d then d else d + [x]
  }

  /** The deduplication holds no repeats and exactly the elements of the input. */
  lemma {:induction false} DedupSpec<T(!new)>(s: seq<T>)
    ensures NoDup(Dedup(s))
    ensures forall x :: x in Dedup(s) <==> x in s
  {
    if |s| > 0 {
      var p := s[..|s| - 1];
      DedupSpec(p);
      assert forall y :: y in s <==> y in p || y == s[|s| - 1];
    }
  }

  /** A list without repeats is its own deduplication. */
  lemma {:induction false} DedupOfDistinct<T(!new)>(s: seq<T>)
    requires NoDup(s)
    ensures Dedup(s) == s
  {
    if |s| > 0 {
      var p := s[..|s| - 1];
      assert NoDup(p);
      DedupOfDistinct(p);
      DedupSpec(p);
      assert s[|s| - 1] !in p;
      assert p + [s[|s| - 1]] == s;
    }
  }

  /** Deduplicating twice is deduplicating once. */
  lemma DedupIdempotent<T(!new)>(s: seq<T>)
    ensures Dedup(Dedup(s)) == Dedup(s)
  {
    DedupSpec(s);
    DedupOfDistinct(Dedup(s));
  }

  /** The (from, to) pairs of an even-length id list. */
  function PairsOf(ids: seq<int>): (r: seq<(int, int)>)
    requires |ids| % 2 == 0
    ensures |r| == |ids| / 2
    ensures forall k :: 0 <= k < |r| ==> r[k] == (ids[2 * k], ids[2 * k + 1])
    decreases |ids|
  {
    if |ids| == 0 then []
    else
      var rest := PairsOf(ids[2..]);
      assert forall k :: 0 <= k < |rest| ==> rest[k] == (ids[2 * (k + 1)], ids[2 * (k + 1) + 1]);
      [(ids[0], ids[1])] + rest
  }

  /** The pairs that actually remap something. */
  function NonIdentity(ps: seq<(int, int)>): (r: seq<(int, int)>)
    ensures |r| <= |ps|
  {
    if |ps| == 0 then []
    else
      var d := NonIdentity(ps[..|ps| - 1]);
      var p := ps[|ps| - 1];
      if p.0 == p.1 then d else d + [p]
  }

  /** The pairs kept are exactly those with different ends. */
  lemma {:induction false} NonIdentityMembers(ps: seq<(int, int)>)
    ensures forall p :: p in NonIdentity(ps) <==> p in ps && p.0 != p.1
  {
    if |ps| > 0 {
      NonIdentityMembers(ps[..|ps| - 1]);
      assert forall q :: q in ps <==> q in ps[..|ps| - 1] || q == ps[|ps| - 1];
    }
  }

  // ---------------------------------------------------------------------
  // osd pg-temp

  /**
   * The id list of `osd pg-temp` for a pg of `pool`: an empty list clears
   * the mapping; otherwise every OSD must exist (-ENOENT) and the list
   * length must lie within [min_size, size] (-EINVAL).  The list is
   * staged as given.
   */
  method BuildPgTemp(m: OsdMap, pool: Pool, ids: seq<int>) returns (r: Result<seq<int>, int>)
    ensures ids == [] ==> r == Ok([])
    ensures r == Err(-ENOENT) <==> exists i :: 0 <= i < |ids| && !Exists(m, ids[i])
    ensures r == Err(-EINVAL) <==>
              ids != [] && (forall i :: 0 <= i < |ids| ==> Exists(m, ids[i]))
              && (|ids| < pool.minSize || |ids| > pool.size)
    ensures r.Err? ==> r.error == -ENOENT || r.error == -EINVAL
    ensures r.Ok? ==> r.value == ids
    ensures r.Ok? && ids != [] ==> pool.minSize <= |r.value| <= pool.size
  {
    if ids == [] {
      return Ok([]);
    }
    var list: seq<int> := [];
    var j := 0;
    while j < |ids|
      invariant 0 <= j <= |ids|
      invariant list == ids[..j]
      invariant forall i :: 0 <= i < j ==> Exists(m, ids[i])
    {
      if !Exists(m, ids[j]) {
        return Err(-ENOENT);
      }
      list := list + [ids[j]];
      j := j + 1;
    }
    assert list == ids;
    if |list| < pool.minSize || |list| > pool.size {
      return Err(-EINVAL);
    }
    return Ok(list);
  }

  /**
   * `osd pg-temp`: a missing pg is -ENOENT; a pg with a pg_temp change
   * already pending is retried with nothing staged; otherwise the checked
   * list becomes the pg's pending pg_temp.  The command's ids are
   * `int64_t`; each is converted to `int` (AsInt) before it is checked and
   * stored.
   */
  method PgTemp(mon: OsdMonitor, pgid: PgId, ids: seq<int>) returns (out: Outcome)
    modifies mon
    ensures mon.osdmap == old(mon.osdmap)
    ensures mon.pendingMetadata == old(mon.pendingMetadata) && mon.pendingMetadataRm == old(mon.pendingMetadataRm)
    ensures !PgExists(mon.osdmap, pgid) ==> out == Reply(-ENOENT)
    ensures PgExists(mon.osdmap, pgid) && pgid in old(mon.pending.newPgTemp) ==> out == Retry
    ensures out == Update <==>
              PgExists(mon.osdmap, pgid) && pgid !in old(mon.pending.newPgTemp)
              && (ids == [] || ((forall i :: 0 <= i < |ids| ==> Exists(mon.osdmap, AsInt(ids[i])))
                                && PoolOfPg(mon.osdmap, pgid).minSize <= |ids| <= PoolOfPg(mon.osdmap, pgid).size))
    ensures out == Update ==> mon.pending == old(mon.pending).(newPgTemp := old(mon.pending.newPgTemp)[pgid := AsInts(ids)])
    ensures out != Update ==> mon.pending == old(mon.pending)
  {
    var m := mon.osdmap;
    if !PgExists(m, pgid) {
      return Reply(-ENOENT);
    }
    if pgid in mon.pending.newPgTemp {
      return Retry;
    }
    var r := BuildPgTemp(m, PoolOfPg(m, pgid), AsInts(ids));
    if r.Err? {
      return Reply(r.error);
    }
    mon.pending := mon.pending.(newPgTemp := mon.pending.newPgTemp[pgid := r.value]);
    return Update;
  }

  // ---------------------------------------------------------------------
  // osd primary-temp

  /**
   * `osd primary-temp`: the target is -1 (clear) or an existing OSD, else
   * -ENOENT; a cluster whose minimum client release is known and older
   * than firefly refuses with -EPERM.  No pending check is made.  The id
   * is an `int64_t`: it is compared with -1 as such, but `exists` and the
   * stored `int32_t` see its conversion AsInt.
   */
  method PrimaryTemp(mon: OsdMonitor, pgid: PgId, osd: int) returns (out: Outcome)
    modifies mon
    ensures mon.osdmap == old(mon.osdmap)
    ensures mon.pendingMetadata == old(mon.pendingMetadata) && mon.pendingMetadataRm == old(mon.pendingMetadataRm)
    ensures out == Reply(-ENOENT) <==> !PgExists(mon.osdmap, pgid) || (osd != -1 && !Exists(mon.osdmap, AsInt(osd)))
    ensures out == Reply(-EPERM) <==>
              PgExists(mon.osdmap, pgid) && (osd == -1 || Exists(mon.osdmap, AsInt(osd)))
              && mon.osdmap.requireMinCompatClient != 0 && mon.osdmap.requireMinCompatClient < RELEASE_FIREFLY
    ensures out == Update || out == Reply(-ENOENT) || out == Reply(-EPERM)
    ensures out == Update ==> mon.pending == old(mon.pending).(newPrimaryTemp := old(mon.pending.newPrimaryTemp)[pgid := AsInt(osd)])
    ensures out != Update ==> mon.pending == old(mon.pending)
  {
    var m := mon.osdmap;
    if !PgExists(m, pgid) {
      return Reply(-ENOENT);
    }
    if osd != -1 && !Exists(m, AsInt(osd)) {
      return Reply(-ENOENT);
    }
    if m.requireMinCompatClient != 0 && m.requireMinCompatClient < RELEASE_FIREFLY {
      return Reply(-EPERM);
    }
    mon.pending := mon.pending.(newPrimaryTemp := mon.pending.newPrimaryTemp[pgid := AsInt(osd)]);
    return Update;
  }

  // ---------------------------------------------------------------------
  // pg repeer

  /** An OSD repeer may pair with the primary: up (hence existing) and not
   *  the primary itself. */
  predicate RepeerPeer(m: OsdMap, primary: int, j: int)
  {
    j != primary && IsUp(m, j)
  }

  /** The lowest id in [i, max_osd) that is a repeer peer. */
  function OtherUpFrom(m: OsdMap, primary: int, i: int): (r: Option<int>)
    ensures r.None? <==> forall j :: i <= j < m.maxOsd ==> !RepeerPeer(m, primary, j)
    ensures r.Some? ==> i <= r.value < m.maxOsd && RepeerPeer(m, primary, r.value)
    ensures r.Some? ==> forall j :: i <= j < r.value ==> !RepeerPeer(m, primary, j)
    decreases m.maxOsd - i
  {
    if i >= m.maxOsd then None
    else if RepeerPeer(m, primary, i) then Some(i)
    else OtherUpFrom(m, primary, i + 1)
  }

  /** The scan of repeer over all OSD ids for a second OSD. */
  method FindRepeerPeer(m: OsdMap, primary: int) returns (r: Option<int>)
    ensures r == OtherUpFrom(m, primary, 0)
  {
    var i := 0;
    while i < m.maxOsd
      invariant 0 <= i
      invariant OtherUpFrom(m, primary, i) == OtherUpFrom(m, primary, 0)
      decreases m.maxOsd - i
    {
      if i == primary || !IsUp(m, i) || !Exists(m, i) {
        i := i + 1;
      } else {
        return Some(i);
      }
    }
    return None;
  }

  /**
   * `pg repeer`, given the pg's acting set and primary as CRUSH maps
   * them: with no primary -EAGAIN; with more than one acting OSD the
   * pg_temp becomes [primary]; otherwise [primary, first other up OSD],
   * or -EAGAIN when the cluster has no such OSD.
   */
  method Repeer(mon: OsdMonitor, pgid: PgId, acting: seq<int>, primary: int) returns (out: Outcome)
    modifies mon
    ensures mon.osdmap == old(mon.osdmap)
    ensures mon.pendingMetadata == old(mon.pendingMetadata) && mon.pendingMetadataRm == old(mon.pendingMetadataRm)
    ensures !PgExists(mon.osdmap, pgid) ==> out == Reply(-ENOENT)
    ensures PgExists(mon.osdmap, pgid) && primary < 0 ==> out == Reply(-EAGAIN)
    ensures PgExists(mon.osdmap, pgid) && primary >= 0 && |acting| > 1 ==>
              out == Update && mon.pending == old(mon.pending).(newPgTemp := old(mon.pending.newPgTemp)[pgid := [primary]])
    ensures PgExists(mon.osdmap, pgid) && primary >= 0 && |acting| <= 1 ==>
              match OtherUpFrom(mon.osdmap, primary, 0)
              case None => out == Reply(-EAGAIN)
              case Some(j) => out == Update && mon.pending == old(mon.pending).(newPgTemp := old(mon.pending.newPgTemp)[pgid := [primary, j]])
    ensures out != Update ==> mon.pending == old(mon.pending)
  {
    var m := mon.osdmap;
    if !PgExists(m, pgid) {
      return Reply(-ENOENT);
    }
    if primary < 0 {
      return Reply(-EAGAIN);
    }
    if |acting| > 1 {
      mon.pending := mon.pending.(newPgTemp := mon.pending.newPgTemp[pgid := [primary]]);
      return Update;
    }
    var peer := FindRepeerPeer(m, primary);
    if peer.None? {
      return Reply(-EAGAIN);
    }
    mon.pending := mon.pending.(newPgTemp := mon.pending.newPgTemp[pgid := [primary, peer.value]]);
    return Update;
  }

  /** A repeer pg_temp of two OSDs never names the primary twice, and both
   *  are up when the second was chosen by the scan. */
  lemma RepeerPairIsDistinct(m: OsdMap, primary: int)
    requires OtherUpFrom(m, primary, 0).Some?
    ensures var j := OtherUpFrom(m, primary, 0).value;
            NoDup([primary, j]) && IsUp(m, j) && 0 <= j < m.maxOsd
  {
  }

  // ---------------------------------------------------------------------
  // osd pg-upmap / pg-upmap-items and their rm- forms

  /** An id pg-upmap refuses: neither CRUSH_ITEM_NONE nor an existing OSD. */
  predicate BadUpmapOsd(m: OsdMap, osd: int)
  {
    osd != CRUSH_ITEM_NONE && !Exists(m, osd)
  }

  /**
   * The id list of `osd pg-upmap`: the length of the list as given must
   * lie within [min_size, size] (-EINVAL), each id must be
   * CRUSH_ITEM_NONE or an existing OSD (-ENOENT), repeats are skipped, and
   * an empty result is -EINVAL.
   */
  method BuildUpmap(m: OsdMap, pool: Pool, ids: seq<int>) returns (r: Result<seq<int>, int>)
    ensures r == Err(-EINVAL) <==> |ids| < pool.minSize || |ids| > pool.size || ids == []
    ensures r == Err(-ENOENT) <==>
              pool.minSize <= |ids| <= pool.size && exists i :: 0 <= i < |ids| && BadUpmapOsd(m, ids[i])
    ensures r.Err? ==> r.error == -ENOENT || r.error == -EINVAL
    ensures r.Ok? ==> r.value == Dedup(ids)
    ensures r.Ok? ==> 1 <= |r.value| <= pool.size && NoDup(r.value)
    ensures r.Ok? ==> forall o :: o in r.value ==> o == CRUSH_ITEM_NONE || Exists(m, o)
  {
    if |ids| < pool.minSize || |ids| > pool.size {
      return Err(-EINVAL);
    }
    var upmap: seq<int> := [];
    var j := 0;
    while j < |ids|
      invariant 0 <= j <= |ids|
      invariant upmap == Dedup(ids[..j])
      invariant forall i :: 0 <= i < j ==> !BadUpmapOsd(m, ids[i])
    {
      var osd := ids[j];
      if BadUpmapOsd(m, osd) {
        return Err(-ENOENT);
      }
      assert ids[..j + 1][..j] == ids[..j];
      if osd !in upmap {
        upmap := upmap + [osd];
      }
      j := j + 1;
    }
    assert ids[..j] == ids;
    DedupSpec(ids);
    if upmap == [] {
      return Err(-EINVAL);
    }
    return Ok(upmap);
  }

  /** A pair pg-upmap-items refuses: a real remapping whose source is not
   *  an existing OSD, or whose target is neither CRUSH_ITEM_NONE nor an
   *  existing OSD. */
  predicate BadUpmapPair(m: OsdMap, p: (int, int))
  {
    p.0 != p.1 && (!Exists(m, p.0) || BadUpmapOsd(m, p.1))
  }

  /**
   * The id list of `osd pg-upmap-items`: an odd count or more pairs than
   * the pool size is -EINVAL; pairs with from == to are skipped; a bad
   * remaining pair is -ENOENT; repeated pairs are skipped; nothing left
   * is -EINVAL.
   */
  method BuildUpmapItems(m: OsdMap, pool: Pool, ids: seq<int>) returns (r: Result<seq<(int, int)>, int>)
    ensures |ids| % 2 != 0 || |ids| / 2 > pool.size ==> r == Err(-EINVAL)
    ensures |ids| % 2 == 0 && |ids| / 2 <= pool.size ==>
              (r == Err(-ENOENT) <==> exists p :: p in PairsOf(ids) && BadUpmapPair(m, p))
              && (r == Err(-EINVAL) <==> (forall p :: p in PairsOf(ids) ==> !BadUpmapPair(m, p)) && NonIdentity(PairsOf(ids)) == [])
    ensures r.Err? ==> r.error == -ENOENT || r.error == -EINVAL
    ensures r.Ok? ==> |ids| % 2 == 0 && r.value == Dedup(NonIdentity(PairsOf(ids)))
    ensures r.Ok? ==> 1 <= |r.value| <= pool.size && NoDup(r.value)
    ensures r.Ok? ==> forall p :: p in r.value ==> p.0 != p.1 && Exists(m, p.0) && !BadUpmapOsd(m, p.1)
  {
    if |ids| % 2 != 0 || |ids| / 2 > pool.size {
      return Err(-EINVAL);
    }
    var pairs := PairsOf(ids);
    var bad, items := ScanUpmapPairs(m, pairs);
    if bad {
      return Err(-ENOENT);
    }
    UpmapItemsOutcome(m, pool, ids);
    if items == [] {
      return Err(-EINVAL);
    }
    return Ok(items);
  }

  /** The loop over the pairs: it stops at the first unusable pair, and
   *  otherwise collects the distinct non-identity pairs in order. */
  method ScanUpmapPairs(m: OsdMap, pairs: seq<(int, int)>) returns (bad: bool, items: seq<(int, int)>)
    ensures bad <==> exists p :: p in pairs && BadUpmapPair(m, p)
    ensures !bad ==> items == Dedup(NonIdentity(pairs))
  {
    items := [];
    var k := 0;
    while k < |pairs|
      invariant 0 <= k <= |pairs|
      invariant items == Dedup(NonIdentity(pairs[..k]))
      invariant forall i :: 0 <= i < k ==> !BadUpmapPair(m, pairs[i])
    {
      var pair := pairs[k];
      if BadUpmapPair(m, pair) {
        return true, items;
      }
      ItemsStep(pairs, k, items);
      if pair.0 != pair.1 && pair !in items {
        items := items + [pair];
      }
      k := k + 1;
    }
    assert pairs[..k] == pairs;
    forall p | p in pairs
      ensures !BadUpmapPair(m, p)
    {
      var i :| 0 <= i < |pairs| && pairs[i] == p;
    }
    return false, items;
  }

  /** With every pair acceptable, the items are distinct real remappings onto usable OSDs,
   *  no more than the pool's size, and none are left exactly when every pair is an identity. */
  lemma UpmapItemsOutcome(m: OsdMap, pool: Pool, ids: seq<int>)
    requires |ids| % 2 == 0 && |ids| / 2 <= pool.size
    requires forall p :: p in PairsOf(ids) ==> !BadUpmapPair(m, p)
    ensures var d := Dedup(NonIdentity(PairsOf(ids)));
            && (d == [] <==> NonIdentity(PairsOf(ids)) == [])
            && |d| <= pool.size && NoDup(d)
            && forall p :: p in d ==> p.0 != p.1 && Exists(m, p.0) && !BadUpmapOsd(m, p.1)
  {
    var n := NonIdentity(PairsOf(ids));
    var d := Dedup(n);
    DedupSpec(n);
    NonIdentityMembers(PairsOf(ids));
    assert |d| <= |n| <= |PairsOf(ids)|;
    forall p | p in d
      ensures p.0 != p.1 && Exists(m, p.0) && !BadUpmapOsd(m, p.1)
    {
      assert p in n && p in PairsOf(ids);
    }
  }

  /** One more pair through the pg-upmap-items loop. */
  lemma ItemsStep(ps: seq<(int, int)>, k: int, items: seq<(int, int)>)
    requires 0 <= k < |ps| && items == Dedup(NonIdentity(ps[..k]))
    ensures Dedup(NonIdentity(ps[..k + 1]))
            == (if ps[k].0 == ps[k].1 || ps[k] in items then items else items + [ps[k]])
  {
    assert ps[..k + 1][..k] == ps[..k];
  }

  /** A pair whose ids differ by 2^32 becomes an identity once converted,
   *  so pg-upmap-items skips it and, with nothing else left, refuses. */
  lemma WrappedPairIsIdentity(k: int)
    requires 0 <= k < 0x8000_0000
    ensures PairsOf(AsInts([k, U32 + k])) == [(k, k)]
    ensures NonIdentity(PairsOf(AsInts([k, U32 + k]))) == []
  {
  }

  /** The four upmap commands. */
  datatype UpmapOp = SetUpmap(ids: seq<int>) | RmUpmap | SetUpmapItems(itemIds: seq<int>) | RmUpmapItems

  /** A change to the same pg's upmap (or upmap items) is already pending. */
  predicate UpmapPending(inc: Incremental, op: UpmapOp, pgid: PgId)
  {
    if op.SetUpmap? || op.RmUpmap? then pgid in inc.newPgUpmap || pgid in inc.oldPgUpmap
    else pgid in inc.newPgUpmapItems || pgid in inc.oldPgUpmapItems
  }

  /** Every check of the upmap commands before the id list is looked at passes. */
  predicate UpmapGates(m: OsdMap, inc: Incremental, pgid: PgId, op: UpmapOp, featureErr: int)
  {
    && m.requireMinCompatClient >= RELEASE_LUMINOUS && featureErr == 0
    && PgExists(m, pgid) && (pgid.pool as int) !in inc.oldPools
    && !UpmapPending(inc, op, pgid)
  }

  /**
   * The upmap commands: clusters whose minimum client is older than
   * luminous refuse with -EPERM; `featureErr` is what the monitors'
   * feature check answered (-EAGAIN waits and retries, another negative
   * value is the reply); a missing pg is -ENOENT, a pg of a pool pending
   * removal is -ENOENT once that removal commits; a pending change of the
   * same kind on the pg is retried; then the command's list is staged, or
   * the pg is queued for removal of its mapping.  pg-upmap-items converts
   * each `int64_t` id to `int` (AsInt) before pairing them; pg-upmap keeps
   * the ids as given.
   */
  method PgUpmapCommand(mon: OsdMonitor, pgid: PgId, op: UpmapOp, featureErr: int) returns (out: Outcome)
    requires featureErr <= 0
    modifies mon
    ensures mon.osdmap == old(mon.osdmap)
    ensures mon.pendingMetadata == old(mon.pendingMetadata) && mon.pendingMetadataRm == old(mon.pendingMetadataRm)
    ensures mon.osdmap.requireMinCompatClient < RELEASE_LUMINOUS ==> out == Reply(-EPERM)
    ensures mon.osdmap.requireMinCompatClient >= RELEASE_LUMINOUS && featureErr == -EAGAIN ==> out == Retry
    ensures mon.osdmap.requireMinCompatClient >= RELEASE_LUMINOUS && featureErr < 0 && featureErr != -EAGAIN ==> out == Reply(featureErr)
    ensures out != Update ==> mon.pending == old(mon.pending)
    ensures out == Update ==> UpmapGates(mon.osdmap, old(mon.pending), pgid, op, featureErr)
    ensures UpmapGates(mon.osdmap, old(mon.pending), pgid, op, featureErr) && (op.RmUpmap? || op.RmUpmapItems?) ==>
              out == Update
    ensures UpmapGates(mon.osdmap, old(mon.pending), pgid, op, featureErr) && op.SetUpmap? ==>
              var pool := PoolOfPg(mon.osdmap, pgid);
              var ids := op.ids;
              && (|ids| < pool.minSize || |ids| > pool.size || ids == [] ==> out == Reply(-EINVAL))
              && (pool.minSize <= |ids| <= pool.size && (exists i :: 0 <= i < |ids| && BadUpmapOsd(mon.osdmap, ids[i])) ==>
                    out == Reply(-ENOENT))
              && (out == Update <==>
                    pool.minSize <= |ids| <= pool.size && ids != [] && forall i :: 0 <= i < |ids| ==> !BadUpmapOsd(mon.osdmap, ids[i]))
    ensures UpmapGates(mon.osdmap, old(mon.pending), pgid, op, featureErr) && op.SetUpmapItems? ==>
              var pool := PoolOfPg(mon.osdmap, pgid);
              if |op.itemIds| % 2 != 0 || |op.itemIds| / 2 > pool.size then out == Reply(-EINVAL)
              else
                var pairs := PairsOf(AsInts(op.itemIds));
                && ((exists p :: p in pairs && BadUpmapPair(mon.osdmap, p)) ==> out == Reply(-ENOENT))
                && ((forall p :: p in pairs ==> !BadUpmapPair(mon.osdmap, p)) ==>
                      (out == Update <==> NonIdentity(pairs) != []) && (out != Update ==> out == Reply(-EINVAL)))
    ensures mon.osdmap.requireMinCompatClient >= RELEASE_LUMINOUS && featureErr == 0 ==>
              (!PgExists(mon.osdmap, pgid) ==> out == Reply(-ENOENT))
              && (PgExists(mon.osdmap, pgid) && (pgid.pool as int) in old(mon.pending.oldPools) ==> out == ReplyAfterProposal(-ENOENT))
              && ((PgExists(mon.osdmap, pgid) && (pgid.pool as int) !in old(mon.pending.oldPools)
                   && UpmapPending(old(mon.pending), op, pgid)) ==> out == Retry)
    ensures out == Update && op.RmUpmap? ==> mon.pending == old(mon.pending).(oldPgUpmap := old(mon.pending.oldPgUpmap) + {pgid})
    ensures out == Update && op.RmUpmapItems? ==>
              mon.pending == old(mon.pending).(oldPgUpmapItems := old(mon.pending.oldPgUpmapItems) + {pgid})
    ensures out == Update && op.SetUpmap? ==>
              mon.pending == old(mon.pending).(newPgUpmap := old(mon.pending.newPgUpmap)[pgid := Dedup(op.ids)])
    ensures out == Update && op.SetUpmapItems? ==>
              |op.itemIds| % 2 == 0
              && mon.pending == old(mon.pending).(newPgUpmapItems := old(mon.pending.newPgUpmapItems)[pgid := Dedup(NonIdentity(PairsOf(AsInts(op.itemIds))))])
  {
    var m := mon.osdmap;
    if m.requireMinCompatClient < RELEASE_LUMINOUS {
      return Reply(-EPERM);
    }
    if featureErr == -EAGAIN {
      return Retry;
    }
    if featureErr < 0 {
      return Reply(featureErr);
    }
    if !PgExists(m, pgid) {
      return Reply(-ENOENT);
    }
    if pgid.pool as int in mon.pending.oldPools {
      return ReplyAfterProposal(-ENOENT);
    }
    if UpmapPending(mon.pending, op, pgid) {
      return Retry;
    }
    var pool := PoolOfPg(m, pgid);
    match op {
      case SetUpmap(ids) =>
        var r := BuildUpmap(m, pool, ids);
        if r.Err? {
          return Reply(r.error);
        }
        mon.pending := mon.pending.(newPgUpmap := mon.pending.newPgUpmap[pgid := r.value]);
      case RmUpmap =>
        mon.pending := mon.pending.(oldPgUpmap := mon.pending.oldPgUpmap + {pgid});
      case SetUpmapItems(ids) =>
        var r := BuildUpmapItems(m, pool, AsInts(ids));
        if r.Err? {
          return Reply(r.error);
        }
        mon.pending := mon.pending.(newPgUpmapItems := mon.pending.newPgUpmapItems[pgid := r.value]);
      case RmUpmapItems =>
        mon.pending := mon.pending.(oldPgUpmapItems := mon.pending.oldPgUpmapItems + {pgid});
    }
    return Update;
  }
}
