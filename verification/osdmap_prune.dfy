/**
 * Trimming and pruning of old full OSD maps.
 *
 * Trimming drops every map below a version; pruning keeps a sparse set of
 * "pinned" full maps, one every `interval` versions, and erases the full
 * maps between them.  The pins are recorded in the `osdmap_manifest` entry
 * of the monitor store.  Versions are unbounded integers here.
 */
module OsdMapPrune {
  import opened Collections
  import opened MonitorDBStore
  import opened OsdMapModel
  import opened EpochClean
  import OsdTypes
  import Decimal

  const SERVICE: string := "osdmap"
  const MANIFEST_KEY: string := "osdmap_manifest"
  const FULL_PREFIX: string := "full"

  /** The store key of the full map of version `v`. */
  function FullKey(v: nat): string { CombineStrings(FULL_PREFIX, Decimal.NatToString(v)) }

  lemma FullKeyInjective(a: nat, b: nat)
    ensures FullKey(a) == FullKey(b) <==> a == b
  {
    CombineStringsInjective(FULL_PREFIX, Decimal.NatToString(a), Decimal.NatToString(b));
    if FullKey(a) == FullKey(b) {
      Decimal.NatToStringInjective(a, b);
    }
  }

  /** The mon_* options the pruner reads. */
  datatype PruneConf = PruneConf(
    enabled: bool,          // mon_osdmap_full_prune_enabled
    minOsdmapEpochs: nat,   // mon_min_osdmap_epochs
    pruneMin: nat,          // mon_osdmap_full_prune_min
    interval: nat,          // mon_osdmap_full_prune_interval
    txsize: nat)            // mon_osdmap_full_prune_txsize

  // -----------------------------------------------------------------------
  // The manifest: a std::set of pinned versions, kept here in ascending order.

  predicate Ascending(s: seq<nat>)
  {
    forall i, j :: 0 <= i < j < |s| ==> Below(s, i, j)
  }

  /** The i-th version comes before the j-th. */
  predicate Below(s: seq<nat>, i: int, j: int)
  {
    0 <= i < j < |s| && s[i] < s[j]
  }

  /** In an ascending sequence the first element is the least and the last the greatest. */
  lemma AscendingEnds(s: seq<nat>)
    requires Ascending(s) && |s| > 0
    ensures s[0] <= s[|s| - 1]
    ensures forall x :: x in s ==> s[0] <= x <= s[|s| - 1]
  {
    if |s| > 1 { assert Below(s, 0, |s| - 1); }
    forall x | x in s ensures s[0] <= x <= s[|s| - 1] {
      var k :| 0 <= k < |s| && s[k] == x;
      if 0 < k { assert Below(s, 0, k); }
      if k < |s| - 1 { assert Below(s, k, |s| - 1); }
    }
  }

  lemma AscendingTail(s: seq<nat>)
    requires Ascending(s) && |s| > 0
    ensures Ascending(s[1..])
  {
    forall i, j | 0 <= i < j < |s[1..]| ensures Below(s[1..], i, j) {
      assert Below(s, i + 1, j + 1);
    }
  }

  /** A head below the first element keeps a sequence ascending. */
  lemma ConsBelow(h: nat, s: seq<nat>)
    requires Ascending(s) && (|s| > 0 ==> h < s[0])
    ensures Ascending([h] + s)
  {
    var r := [h] + s;
    forall i, j | 0 <= i < j < |r| ensures Below(r, i, j) {
      if i == 0 {
        if j > 1 { assert Below(s, 0, j - 1); }
      } else {
        assert Below(s, i - 1, j - 1);
      }
    }
  }

  /** A version above the last keeps a sequence ascending. */
  lemma SnocAbove(s: seq<nat>, v: nat)
    requires Ascending(s) && (|s| > 0 ==> s[|s| - 1] < v)
    ensures Ascending(s + [v])
  {
    var r := s + [v];
    forall i, j | 0 <= i < j < |r| ensures Below(r, i, j) {
      if j < |s| {
        assert Below(s, i, j);
      } else if i < |s| - 1 {
        assert Below(s, i, |s| - 1);
      }
    }
  }

  datatype Manifest = Manifest(pinned: seq<nat>)

  predicate ManifestValid(m: Manifest) { Ascending(m.pinned) }

  function FirstPinned(m: Manifest): nat { if |m.pinned| == 0 then 0 else m.pinned[0] }
  function LastPinned(m: Manifest): nat { if |m.pinned| == 0 then 0 else m.pinned[|m.pinned| - 1] }

  predicate IsPinned(m: Manifest, v: nat) { v in m.pinned }

  /** The last pin is the greatest and the first the least. */
  lemma PinBounds(m: Manifest)
    requires ManifestValid(m)
    ensures forall v :: v in m.pinned ==> FirstPinned(m) <= v <= LastPinned(m)
  {
    if |m.pinned| > 0 {
      AscendingEnds(m.pinned);
    }
  }

  /** Inserts a version into an ascending sequence (std::set::insert). */
  function InsertSorted(s: seq<nat>, v: nat): (r: seq<nat>)
    requires Ascending(s)
    ensures Ascending(r)
    ensures forall x :: x in r <==> x in s || x == v
    ensures |s| > 0 && s[|s| - 1] < v ==> r == s + [v]
    decreases |s|
  {
    if |s| == 0 then [v]
    else
      AscendingEnds(s);
      if v < s[0] then ConsBelow(v, s); [v] + s
      else if v == s[0] then s
      else
        AscendingTail(s);
        var t := InsertSorted(s[1..], v);
        assert [s[0]] + s[1..] == s;
        ConsAscending(s[0], t, s[1..], v);
        [s[0]] + t
  }

  /** A head below every element of an ascending tail keeps the sequence ascending. */
  lemma ConsAscending(h: nat, t: seq<nat>, rest: seq<nat>, v: nat)
    requires Ascending(t) && Ascending([h] + rest)
    requires h < v && forall x :: x in t ==> x in rest || x == v
    ensures Ascending([h] + t)
  {
    if |t| > 0 && t[0] in rest {
      var k :| 0 <= k < |rest| && rest[k] == t[0];
      assert Below([h] + rest, 0, k + 1);
    }
    ConsBelow(h, t);
  }

  /** osdmap_manifest_t::pin. */
  function Pin(m: Manifest, v: nat): (r: Manifest)
    requires ManifestValid(m)
    ensures ManifestValid(r)
    ensures forall x :: IsPinned(r, x) <==> IsPinned(m, x) || x == v
  {
    Manifest(InsertSorted(m.pinned, v))
  }

  /** Drops the versions below `first` from an ascending sequence
   *  (pinned.erase(begin, find(first))). */
  function DropBelow(s: seq<nat>, first: nat): (r: seq<nat>)
    requires Ascending(s)
    ensures Ascending(r)
    ensures forall x :: x in r <==> x in s && x >= first
    ensures first in s ==> |r| > 0 && r[0] == first
    ensures |r| <= |s|
    ensures |r| > 0 ==> r[|r| - 1] == s[|s| - 1]
    decreases |s|
  {
    if |s| == 0 then s
    else
      AscendingEnds(s);
      if s[0] >= first then s
      else AscendingTail(s); DropBelow(s[1..], first)
  }

  /**
   * The byte form of the manifest written to the store (Ceph's versioned
   * encoding): ENCODE_START(1, 1) writes the version and compat bytes and
   * the payload's length as a 32-bit little-endian word; the payload is the
   * pinned set as a 32-bit count and then each pin as a 64-bit word.
   */
  function EncodeManifest(m: Manifest): (b: Bytes)
    ensures |b| == 10 + 8 * |m.pinned|
  {
    [1, 1] + LittleEndian(4 + 8 * |m.pinned|, 4) + LittleEndian(|m.pinned|, 4) + EncodePins(m.pinned)
  }

  function EncodePins(s: seq<nat>): (b: Bytes)
    ensures |b| == 8 * |s|
  {
    if |s| == 0 then [] else EncodeU64(s[0] % 0x1_0000_0000_0000_0000) + EncodePins(s[1..])
  }

  /** The i-th pin's word sits at offset 8 * i of the encoded pins. */
  lemma {:induction false} PinWord(s: seq<nat>, i: nat)
    requires i < |s|
    ensures EncodePins(s)[8 * i..8 * i + 8] == EncodeU64(s[i] % 0x1_0000_0000_0000_0000)
  {
    if i > 0 {
      PinWord(s[1..], i - 1);
      var e, t := EncodePins(s), EncodePins(s[1..]);
      assert e == EncodeU64(s[0] % 0x1_0000_0000_0000_0000) + t;
      forall j | 8 * i <= j < 8 * i + 8
        ensures e[j] == t[j - 8]
      {
      }
      assert e[8 * i..8 * i + 8] == t[8 * (i - 1)..8 * (i - 1) + 8];
    }
  }

  /**
   * Reading the stored manifest back: version and compat are 1, the
   * payload length and the pin count come back modulo 2^32, and every pin
   * comes back, modulo 2^64, from its own word.
   */
  lemma ManifestReadBack(m: Manifest)
    ensures var b := EncodeManifest(m);
            && b[0] == 1 && b[1] == 1
            && FromLittleEndian(b[2..6]) == (4 + 8 * |m.pinned|) % 0x1_0000_0000
            && FromLittleEndian(b[6..10]) == |m.pinned| % 0x1_0000_0000
            && forall i :: 0 <= i < |m.pinned| ==> DecodeU64(b[10 + 8 * i..]) == m.pinned[i] % 0x1_0000_0000_0000_0000
  {
    var b := EncodeManifest(m);
    var n := |m.pinned|;
    assert Pow256(4) == 0x1_0000_0000;
    assert b[2..6] == LittleEndian(4 + 8 * n, 4);
    LittleEndianRoundTrip(4 + 8 * n, 4);
    assert b[6..10] == LittleEndian(n, 4);
    LittleEndianRoundTrip(n, 4);
    forall i | 0 <= i < n
      ensures DecodeU64(b[10 + 8 * i..]) == m.pinned[i] % 0x1_0000_0000_0000_0000
    {
      PinWord(m.pinned, i);
      assert b[10 + 8 * i..][..8] == EncodePins(m.pinned)[8 * i..8 * i + 8];
      EncodeDecodeU64(m.pinned[i] % 0x1_0000_0000_0000_0000);
      assert EncodeU64(m.pinned[i] % 0x1_0000_0000_0000_0000)[..8] == EncodeU64(m.pinned[i] % 0x1_0000_0000_0000_0000);
    }
  }

  // -----------------------------------------------------------------------
  // Option checks

  /** _prune_sanitize_options: the options make sense for pruning. */
  function SanitizeOptions(c: PruneConf): (ok: bool)
    ensures ok ==> c.interval >= 2 && c.pruneMin > 0 && c.interval <= c.pruneMin && c.txsize >= c.interval - 1
    ensures c.interval >= 2 && c.pruneMin > 0 && c.interval <= c.pruneMin && c.txsize >= c.interval - 1 ==> ok
  {
    var r := c.interval != 0 && c.interval != 1;
    var r := r && c.pruneMin != 0;
    var r := r && !(c.interval > c.pruneMin);
    // with a zero interval the u64 `interval - 1` wraps, but r is already false
    r && !(c.interval > 0 && c.txsize < c.interval - 1)
  }

  /** last_to_pin: the newest version pruning may pin. */
  function LastToPin(last: nat, c: PruneConf): int { last - c.minOsdmapEpochs }

  /**
   * should_prune: there are more than mon_min_osdmap_epochs maps, at least
   * prune_min of them lie below last_to_pin, pins have not reached
   * last_to_pin, and another interval fits before it.
   */
  function ShouldPrune(first: nat, last: nat, c: PruneConf, hasManifest: bool, m: Manifest): (r: bool)
    ensures r ==> last - first > c.minOsdmapEpochs
    ensures r ==> LastToPin(last, c) - first >= c.pruneMin
    ensures r ==> LastPinned(m) + c.interval <= LastToPin(last, c)
    ensures r ==> !hasManifest || LastPinned(m) < LastToPin(last, c)
  {
    var lastToPin := LastToPin(last, c);
    if last - first <= c.minOsdmapEpochs then false
    else if lastToPin - first < c.pruneMin then false
    else if hasManifest && LastPinned(m) >= lastToPin then false
    else if LastPinned(m) + c.interval > lastToPin then false
    else true
  }

  /** Any of the four conditions alone stops pruning. */
  lemma ShouldPruneRefusals(first: nat, last: nat, c: PruneConf, hasManifest: bool, m: Manifest)
    ensures last - first <= c.minOsdmapEpochs ==> !ShouldPrune(first, last, c, hasManifest, m)
    ensures LastToPin(last, c) - first < c.pruneMin ==> !ShouldPrune(first, last, c, hasManifest, m)
    ensures hasManifest && LastPinned(m) >= LastToPin(last, c) ==> !ShouldPrune(first, last, c, hasManifest, m)
    ensures LastPinned(m) + c.interval > LastToPin(last, c) ==> !ShouldPrune(first, last, c, hasManifest, m)
  {
  }

  // -----------------------------------------------------------------------
  // do_prune

  /** The pin after k passes that start from p0: p0 + k*interval. */
  function PinAfter(p0: nat, interval: nat, k: nat): nat
  {
    if k == 0 then p0 else PinAfter(p0, interval, k - 1) + interval
  }

  /** The maps k passes erase: k*(interval - 1). */
  function ErasedAfter(removal: nat, k: nat): nat
  {
    if k == 0 then 0 else ErasedAfter(removal, k - 1) + removal
  }

  lemma {:induction false} PinAfterIsProduct(p0: nat, interval: nat, k: nat)
    ensures PinAfter(p0, interval, k) == p0 + k * interval
    ensures ErasedAfter(interval, k) == k * interval
  {
    if k > 0 {
      PinAfterIsProduct(p0, interval, k - 1);
    }
  }

  /** The pins k passes add: p0 + interval, p0 + 2*interval, ... */
  function NewPins(p0: nat, interval: nat, k: nat): (r: seq<nat>)
    ensures |r| == k
  {
    if k == 0 then [] else NewPins(p0, interval, k - 1) + [PinAfter(p0, interval, k)]
  }

  /** The versions the first k passes erase, in erase order: for each pass
   *  the versions strictly between its two pins. */
  function PrunedVersions(p0: nat, interval: nat, k: nat): (r: seq<nat>)
  {
    if k == 0 then []
    else
      var lo := PinAfter(p0, interval, k - 1);
      PrunedVersions(p0, interval, k - 1) + Range(lo + 1, lo + interval)
  }

  /** The versions a <= v < b in ascending order. */
  function Range(a: nat, b: nat): (r: seq<nat>)
    ensures |r| == if a <= b then b - a else 0
    ensures forall i :: 0 <= i < |r| ==> r[i] == a + i
  {
    if a <= b then seq(b - a, i => a + i) else []
  }

  function EraseOps(vs: seq<nat>): seq<Op>
  {
    seq(|vs|, i requires 0 <= i < |vs| => Op(OP_ERASE, SERVICE, FullKey(vs[i]), []))
  }

  /** The erase of the full map of version v. */
  function EraseFullOp(v: nat): Op { Op(OP_ERASE, SERVICE, FullKey(v), []) }

  /** The erases of the full maps a <= v < b, in ascending order. */
  function EraseRange(a: nat, b: nat): (ops: seq<Op>)
    decreases b
  {
    if b <= a then [] else EraseRange(a, b - 1) + [EraseFullOp(b - 1)]
  }

  /** The erases the first k passes of do_prune append. */
  function PrunedOps(p0: nat, interval: nat, k: nat): seq<Op>
  {
    if k == 0 then []
    else
      var lo := PinAfter(p0, interval, k - 1);
      PrunedOps(p0, interval, k - 1) + EraseRange(lo + 1, lo + interval)
  }

  lemma {:induction false} EraseRangeIsRange(a: nat, b: nat)
    ensures EraseRange(a, b) == EraseOps(Range(a, b))
    decreases b
  {
    if a < b {
      EraseRangeIsRange(a, b - 1);
      assert Range(a, b) == Range(a, b - 1) + [b - 1];
      EraseOpsConcat(Range(a, b - 1), [b - 1]);
    }
  }

  /** Appending a pass's erases to the erases of some versions erases those versions and the pass's range. */
  lemma ErasesAppend(ops: seq<Op>, vs: seq<nat>, a: nat, b: nat)
    requires ops == EraseOps(vs)
    ensures ops + EraseRange(a, b) == EraseOps(vs + Range(a, b))
  {
    EraseRangeIsRange(a, b);
    EraseOpsConcat(vs, Range(a, b));
  }

  /** The op list do_prune builds erases exactly the pruned versions. */
  lemma {:induction false} PrunedOpsAreErases(p0: nat, interval: nat, k: nat)
    ensures PrunedOps(p0, interval, k) == EraseOps(PrunedVersions(p0, interval, k))
    decreases k
  {
    if k > 0 {
      var lo := PinAfter(p0, interval, k - 1);
      PrunedOpsAreErases(p0, interval, k - 1);
      ErasesAppend(PrunedOps(p0, interval, k - 1), PrunedVersions(p0, interval, k - 1), lo + 1, lo + interval);
    }
  }

  /**
   * do_prune stops after k passes when k is the largest number of passes
   * that keeps both the erase count within the budget and the last pin at
   * or before last_to_pin.
   */
  predicate MaximalPasses(p0: nat, lastToPin: int, removal: nat, budget: nat, interval: nat, k: nat)
  {
    && ErasedAfter(removal, k) <= budget
    && PinAfter(p0, interval, k) <= lastToPin
    && (ErasedAfter(removal, k + 1) > budget || PinAfter(p0, interval, k + 1) > lastToPin)
  }

  /** The pins the manifest holds once prune_init has run. */
  function InitPins(first: nat, hasManifest: bool, m: Manifest): seq<nat>
  {
    if hasManifest then m.pinned else [first]
  }

  /** The pin the first pass starts from. */
  function StartPin(first: nat, hasManifest: bool, m: Manifest): nat
  {
    if hasManifest then LastPinned(m) else first
  }

  /** prune_init: pins first_committed when there is no manifest yet, and
   *  the manifest's last pin otherwise (which is already pinned). */
  function PruneInit(first: nat, hasManifest: bool, m: Manifest): (r: Manifest)
    requires ManifestValid(m)
    requires !hasManifest ==> m.pinned == []
    requires hasManifest ==> |m.pinned| > 0
    ensures r.pinned == InitPins(first, hasManifest, m)
    ensures ManifestValid(r) && LastPinned(r) == StartPin(first, hasManifest, m)
  {
    if hasManifest then
      assert m.pinned[|m.pinned| - 1] == LastPinned(m);
      InsertPresent(m.pinned, LastPinned(m));
      Pin(m, LastPinned(m))
    else
      Pin(m, first)
  }

  /**
   * do_prune: when pruning is enabled, the options are sane and
   * should_prune holds, pins one more map every `interval` versions and
   * erases the full maps in between, pass after pass, as long as the next
   * pin stays at or before last_to_pin and the erase count stays within
   * max(txsize, interval - 1); then writes the new manifest.  At least one
   * map is always pruned.  Returns whether the transaction was changed,
   * and the manifest it wrote.
   */
  method DoPrune(tx: Transaction, first: nat, last: nat, c: PruneConf, hasManifest: bool, m: Manifest)
    returns (changed: bool, pruned: Manifest)
    requires ManifestValid(m)
    requires !hasManifest ==> m.pinned == []
    requires hasManifest ==> |m.pinned| > 0 && FirstPinned(m) == first && LastPinned(m) < last
    modifies tx
    ensures changed <==> c.enabled && SanitizeOptions(c) && ShouldPrune(first, last, c, hasManifest, m)
    ensures !changed ==> tx.ops == old(tx.ops) && pruned == m
    ensures changed ==>
              var p0 := StartPin(first, hasManifest, m);
              var k := |pruned.pinned| - |InitPins(first, hasManifest, m)|;
              && k >= 1
              && MaximalPasses(p0, LastToPin(last, c), RemovalInterval(c), TxBudget(c), c.interval, k)
              && pruned.pinned == InitPins(first, hasManifest, m) + NewPins(p0, c.interval, k)
              && tx.ops == old(tx.ops) + PrunedOps(p0, c.interval, k)
                           + [Op(OP_PUT, SERVICE, MANIFEST_KEY, EncodeManifest(pruned))]
    ensures ManifestValid(pruned)
  {
    if !c.enabled || !SanitizeOptions(c) || !ShouldPrune(first, last, c, hasManifest, m) {
      return false, m;
    }
    var lastToPin := LastToPin(last, c);
    var interval := c.interval;
    var txsize := c.txsize;
    var manifest := PruneInit(first, hasManifest, m);
    var removalInterval := interval - 1;
    if txsize < removalInterval {
      txsize := removalInterval;
    }
    assert removalInterval > 0;

    ghost var p0 := StartPin(first, hasManifest, m);
    ghost var base := InitPins(first, hasManifest, m);
    assert p0 + interval <= lastToPin;
    var numPruned;
    ghost var k;
    manifest, numPruned, k := PrunePasses(tx, manifest, p0, interval, lastToPin, txsize);
    assert numPruned > 0;
    tx.Put(SERVICE, MANIFEST_KEY, EncodeManifest(manifest));
    return true, manifest;
  }

  /**
   * The pass loop of do_prune, from a manifest whose last pin is p0: while
   * another pass fits the erase budget `txsize` and its pin stays at or
   * before last_to_pin, pin the next version and erase the maps before it.
   * Returns the manifest, the number of maps erased and (for the proof) the
   * number of passes.
   */
  method PrunePasses(tx: Transaction, manifest0: Manifest, ghost p0: nat, interval: nat, lastToPin: int, txsize: nat)
    returns (manifest: Manifest, numPruned: nat, ghost k: nat)
    requires ManifestValid(manifest0) && |manifest0.pinned| > 0 && LastPinned(manifest0) == p0
    requires interval >= 2 && txsize >= interval - 1
    requires p0 + interval <= lastToPin
    modifies tx
    ensures k >= 1
    ensures MaximalPasses(p0, lastToPin, interval - 1, txsize, interval, k)
    ensures numPruned == ErasedAfter(interval - 1, k)
    ensures manifest.pinned == manifest0.pinned + NewPins(p0, interval, k)
    ensures ManifestValid(manifest) && LastPinned(manifest) == PinAfter(p0, interval, k)
    ensures tx.ops == old(tx.ops) + PrunedOps(p0, interval, k)
  {
    var removalInterval := interval - 1;
    ghost var base := manifest0.pinned;
    ghost var ops0 := tx.ops;
    manifest := manifest0;
    k := 0;
    numPruned := 0;
    var lastPinned := LastPinned(manifest);
    while numPruned + removalInterval <= txsize
      invariant numPruned == ErasedAfter(removalInterval, k) <= txsize
      invariant lastPinned == PinAfter(p0, interval, k) <= lastToPin
      invariant LastPinned(manifest) == lastPinned
      invariant manifest.pinned == base + NewPins(p0, interval, k)
      invariant tx.ops == ops0 + PrunedOps(p0, interval, k)
      decreases txsize - numPruned
    {
      lastPinned := LastPinned(manifest);
      if lastPinned + interval > lastToPin {
        break;
      }
      var n;
      manifest, n := OnePass(tx, manifest, base, p0, interval, k, ops0);
      numPruned := numPruned + n;
      k := k + 1;
      lastPinned := LastPinned(manifest);
    }
    PassesEnd(p0, lastToPin, interval, txsize, k);
    PinsAscending(base, p0, interval, k);
  }

  /** The loop stops, having run at least once, exactly when the next pass
   *  would overrun the transaction budget or last_to_pin. */
  lemma PassesEnd(p0: nat, lastToPin: int, interval: nat, txsize: nat, k: nat)
    requires interval >= 2 && txsize >= interval - 1 && p0 + interval <= lastToPin
    requires ErasedAfter(interval - 1, k) <= txsize && PinAfter(p0, interval, k) <= lastToPin
    requires ErasedAfter(interval - 1, k) + (interval - 1) > txsize || PinAfter(p0, interval, k) + interval > lastToPin
    ensures k >= 1 && MaximalPasses(p0, lastToPin, interval - 1, txsize, interval, k)
  {
  }

  /** One pass of do_prune: pins last_pinned + interval and erases the full
   *  maps strictly between the two pins. */
  method OnePass(tx: Transaction, manifest: Manifest, ghost base: seq<nat>, ghost p0: nat, interval: nat,
                 ghost k: nat, ghost ops0: seq<Op>)
    returns (next: Manifest, n: nat)
    requires Ascending(base) && |base| > 0 && base[|base| - 1] == p0 && interval >= 2
    requires manifest.pinned == base + NewPins(p0, interval, k)
    requires tx.ops == ops0 + PrunedOps(p0, interval, k)
    modifies tx
    ensures n == interval - 1
    ensures next.pinned == base + NewPins(p0, interval, k + 1)
    ensures LastPinned(next) == PinAfter(p0, interval, k + 1)
    ensures tx.ops == ops0 + PrunedOps(p0, interval, k + 1)
  {
    PassPins(manifest, base, p0, interval, k);
    var lastPinned := LastPinned(manifest);
    var nextPinned := lastPinned + interval;
    next := Pin(manifest, nextPinned);
    n := ErasePass(tx, lastPinned, nextPinned);
    PassOps(ops0, p0, interval, k, lastPinned);
  }

  /** One pass pins the next version after the last pin, which extends the new pins by one. */
  lemma PassPins(manifest: Manifest, base: seq<nat>, p0: nat, interval: nat, k: nat)
    requires Ascending(base) && |base| > 0 && base[|base| - 1] == p0 && interval >= 2
    requires manifest.pinned == base + NewPins(p0, interval, k)
    ensures ManifestValid(manifest) && LastPinned(manifest) == PinAfter(p0, interval, k)
    ensures Pin(manifest, PinAfter(p0, interval, k) + interval).pinned == base + NewPins(p0, interval, k + 1)
    ensures LastPinned(Pin(manifest, PinAfter(p0, interval, k) + interval)) == PinAfter(p0, interval, k + 1)
  {
    PinsAscending(base, p0, interval, k);
    var s, v := manifest.pinned, PinAfter(p0, interval, k) + interval;
    assert |s| == |base| + k;
    assert s[|s| - 1] == PinAfter(p0, interval, k);
    assert InsertSorted(s, v) == s + [v];
    assert v == PinAfter(p0, interval, k + 1);
    assert NewPins(p0, interval, k + 1) == NewPins(p0, interval, k) + [v];
    ConcatAssoc(base, NewPins(p0, interval, k), [v]);
  }

  lemma ConcatAssoc<T>(a: seq<T>, b: seq<T>, c: seq<T>)
    ensures (a + b) + c == a + (b + c)
  {
  }

  /** interval - 1: the maps one pass erases (options that pass the
   *  sanitiser have interval >= 2). */
  function RemovalInterval(c: PruneConf): nat { if c.interval == 0 then 0 else c.interval - 1 }

  /** The erase budget of one do_prune: txsize, raised to one full pass. */
  function TxBudget(c: PruneConf): nat
  {
    if c.txsize < RemovalInterval(c) then RemovalInterval(c) else c.txsize
  }

  /** One more pass appends its erases to the transaction. */
  lemma PassOps(ops0: seq<Op>, p0: nat, interval: nat, k: nat, lo: nat)
    requires lo == PinAfter(p0, interval, k)
    ensures (ops0 + PrunedOps(p0, interval, k)) + EraseRange(lo + 1, lo + interval) == ops0 + PrunedOps(p0, interval, k + 1)
  {
    ConcatAssoc(ops0, PrunedOps(p0, interval, k), EraseRange(lo + 1, lo + interval));
  }

  lemma EraseOpsConcat(a: seq<nat>, b: seq<nat>)
    ensures EraseOps(a + b) == EraseOps(a) + EraseOps(b)
  {
  }

  /** One pass of do_prune: erases the full maps strictly between two
   *  consecutive pins, in ascending order, and counts them. */
  method ErasePass(tx: Transaction, lastPinned: nat, nextPinned: nat) returns (n: nat)
    requires lastPinned < nextPinned
    modifies tx
    ensures n == nextPinned - lastPinned - 1
    ensures tx.ops == old(tx.ops) + EraseRange(lastPinned + 1, nextPinned)
  {
    n := 0;
    var v := lastPinned + 1;
    while v < nextPinned
      invariant lastPinned + 1 <= v <= nextPinned
      invariant n == v - lastPinned - 1
      invariant tx.ops == old(tx.ops) + EraseRange(lastPinned + 1, v)
    {
      tx.Erase(SERVICE, FullKey(v));
      n := n + 1;
      v := v + 1;
    }
  }

  lemma {:induction false} PinAfterMonotone(p0: nat, interval: nat, a: nat, b: nat)
    requires a <= b
    ensures PinAfter(p0, interval, a) <= PinAfter(p0, interval, b)
    ensures interval > 0 && a < b ==> PinAfter(p0, interval, a) < PinAfter(p0, interval, b)
    decreases b
  {
    if a < b {
      PinAfterMonotone(p0, interval, a, b - 1);
    }
  }

  /** The manifest stays ascending as passes append pins above the start pin. */
  lemma {:induction false} PinsAscending(base: seq<nat>, p0: nat, interval: nat, k: nat)
    requires Ascending(base) && |base| > 0 && base[|base| - 1] == p0 && interval > 0
    ensures Ascending(base + NewPins(p0, interval, k))
    ensures (base + NewPins(p0, interval, k))[|base| + k - 1] == PinAfter(p0, interval, k)
    decreases k
  {
    if k > 0 {
      PinsAscending(base, p0, interval, k - 1);
      var s := base + NewPins(p0, interval, k - 1);
      assert base + NewPins(p0, interval, k) == s + [PinAfter(p0, interval, k)];
      SnocAbove(s, PinAfter(p0, interval, k));
      assert (s + [PinAfter(p0, interval, k)])[|s|] == PinAfter(p0, interval, k);
    } else {
      assert base + NewPins(p0, interval, k) == base;
    }
  }

  lemma {:induction false} NewPinsAre(p0: nat, interval: nat, k: nat)
    ensures forall s :: 0 <= s < k ==> NewPins(p0, interval, k)[s] == PinAfter(p0, interval, s + 1)
    decreases k
  {
    if k > 0 {
      NewPinsAre(p0, interval, k - 1);
    }
  }

  /** Which pass erased each pruned version: it lies strictly between the
   *  two pins of some pass t < k. */
  lemma {:induction false} PrunedBetweenPins(p0: nat, interval: nat, k: nat, v: nat)
    requires v in PrunedVersions(p0, interval, k)
    ensures exists t :: 0 <= t < k && PinAfter(p0, interval, t) < v < PinAfter(p0, interval, t + 1)
    decreases k
  {
    var prev := PrunedVersions(p0, interval, k - 1);
    if v in prev {
      PrunedBetweenPins(p0, interval, k - 1, v);
    } else {
      var t := k - 1;
      assert PinAfter(p0, interval, t) < v < PinAfter(p0, interval, t + 1);
    }
  }

  /** Conversely every version between the start pin and the last new pin
   *  that is not itself a pin is pruned. */
  lemma {:induction false} PrunedComplete(p0: nat, interval: nat, k: nat, v: nat)
    requires p0 < v < PinAfter(p0, interval, k)
    requires forall s :: 1 <= s < k ==> v != PinAfter(p0, interval, s)
    ensures v in PrunedVersions(p0, interval, k)
    decreases k
  {
    var lo := PinAfter(p0, interval, k - 1);
    if v < lo {
      PrunedComplete(p0, interval, k - 1, v);
    } else {
      assert v != lo;
      assert v - lo - 1 < |Range(lo + 1, lo + interval)|;
      assert Range(lo + 1, lo + interval)[v - lo - 1] == v;
    }
  }

  /** No pruned version is pinned: the old pins are at or below the start
   *  pin and the new pins are the pass boundaries. */
  lemma PrunedNotPinned(first: nat, hasManifest: bool, m: Manifest, interval: nat, k: nat, v: nat)
    requires ManifestValid(m)
    requires hasManifest ==> |m.pinned| > 0
    requires v in PrunedVersions(StartPin(first, hasManifest, m), interval, k)
    ensures v !in InitPins(first, hasManifest, m) + NewPins(StartPin(first, hasManifest, m), interval, k)
  {
    var p0 := StartPin(first, hasManifest, m);
    PrunedBetweenPins(p0, interval, k, v);
    var t :| 0 <= t < k && PinAfter(p0, interval, t) < v < PinAfter(p0, interval, t + 1);
    PinAfterMonotone(p0, interval, 0, t);
    if hasManifest { PinBounds(m); }
    assert v !in InitPins(first, hasManifest, m);
    BetweenPinsNotNew(p0, interval, k, t, v);
  }

  /** A version strictly between two consecutive pass boundaries is none of the boundaries. */
  lemma BetweenPinsNotNew(p0: nat, interval: nat, k: nat, t: nat, v: nat)
    requires t < k && PinAfter(p0, interval, t) < v < PinAfter(p0, interval, t + 1)
    ensures v !in NewPins(p0, interval, k)
  {
    var pins := NewPins(p0, interval, k);
    NewPinsAre(p0, interval, k);
    forall s | 0 <= s < k ensures pins[s] != v {
      if s + 1 <= t {
        PinAfterMonotone(p0, interval, s + 1, t);
      } else {
        PinAfterMonotone(p0, interval, t + 1, s + 1);
      }
    }
  }

  // -----------------------------------------------------------------------
  // Trimming

  /** The manifest once trimming has moved first_committed to `first`:
   *  `first` is pinned and every pin below it is gone. */
  function TrimManifest(m: Manifest, first: nat): (r: Manifest)
    requires ManifestValid(m)
    ensures ManifestValid(r)
    ensures |r.pinned| > 0 && FirstPinned(r) == first
    ensures forall v: nat :: IsPinned(r, v) <==> v == first || (IsPinned(m, v) && v >= first)
  {
    Manifest(DropBelow(Pin(m, first).pinned, first))
  }

  /**
   * _prune_update_trimmed: after a trim to `first`, erases the manifest when
   * the trimmed one holds a single pin or its last pin is first + 1, and
   * writes the trimmed manifest otherwise.
   */
  method PruneUpdateTrimmed(tx: Transaction, m: Manifest, first: nat) returns (trimmed: Manifest)
    requires ManifestValid(m)
    modifies tx
    ensures trimmed == TrimManifest(m, first)
    ensures LastPinned(trimmed) == first + 1 || |trimmed.pinned| == 1 ==>
              tx.ops == old(tx.ops) + [Op(OP_ERASE, SERVICE, MANIFEST_KEY, [])]
    ensures !(LastPinned(trimmed) == first + 1 || |trimmed.pinned| == 1) ==>
              tx.ops == old(tx.ops) + [Op(OP_PUT, SERVICE, MANIFEST_KEY, EncodeManifest(trimmed))]
  {
    var manifest := m;
    if !IsPinned(manifest, first) {
      manifest := Pin(manifest, first);
    }
    assert manifest == Pin(m, first) by {
      if IsPinned(m, first) {
        InsertPresent(m.pinned, first);
      }
    }
    manifest := Manifest(DropBelow(manifest.pinned, first));
    assert FirstPinned(manifest) == first;
    trimmed := manifest;
    if LastPinned(manifest) == first + 1 || |manifest.pinned| == 1 {
      tx.Erase(SERVICE, MANIFEST_KEY);
      return;
    }
    tx.Put(SERVICE, MANIFEST_KEY, EncodeManifest(manifest));
  }

  /** Inserting a version already present changes nothing. */
  lemma {:induction false} InsertPresent(s: seq<nat>, v: nat)
    requires Ascending(s) && v in s
    ensures InsertSorted(s, v) == s
    decreases |s|
  {
    if v != s[0] {
      var i :| 0 <= i < |s| && s[i] == v;
      assert Below(s, 0, i);
      assert s[1..][i - 1] == v;
      AscendingTail(s);
      InsertPresent(s[1..], v);
      assert s == [s[0]] + s[1..];
    }
  }

  /**
   * encode_trim_extra: the full map of the new first version is rewritten
   * (`full` is what the store holds for it), and the manifest is trimmed
   * when pruning has pinned maps below `first`.
   */
  method EncodeTrimExtra(tx: Transaction, hasManifest: bool, m: Manifest, first: nat, full: Bytes)
    requires ManifestValid(m)
    modifies tx
    ensures |tx.ops| >= |old(tx.ops)| + 1
    ensures tx.ops[..|old(tx.ops)| + 1] == old(tx.ops) + [Op(OP_PUT, SERVICE, FullKey(first), full)]
    ensures !(hasManifest && first > FirstPinned(m)) ==> |tx.ops| == |old(tx.ops)| + 1
    ensures hasManifest && first > FirstPinned(m) ==> |tx.ops| == |old(tx.ops)| + 2
    ensures hasManifest && first > FirstPinned(m) ==>
              var t := TrimManifest(m, first);
              tx.ops[|old(tx.ops)| + 1] == if LastPinned(t) == first + 1 || |t.pinned| == 1
                                          then Op(OP_ERASE, SERVICE, MANIFEST_KEY, [])
                                          else Op(OP_PUT, SERVICE, MANIFEST_KEY, EncodeManifest(t))
  {
    tx.Put(SERVICE, FullKey(first), full);
    ghost var after := tx.ops;
    if hasManifest && first > FirstPinned(m) {
      var _ := PruneUpdateTrimmed(tx, m, first);
      assert tx.ops[..|after|] == after;
    }
  }

  /** `floor` is the least of `bound` and the epochs the OSDs reported. */
  predicate MinOfEpochs(floor: nat, bound: nat, osdEpochs: map<int, nat>)
  {
    && floor <= bound
    && (forall o :: o in osdEpochs ==> floor <= osdEpochs[o])
    && (floor == bound || exists o :: o in osdEpochs && floor == osdEpochs[o])
  }

  /**
   * get_min_last_epoch_clean: the last-epoch-clean lower bound (returned
   * as `bound`, for the contract), lowered to the oldest epoch any OSD
   * reported.
   */
  method GetMinLastEpochClean(lec: LastEpochClean, m: OsdMap, osdEpochs: map<int, nat>)
    returns (floor: nat, ghost bound: nat)
    ensures lec.IsLowerBound(m, bound) && MinOfEpochs(floor, bound, osdEpochs)
    ensures forall o :: o in osdEpochs ==> floor <= osdEpochs[o]
    ensures floor > 0 ==> forall p :: p in m.pools ==> lec.Covers(m, p)
    ensures lec.Valid() && floor > 0 ==>
              forall p, ps :: p in m.pools && p in lec.reportByPool && 0 <= ps < m.pools[p].pgNum ==>
                ps < |lec.reportByPool[p].epochByPg| && floor <= lec.reportByPool[p].epochByPg[ps]
  {
    var lower := lec.GetLowerBound(m);
    bound := lower;
    floor := lower;
    var todo := osdEpochs.Keys;
    while todo != {}
      invariant forall o :: o in todo ==> o in osdEpochs
      invariant floor <= bound
      invariant forall o :: o in osdEpochs && o !in todo ==> floor <= osdEpochs[o]
      invariant floor == bound || exists o :: o in osdEpochs && o !in todo && floor == osdEpochs[o]
      decreases todo
    {
      var o := Pick(todo);
      if osdEpochs[o] < floor {
        floor := osdEpochs[o];
      }
      todo := todo - {o};
    }
  }

  /** get_lower_bound and get_min_last_epoch_clean have one answer each:
   *  the contracts above fix both values. */
  lemma MinLastEpochCleanUnique(lec: LastEpochClean, m: OsdMap, osdEpochs: map<int, nat>,
                                b1: nat, f1: nat, b2: nat, f2: nat)
    requires lec.IsLowerBound(m, b1) && MinOfEpochs(f1, b1, osdEpochs)
    requires lec.IsLowerBound(m, b2) && MinOfEpochs(f2, b2, osdEpochs)
    ensures b1 == b2 && f1 == f2
  {
  }

  /** The monitor-side inputs get_trim_to reads. */
  datatype TrimConf = TrimConf(
    debugBlockTrim: bool,   // mon_debug_block_osdmap_trim
    forceTrimTo: int,       // mon_osd_force_trim_to
    minOsdmapEpochs: nat)   // mon_min_osdmap_epochs

  /** The version get_trim_to aims at: mon_osd_force_trim_to when it is set
   *  and below last_committed, otherwise the minimum last-epoch-clean. */
  function TrimTarget(floor: nat, c: TrimConf, last: nat): nat
  {
    if 0 < c.forceTrimTo < last then c.forceTrimTo else floor
  }

  /**
   * get_trim_to once the minimum last-epoch-clean `floor` is known: the
   * target, held back to last_committed - mon_min_osdmap_epochs (0 when
   * fewer maps exist) so that that many maps remain, and trimmed to only
   * when above first_committed.
   */
  function TrimFrom(floor: nat, c: TrimConf, first: nat, last: nat): (r: nat)
    ensures r > 0 ==> r > first && r + c.minOsdmapEpochs <= last
    ensures r <= TrimTarget(floor, c, last)
    ensures var t := TrimTarget(floor, c, last);
            t + c.minOsdmapEpochs <= last && t > first ==> r == t
    ensures var t := TrimTarget(floor, c, last);
            t + c.minOsdmapEpochs > last && c.minOsdmapEpochs < last && last - c.minOsdmapEpochs > first ==>
              r == last - c.minOsdmapEpochs
    ensures r == 0 || r == TrimTarget(floor, c, last) || r == last - c.minOsdmapEpochs
  {
    var t := TrimTarget(floor, c, last);
    var held := if t + c.minOsdmapEpochs > last then
                  (if c.minOsdmapEpochs < last then last - c.minOsdmapEpochs else 0)
                else t;
    if held > first then held else 0
  }

  /**
   * get_trim_to: 0 (do not trim) without a quorum, while PGs are being
   * created, or when trimming is blocked; otherwise TrimFrom of the
   * minimum last-epoch-clean.
   */
  method GetTrimTo(quorumEmpty: bool, creatingPgsEmpty: bool, c: TrimConf, first: nat, last: nat,
                   lec: LastEpochClean, m: OsdMap, osdEpochs: map<int, nat>) returns (r: nat)
    ensures quorumEmpty || !creatingPgsEmpty || c.debugBlockTrim ==> r == 0
    ensures !(quorumEmpty || !creatingPgsEmpty || c.debugBlockTrim) ==>
              exists b: nat, f: nat :: lec.IsLowerBound(m, b) && MinOfEpochs(f, b, osdEpochs)
                                       && r == TrimFrom(f, c, first, last)
    ensures r > 0 ==> r > first && r + c.minOsdmapEpochs <= last
    ensures r > 0 && !(0 < c.forceTrimTo < last) ==> forall o :: o in osdEpochs ==> r <= osdEpochs[o]
    ensures r > 0 && !(0 < c.forceTrimTo < last) ==> forall p :: p in m.pools ==> lec.Covers(m, p)
    ensures r > 0 && !(0 < c.forceTrimTo < last) && lec.Valid() ==>
              forall p, ps :: p in m.pools && p in lec.reportByPool && 0 <= ps < m.pools[p].pgNum ==>
                ps < |lec.reportByPool[p].epochByPg| && r <= lec.reportByPool[p].epochByPg[ps]
  {
    if quorumEmpty || !creatingPgsEmpty || c.debugBlockTrim {
      return 0;
    }
    var lowest, bound := GetMinLastEpochClean(lec, m, osdEpochs);
    var floor := lowest;
    if c.forceTrimTo > 0 && c.forceTrimTo < last {
      floor := c.forceTrimTo;
    }
    var min := c.minOsdmapEpochs;
    if floor + min > last {
      if min < last {
        floor := last - min;
      } else {
        floor := 0;
      }
    }
    if floor > first {
      r := floor;
    } else {
      r := 0;
    }
    assert r == TrimFrom(lowest, c, first, last);
    assert lec.IsLowerBound(m, bound) && MinOfEpochs(lowest, bound, osdEpochs);
  }
}
