/**
 * The OSD state rules of the monitor: the safety gates consulted before an
 * OSD is marked up, down, in or out; the full-flag report; up_thru
 * updates; the boot handler's view of the old state; and the clean-up of
 * blank state toggles before the pending incremental is encoded.
 */
module OsdStateRules {
  import opened Collections
  import opened OsdMapModel

  /** A configured ratio (mon_osd_min_up_ratio, mon_osd_min_in_ratio) as
   *  the fraction num/den; the monitor compares floats. */
  datatype Ratio = Ratio(num: nat, den: nat)

  /** `(float)count / (float)total < ratio` for total > 0, without division. */
  predicate BelowRatio(count: int, total: nat, r: Ratio)
  {
    count * r.den < r.num * total
  }

  /** is_no<flag>(i): the flag is on the OSD itself, or on one of its CRUSH
   *  ancestors or its device class; those group flags are an input, since
   *  CRUSH is not part of this model. */
  predicate NoFlag(m: OsdMap, i: int, f: OsdFlag, groupFlags: Mask)
  {
    HasOsdFlag(m, i, f) || f in groupFlags
  }

  /** The up count once the pending incremental applies. */
  function ProjectedUp(m: OsdMap, inc: Incremental): int
  {
    NumUpOsds(m) - NetMarkedDown(m, inc)
  }

  /** The in count once the pending incremental applies. */
  function ProjectedIn(m: OsdMap, inc: Incremental): int
  {
    NumInOsds(m) - NetMarkedOut(m, inc)
  }

  /** can_mark_down: refused for a nodown OSD, when there are no OSDs, and
   *  when the projected up ratio is already below mon_osd_min_up_ratio. */
  function CanMarkDown(m: OsdMap, inc: Incremental, i: int, groupFlags: Mask, minUp: Ratio): (ok: bool)
    ensures NoFlag(m, i, NODOWN, groupFlags) ==> !ok
    ensures NumOsds(m) == 0 ==> !ok
    ensures ok <==> !NoFlag(m, i, NODOWN, groupFlags) && NumOsds(m) > 0
                    && !BelowRatio(ProjectedUp(m, inc), NumOsds(m), minUp)
  {
    if NoFlag(m, i, NODOWN, groupFlags) then false
    else if NumOsds(m) == 0 then false
    else !BelowRatio(ProjectedUp(m, inc), NumOsds(m), minUp)
  }

  /** can_mark_up: refused only for a noup OSD. */
  function CanMarkUp(m: OsdMap, i: int, groupFlags: Mask): (ok: bool)
    ensures ok <==> !NoFlag(m, i, NOUP, groupFlags)
  {
    !NoFlag(m, i, NOUP, groupFlags)
  }

  /** can_mark_out: the noout flag and the projected in ratio against
   *  mon_osd_min_in_ratio, the same check as can_mark_down. */
  function CanMarkOut(m: OsdMap, inc: Incremental, i: int, groupFlags: Mask, minIn: Ratio): (ok: bool)
    ensures NoFlag(m, i, NOOUT, groupFlags) ==> !ok
    ensures NumOsds(m) == 0 ==> !ok
    ensures ok <==> !NoFlag(m, i, NOOUT, groupFlags) && NumOsds(m) > 0
                    && !BelowRatio(ProjectedIn(m, inc), NumOsds(m), minIn)
  {
    if NoFlag(m, i, NOOUT, groupFlags) then false
    else if NumOsds(m) == 0 then false
    else !BelowRatio(ProjectedIn(m, inc), NumOsds(m), minIn)
  }

  /** can_mark_in: refused only for a noin OSD. */
  function CanMarkIn(m: OsdMap, i: int, groupFlags: Mask): (ok: bool)
    ensures ok <==> !NoFlag(m, i, NOIN, groupFlags)
  {
    !NoFlag(m, i, NOIN, groupFlags)
  }

  /** A stricter minimum ratio only refuses more: whatever passes the gate
   *  under `strict` passes it under any `lax` ratio that is no larger. */
  lemma MarkDownGateMonotone(m: OsdMap, inc: Incremental, i: int, g: Mask, strict: Ratio, lax: Ratio)
    requires strict.den > 0 && lax.den > 0
    requires lax.num * strict.den <= strict.num * lax.den
    requires CanMarkDown(m, inc, i, g, strict)
    ensures CanMarkDown(m, inc, i, g, lax)
  {
    var up := ProjectedUp(m, inc);
    var n := NumOsds(m);
    assert up * strict.den >= strict.num * n;
    MulLe(up, strict.den, lax.den, strict.num, lax.num, n);
  }

  /** From up*sd >= sn*n and ln*sd <= sn*ld (all positive but `up`), we get
   *  up*ld >= ln*n: cross-multiplying fractions. */
  lemma MulLe(up: int, sd: nat, ld: nat, sn: nat, ln: nat, n: nat)
    requires sd > 0 && ld > 0
    requires up * sd >= sn * n
    requires ln * sd <= sn * ld
    ensures up * ld >= ln * n
  {
    assert up * sd * ld >= sn * n * ld by {
      MulMono(up * sd, sn * n, ld);
    }
    assert sn * ld * n >= ln * sd * n by {
      MulMono(sn * ld, ln * sd, n);
    }
    assert up * ld * sd >= ln * n * sd;
    if up * ld < ln * n {
      MulStrict(up * ld, ln * n, sd);
    }
  }

  lemma MulMono(a: int, b: int, k: nat)
    requires a >= b
    ensures a * k >= b * k
  {
  }

  lemma MulStrict(a: int, b: int, k: nat)
    requires a < b && k > 0
    ensures a * k < b * k
  {
  }

  /** Staging a mark-down of an up OSD with nothing pending for it raises
   *  the net marked-down count by exactly one, so each further request
   *  sees one OSD fewer up. */
  lemma MarkDownCountsOne(m: OsdMap, inc: Incremental, o: int)
    requires IsUp(m, o) && o !in inc.newState
    ensures NetMarkedDown(m, PendingStateSet(inc, o, {UP}).0) == NetMarkedDown(m, inc) + 1
  {
    var inc2 := PendingStateSet(inc, o, {UP}).0;
    assert inc2.newState == inc.newState[o := {UP}] by {
      assert GetOr(inc.newState, o, {}) + {UP} == {UP};
    }
    var ups := UpOsds(m);
    assert forall x :: IsUp(m, x) <==> x in ups;
    ToggleInsert(inc.newState, o, ups);
    assert (set x | x in inc.newState && TogglesUp(inc, x) && IsUp(m, x))
        == (set x | x in inc.newState && UP in inc.newState[x] && x in ups);
    assert (set x | x in inc2.newState && TogglesUp(inc2, x) && IsUp(m, x))
        == (set x | x in inc2.newState && UP in inc2.newState[x] && x in ups);
    assert (set x | x in inc.newState && TogglesUp(inc, x) && !IsUp(m, x))
        == (set x | x in inc.newState && UP in inc.newState[x] && x !in ups);
    assert (set x | x in inc2.newState && TogglesUp(inc2, x) && !IsUp(m, x))
        == (set x | x in inc2.newState && UP in inc2.newState[x] && x !in ups);
  }

  /** Adding an UP toggle for a fresh up OSD adds it to the marked-down
   *  side and leaves the marked-up side alone. */
  lemma ToggleInsert(ns: map<int, Mask>, o: int, ups: set<int>)
    requires o !in ns && o in ups
    ensures var ns2 := ns[o := {UP}];
            (set x | x in ns2 && UP in ns2[x] && x in ups) == (set x | x in ns && UP in ns[x] && x in ups) + {o}
    ensures var ns2 := ns[o := {UP}];
            (set x | x in ns2 && UP in ns2[x] && x !in ups) == (set x | x in ns && UP in ns[x] && x !in ups)
  {
  }

  /**
   * The old state prepare_boot works from: the committed state (NEW for an
   * OSD that does not exist) XOR whatever is already pending.
   */
  function BootOldState(m: OsdMap, inc: Incremental, from: int): (s: Mask)
    ensures Exists(m, from) ==> s == ProjectedState(m, inc, from)
    ensures !Exists(m, from) && from !in inc.newState ==> s == {NEW}
  {
    Xor(if Exists(m, from) then GetState(m, from) else {NEW}, GetOr(inc.newState, from, {}))
  }

  /** The three fullness bits an OSD reports. */
  const FULL_MASK: Mask := {NEARFULL, BACKFILLFULL, FULL}

  /**
   * prepare_full: when the projected fullness bits differ from the reported
   * ones, the pending toggle for `from` is rewritten so that they match;
   * every other pending bit and every other OSD is left alone.
   */
  method PrepareFull(mon: OsdMonitor, from: int, state: Mask)
    modifies mon
    ensures mon.osdmap == old(mon.osdmap)
    ensures mon.pendingMetadata == old(mon.pendingMetadata) && mon.pendingMetadataRm == old(mon.pendingMetadataRm)
    ensures mon.pending == old(mon.pending).(newState := mon.pending.newState)
    ensures mon.pending.newState - {from} == old(mon.pending.newState) - {from}
    ensures ProjectedState(mon.osdmap, mon.pending, from) * FULL_MASK == state * FULL_MASK
    ensures ProjectedState(mon.osdmap, mon.pending, from) - FULL_MASK
            == ProjectedState(old(mon.osdmap), old(mon.pending), from) - FULL_MASK
    ensures ProjectedState(old(mon.osdmap), old(mon.pending), from) * FULL_MASK == state * FULL_MASK
            ==> mon.pending == old(mon.pending)
  {
    var want := state * FULL_MASK;
    var committed := GetState(mon.osdmap, from);
    var cur := committed;
    var hasPending := from in mon.pending.newState;
    if hasPending {
      cur := Xor(cur, mon.pending.newState[from]);
    }
    cur := cur * FULL_MASK;
    if cur != want {
      var entry: Mask := if hasPending then mon.pending.newState[from] - FULL_MASK else {};
      entry := entry + Xor(committed * FULL_MASK, want);
      mon.pending := mon.pending.(newState := mon.pending.newState[from := entry]);
    }
  }

  /** The up_thru an OSD will have: the pending value, else the committed one. */
  function EffectiveUpThru(m: OsdMap, inc: Incremental, from: int): nat
  {
    GetOr(inc.newUpThru, from, GetUpThru(m, from))
  }

  /** update_up_thru: only ever raises the effective up_thru. */
  method UpdateUpThru(mon: OsdMonitor, from: int, upThru: nat)
    modifies mon
    ensures mon.osdmap == old(mon.osdmap)
    ensures mon.pendingMetadata == old(mon.pendingMetadata) && mon.pendingMetadataRm == old(mon.pendingMetadataRm)
    ensures mon.pending == old(mon.pending).(newUpThru := mon.pending.newUpThru)
    ensures var before := EffectiveUpThru(old(mon.osdmap), old(mon.pending), from);
            EffectiveUpThru(mon.osdmap, mon.pending, from) == if upThru > before then upThru else before
    ensures var before := EffectiveUpThru(old(mon.osdmap), old(mon.pending), from);
            mon.pending.newUpThru == if upThru > before then old(mon.pending.newUpThru)[from := upThru]
                                     else old(mon.pending.newUpThru)
  {
    var oldUpThru := GetUpThru(mon.osdmap, from);
    if from in mon.pending.newUpThru {
      oldUpThru := mon.pending.newUpThru[from];
    }
    if upThru > oldUpThru {
      mon.pending := mon.pending.(newUpThru := mon.pending.newUpThru[from := upThru]);
    }
  }

  /** A pending weight that changes whether an OSD is in: one past max_osd
   *  that is non-zero, or one that flips an existing slot between zero and
   *  non-zero. */
  predicate ChangesIn(m: OsdMap, inc: Incremental, o: int)
    requires o in inc.newWeight
  {
    if o >= m.maxOsd then inc.newWeight[o] != 0
    else (inc.newWeight[o] != 0) != (GetWeight(m, o) != 0)
  }

  /**
   * encode_pending's clean-up of the toggles: blank entries, which would be
   * read as CEPH_OSD_UP, are erased; the results say whether the last
   * up-change and last in-change stamps are to be set.
   */
  method CleanPendingState(mon: OsdMonitor) returns (upChange: bool, inChange: bool)
    modifies mon
    ensures mon.osdmap == old(mon.osdmap)
    ensures mon.pendingMetadata == old(mon.pendingMetadata) && mon.pendingMetadataRm == old(mon.pendingMetadataRm)
    ensures mon.pending == old(mon.pending).(newState := mon.pending.newState)
    ensures mon.pending.newState == map o | o in old(mon.pending.newState) && old(mon.pending.newState)[o] != {}
                                      :: old(mon.pending.newState)[o]
    ensures forall o :: o in mon.pending.newState ==> mon.pending.newState[o] != {}
    ensures forall o :: ProjectedState(mon.osdmap, mon.pending, o) == ProjectedState(old(mon.osdmap), old(mon.pending), o)
    ensures forall o :: AppliedState(mon.osdmap, mon.pending, o) == ProjectedState(old(mon.osdmap), old(mon.pending), o)
    ensures upChange <==> (exists o :: o in mon.pending.newState && UP in mon.pending.newState[o])
                          || mon.pending.newUpClient != {}
    ensures inChange <==> exists o :: o in mon.pending.newWeight && ChangesIn(mon.osdmap, mon.pending, o)
  {
    ghost var ns0 := mon.pending.newState;
    var ns := mon.pending.newState;
    var todo := ns.Keys;
    upChange := false;
    while todo != {}
      invariant todo <= ns0.Keys
      invariant forall o :: o in ns ==> o in ns0 && ns[o] == ns0[o] && (o !in todo ==> ns[o] != {})
      invariant forall o :: o in ns0 && (o in todo || ns0[o] != {}) ==> o in ns
      invariant upChange <==> exists o :: o in ns && o !in todo && UP in ns[o]
      invariant mon.osdmap == old(mon.osdmap) && mon.pending == old(mon.pending)
      invariant mon.pendingMetadata == old(mon.pendingMetadata) && mon.pendingMetadataRm == old(mon.pendingMetadataRm)
      decreases todo
    {
      var o := Pick(todo);
      if ns[o] == {} {
        ns := ns - {o};
      } else if UP in ns[o] {
        upChange := true;
      }
      todo := todo - {o};
    }
    assert todo == {};
    forall o | o in ns ensures o in ns0 && ns0[o] != {} && ns[o] == ns0[o] {
      assert o !in todo;
    }
    ghost var cleaned := map o | o in ns0 && ns0[o] != {} :: ns0[o];
    forall o | o in cleaned ensures o in ns {
    }
    assert ns.Keys == cleaned.Keys;
    assert ns == cleaned;
    mon.pending := mon.pending.(newState := ns);
    if mon.pending.newUpClient != {} {
      upChange := true;
    }
    forall o ensures ProjectedState(mon.osdmap, mon.pending, o) == ProjectedState(old(mon.osdmap), old(mon.pending), o) {
      if o in ns0 && o !in ns {
        assert ns0[o] == {};
      }
    }
    forall o ensures AppliedState(mon.osdmap, mon.pending, o) == ProjectedState(mon.osdmap, mon.pending, o) {
      AppliedIsProjected(mon.osdmap, mon.pending, o);
    }
    inChange := false;
    ghost var pending1 := mon.pending;
    var weights := mon.pending.newWeight.Keys;
    while weights != {}
      invariant weights <= mon.pending.newWeight.Keys
      invariant !inChange
      invariant mon.pending == pending1 && mon.osdmap == old(mon.osdmap)
      invariant mon.pendingMetadata == old(mon.pendingMetadata) && mon.pendingMetadataRm == old(mon.pendingMetadataRm)
      invariant forall o :: o in mon.pending.newWeight && o !in weights ==> !ChangesIn(mon.osdmap, mon.pending, o)
      decreases weights
    {
      var o := Pick(weights);
      if ChangesIn(mon.osdmap, mon.pending, o) {
        inChange := true;
        break;
      }
      weights := weights - {o};
    }
  }
}
