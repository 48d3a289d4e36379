/**
 * The OSD administration commands of prepare_osd_command
 * (src/mon/osd/osd_cmds.cc): the `osd tree` state filter, setmaxosd,
 * require-osd-release, down/out/in/rm/stop over a list of ids, the
 * per-OSD and per-crush-node no{up,down,in,out} groups, and `osd lost`.
 * Each command reads the committed map and stages its effect in the
 * pending incremental.
 */
module OsdCommands {
  import opened Wrappers
  import opened Collections
  import opened OsdMapModel
  import OsdLifecycle

  // ---------------------------------------------------------------------
  // osd tree: the state filter
  // ---------------------------------------------------------------------

  datatype DumpState = DumpUp | DumpDown | DumpIn | DumpOut | DumpDestroyed

  function DumpStateNamed(s: string): (r: Option<DumpState>)
  {
    if s == "up" then Some(DumpUp)
    else if s == "down" then Some(DumpDown)
    else if s == "in" then Some(DumpIn)
    else if s == "out" then Some(DumpOut)
    else if s == "destroyed" then Some(DumpDestroyed)
    else None
  }

  /** The states the recognised names of `states` select. */
  function NamedStates(states: seq<string>): (f: set<DumpState>)
    ensures forall d :: d in f <==> exists i :: 0 <= i < |states| && DumpStateNamed(states[i]) == Some(d)
  {
    if |states| == 0 then {}
    else
      var prefix := states[..|states| - 1];
      var last := DumpStateNamed(states[|states| - 1]);
      assert forall i :: 0 <= i < |prefix| ==> prefix[i] == states[i];
      NamedStates(prefix) + (if last.Some? then {last.value} else {})
  }

  /** A filter names at most one of in/out and at most one of
   *  up/down/destroyed. */
  predicate ConsistentFilter(f: set<DumpState>)
  {
    !({DumpIn, DumpOut} <= f)
    && !({DumpUp, DumpDown} <= f) && !({DumpUp, DumpDestroyed} <= f) && !({DumpDown, DumpDestroyed} <= f)
  }

  /** The pairwise exclusions say that at most one liveness state and at
   *  most one membership state are selected. */
  lemma ConsistentFilterIsAtMostOne(f: set<DumpState>)
    ensures ConsistentFilter(f) <==> (|f * {DumpIn, DumpOut}| <= 1 && |f * {DumpUp, DumpDown, DumpDestroyed}| <= 1)
  {
    var io := f * {DumpIn, DumpOut};
    var ud := f * {DumpUp, DumpDown, DumpDestroyed};
    if {DumpIn, DumpOut} <= f {
      assert {DumpIn, DumpOut} <= io;
      assert |{DumpIn, DumpOut}| == 2;
      SubsetCard({DumpIn, DumpOut}, io);
    } else {
      assert io <= {DumpIn} || io <= {DumpOut};
      if io <= {DumpIn} { SubsetCard(io, {DumpIn}); } else { SubsetCard(io, {DumpOut}); }
    }
    if !ConsistentFilter(f) && !({DumpIn, DumpOut} <= f) {
      var two: set<DumpState> :| two <= ud && |two| == 2 by {
        if {DumpUp, DumpDown} <= f { assert |{DumpUp, DumpDown}| == 2; }
        else if {DumpUp, DumpDestroyed} <= f { assert |{DumpUp, DumpDestroyed}| == 2; }
        else { assert |{DumpDown, DumpDestroyed}| == 2; }
      }
      SubsetCard(two, ud);
    }
    if ConsistentFilter(f) {
      assert ud <= {DumpUp} || ud <= {DumpDown} || ud <= {DumpDestroyed};
      if ud <= {DumpUp} { SubsetCard(ud, {DumpUp}); }
      else if ud <= {DumpDown} { SubsetCard(ud, {DumpDown}); }
      else { SubsetCard(ud, {DumpDestroyed}); }
    }
  }

  /** The `states` argument of `osd tree`: an unknown name, `in` together
   *  with `out`, or two of `up`/`down`/`destroyed` are -EINVAL. */
  method ParseTreeFilter(states: seq<string>) returns (r: Result<set<DumpState>, int>)
    ensures r.Err? ==> r.error == -EINVAL
    ensures r.Ok? <==> (forall i :: 0 <= i < |states| ==> DumpStateNamed(states[i]).Some?)
                       && ConsistentFilter(NamedStates(states))
    ensures r.Ok? ==> r.value == NamedStates(states)
  {
    var filter: set<DumpState> := {};
    var j := 0;
    while j < |states|
      invariant 0 <= j <= |states|
      invariant forall i :: 0 <= i < j ==> DumpStateNamed(states[i]).Some?
      invariant filter == NamedStates(states[..j])
    {
      var d := DumpStateNamed(states[j]);
      if d.None? {
        return Err(-EINVAL);
      }
      assert states[..j + 1][..j] == states[..j];
      filter := filter + {d.value};
      j := j + 1;
    }
    assert states[..j] == states;
    if {DumpIn, DumpOut} <= filter {
      return Err(-EINVAL);
    }
    if {DumpUp, DumpDown} <= filter || {DumpUp, DumpDestroyed} <= filter || {DumpDown, DumpDestroyed} <= filter {
      return Err(-EINVAL);
    }
    return Ok(filter);
  }

  // ---------------------------------------------------------------------
  // osd setmaxosd
  // ---------------------------------------------------------------------

  /**
   * setmaxosd: above mon_max_osd is -ERANGE; shrinking below an OSD that
   * still exists is -EBUSY; otherwise new_max_osd is staged.  A negative
   * value is not refused here: no OSD id below zero exists, so it is staged.
   */
  method SetMaxOsd(mon: OsdMonitor, newmax: int, monMaxOsd: int) returns (r: int)
    modifies mon
    ensures r == -ERANGE <==> newmax > monMaxOsd
    ensures r == -EBUSY <==> newmax <= monMaxOsd && exists i :: newmax <= i && Exists(mon.osdmap, i)
    ensures r == 0 <==> newmax <= monMaxOsd && forall i :: newmax <= i ==> !Exists(mon.osdmap, i)
    ensures r == 0 ==> mon.pending == old(mon.pending).(newMaxOsd := newmax)
    ensures r != 0 ==> mon.pending == old(mon.pending)
    ensures mon.osdmap == old(mon.osdmap) && mon.pendingMetadata == old(mon.pendingMetadata)
    ensures mon.pendingMetadataRm == old(mon.pendingMetadataRm)
  {
    var m := mon.osdmap;
    if newmax > monMaxOsd {
      return -ERANGE;
    }
    if newmax < m.maxOsd {
      var i := newmax;
      while i < m.maxOsd
        invariant newmax <= i <= m.maxOsd
        invariant forall k :: newmax <= k < i ==> !Exists(m, k)
      {
        if Exists(m, i) {
          return -EBUSY;
        }
        i := i + 1;
      }
    }
    mon.pending := mon.pending.(newMaxOsd := newmax);
    return 0;
  }

  // ---------------------------------------------------------------------
  // osd require-osd-release
  // ---------------------------------------------------------------------

  /** The releases this monitor can require. */
  const SETTABLE_RELEASES: set<nat> := {RELEASE_MIMIC, RELEASE_NAUTILUS, RELEASE_OCTOPUS}

  /**
   * The checks of require-osd-release.  `rel` is the parsed release (0 for
   * an unrecognised name), `monsHave` the releases whose feature every
   * monitor has, `upOsdsHave` the releases whose feature every up OSD has.
   * The source asserts that a change starts from luminous or later.
   */
  function ReleaseCheck(cur: nat, rel: nat, numUp: nat, sure: bool, monsHave: set<nat>, upOsdsHave: set<nat>): (r: int)
    requires rel == 0 || rel == cur || cur >= RELEASE_LUMINOUS
    ensures r == 0 || r == -EINVAL || r == -EPERM
    ensures r == -EINVAL <==> rel == 0
    ensures rel != 0 && rel == cur ==> r == 0
    ensures rel != 0 && rel != cur ==>
              (r == 0 <==> (cur < rel && rel in SETTABLE_RELEASES && rel in monsHave
                            && (sure || (numUp > 0 && rel in upOsdsHave))))
  {
    if rel == 0 then -EINVAL
    else if rel == cur then 0
    else if numUp == 0 && !sure then -EPERM
    else if rel !in SETTABLE_RELEASES then -EPERM
    else if rel !in monsHave then -EPERM
    else if rel !in upOsdsHave && !sure then -EPERM
    else if rel < cur then -EPERM
    else 0
  }

  /** require_osd_release never goes backwards: whatever the command stages
   *  is above the committed value. */
  lemma ReleaseNeverLowered(cur: nat, rel: nat, numUp: nat, sure: bool, monsHave: set<nat>, upOsdsHave: set<nat>)
    requires rel == 0 || rel == cur || cur >= RELEASE_LUMINOUS
    requires rel < cur
    ensures ReleaseCheck(cur, rel, numUp, sure, monsHave, upOsdsHave) != 0
  {
  }

  /** require-osd-release: stages the new release when the checks pass and
   *  it differs from the committed one. */
  method RequireOsdRelease(mon: OsdMonitor, rel: nat, sure: bool, monsHave: set<nat>, upOsdsHave: set<nat>)
    returns (r: int)
    requires rel == 0 || rel == mon.osdmap.requireOsdRelease || mon.osdmap.requireOsdRelease >= RELEASE_LUMINOUS
    modifies mon
    ensures mon.osdmap == old(mon.osdmap) && mon.pendingMetadata == old(mon.pendingMetadata)
    ensures mon.pendingMetadataRm == old(mon.pendingMetadataRm)
    ensures r == ReleaseCheck(mon.osdmap.requireOsdRelease, rel, NumUpOsds(mon.osdmap), sure, monsHave, upOsdsHave)
    ensures r == 0 && rel != mon.osdmap.requireOsdRelease ==> mon.pending == old(mon.pending).(newRequireOsdRelease := rel)
    ensures r != 0 || rel == mon.osdmap.requireOsdRelease ==> mon.pending == old(mon.pending)
  {
    var m := mon.osdmap;
    r := ReleaseCheck(m.requireOsdRelease, rel, NumUpOsds(m), sure, monsHave, upOsdsHave);
    if r == 0 && rel != m.requireOsdRelease {
      mon.pending := mon.pending.(newRequireOsdRelease := rel);
    }
  }

  // ---------------------------------------------------------------------
  // osd down / out / in / rm / stop
  // ---------------------------------------------------------------------

  datatype MarkCommand = MarkDown | MarkOut | MarkIn | MarkRm | MarkStop

  /** One element of the `ids` argument: the wildcard (`any`, `all`, `*`),
   *  a parsed OSD id, or something parse_osd_id rejects. */
  datatype IdArg = AnyOsd | OsdId(n: nat) | BadId

  /** One OSD's slice of the per-OSD maps of the pending incremental
   *  (new_state, new_weight, new_xinfo, new_uuid); None is "no entry". */
  datatype PendingEntry = PendingEntry(state: Option<Mask>, weight: Option<nat>, xinfo: Option<XInfo>, uuid: Option<Uuid>)

  function Entry<V>(mp: map<int, V>, o: int): Option<V>
  {
    if o in mp then Some(mp[o]) else None
  }

  /** Writes one entry back: Some sets the key, None erases it. */
  function Put<V>(mp: map<int, V>, o: int, v: Option<V>): (r: map<int, V>)
    ensures Entry(r, o) == v
    ensures forall k :: k != o ==> Entry(r, k) == Entry(mp, k)
  {
    if v.Some? then mp[o := v.value] else mp - {o}
  }

  lemma PutOwn<V>(mp: map<int, V>, o: int)
    ensures Put(mp, o, Entry(mp, o)) == mp
  {
    var r := Put(mp, o, Entry(mp, o));
    assert forall k :: k in r <==> k in mp;
  }

  function EntryOf(inc: Incremental, o: int): PendingEntry
  {
    PendingEntry(Entry(inc.newState, o), Entry(inc.newWeight, o), Entry(inc.newXinfo, o), Entry(inc.newUuid, o))
  }

  /** The per-OSD maps of an incremental are all that a step may change. */
  predicate SameOutsidePerOsd(a: Incremental, b: Incremental)
  {
    b == a.(newState := b.newState, newWeight := b.newWeight, newXinfo := b.newXinfo, newUuid := b.newUuid)
  }

  /** The incremental with OSD `o`'s slice replaced by `e`. */
  function WithEntry(inc: Incremental, o: int, e: PendingEntry): (r: Incremental)
    ensures EntryOf(r, o) == e
    ensures forall k :: k != o ==> EntryOf(r, k) == EntryOf(inc, k)
    ensures SameOutsidePerOsd(inc, r)
  {
    inc.(newState := Put(inc.newState, o, e.state), newWeight := Put(inc.newWeight, o, e.weight),
         newXinfo := Put(inc.newXinfo, o, e.xinfo), newUuid := Put(inc.newUuid, o, e.uuid))
  }

  lemma WithOwnEntry(inc: Incremental, o: int)
    ensures WithEntry(inc, o, EntryOf(inc, o)) == inc
  {
    PutOwn(inc.newState, o);
    PutOwn(inc.newWeight, o);
    PutOwn(inc.newXinfo, o);
    PutOwn(inc.newUuid, o);
  }

  /** The toggle mask an entry holds. */
  function Toggles(e: PendingEntry): Mask
  {
    if e.state.Some? then e.state.value else {}
  }

  /** The xinfo an OSD will have: the pending one, else the committed one. */
  function XInfoOf(m: OsdMap, e: PendingEntry, o: int): XInfo
  {
    if e.xinfo.Some? then e.xinfo.value else GetXInfo(m, o)
  }

  /** The weight an OSD will have: the pending one, else the committed one. */
  function WeightOf(m: OsdMap, e: PendingEntry, o: int): nat
  {
    if e.weight.Some? then e.weight.value else GetWeight(m, o)
  }

  /** pending_osd_state_set on one OSD's toggle mask. */
  function SetToggles(st: Option<Mask>, s: Mask): Option<Mask>
  {
    if st.Some? && st.value * s != {} then st else Some((if st.Some? then st.value else {}) + s)
  }

  /** SetToggles is what pending_osd_state_set does to the OSD's entry. */
  lemma SetTogglesIsPendingStateSet(inc: Incremental, o: int, s: Mask)
    ensures Entry(PendingStateSet(inc, o, s).0.newState, o) == SetToggles(Entry(inc.newState, o), s)
  {
  }

  /** `osd down` on one existing OSD: an up OSD gets its UP bit toggled;
   *  with definitely_dead the xinfo's dead_epoch becomes the pending epoch,
   *  which counts as a change when it was older. */
  function MarkDownAt(m: OsdMap, e: PendingEntry, epoch: nat, o: int, dd: bool): (r: (PendingEntry, bool))
    ensures r.1 <==> IsUp(m, o) || (dd && XInfoOf(m, e, o).deadEpoch < epoch)
    ensures IsUp(m, o) && UP !in Toggles(e) ==> UP !in Xor(GetState(m, o), Toggles(r.0))
    ensures IsUp(m, o) ==> UP in Toggles(r.0)
    ensures dd ==> XInfoOf(m, r.0, o) == XInfoOf(m, e, o).(deadEpoch := epoch)
    ensures !IsUp(m, o) && !dd ==> r.0 == e
    ensures r.0.weight == e.weight && r.0.uuid == e.uuid
  {
    var st := if IsDown(m, o) then e.state else SetToggles(e.state, {UP});
    if dd then
      var x := XInfoOf(m, e, o);
      (e.(state := st, xinfo := Some(x.(deadEpoch := epoch))), !IsDown(m, o) || x.deadEpoch < epoch)
    else (e.(state := st), !IsDown(m, o))
  }

  /** `osd out` on one existing OSD: an in OSD gets weight OUT and its
   *  current weight saved as xinfo.old_weight. */
  function MarkOutAt(m: OsdMap, e: PendingEntry, o: int): (r: (PendingEntry, bool))
    ensures IsOut(m, o) ==> r == (e, false)
    ensures !IsOut(m, o) ==> r.1 && WeightOf(m, r.0, o) == OSD_OUT
                             && XInfoOf(m, r.0, o) == XInfoOf(m, e, o).(oldWeight := GetWeight(m, o))
    ensures r.0.state == e.state && r.0.uuid == e.uuid
  {
    if IsOut(m, o) then (e, false)
    else
      var xi := if GetWeight(m, o) != 0 then Some(XInfoOf(m, e, o).(oldWeight := GetWeight(m, o))) else e.xinfo;
      (e.(weight := Some(OSD_OUT), xinfo := xi), true)
  }

  /** `osd in` on one existing OSD: an out OSD gets back its saved weight
   *  (which is then cleared) or, with none saved, weight IN. */
  function MarkInAt(m: OsdMap, e: PendingEntry, o: int): (r: (PendingEntry, bool))
    ensures IsIn(m, o) ==> r == (e, false)
    ensures !IsIn(m, o) && GetXInfo(m, o).oldWeight > 0 ==>
              r.1 && WeightOf(m, r.0, o) == GetXInfo(m, o).oldWeight
              && XInfoOf(m, r.0, o) == XInfoOf(m, e, o).(oldWeight := 0)
    ensures !IsIn(m, o) && GetXInfo(m, o).oldWeight == 0 ==>
              r.1 && WeightOf(m, r.0, o) == OSD_IN && r.0.xinfo == e.xinfo
    ensures r.0.state == e.state && r.0.uuid == e.uuid
  {
    if IsIn(m, o) then (e, false)
    else if GetXInfo(m, o).oldWeight > 0 then
      (e.(weight := Some(GetXInfo(m, o).oldWeight), xinfo := Some(XInfoOf(m, e, o).(oldWeight := 0))), true)
    else
      (e.(weight := Some(OSD_IN)), true)
  }

  /** `osd stop` on one existing OSD: nothing for a stopped OSD; STOP for a
   *  down one, UP|STOP for an up one. */
  function MarkStopAt(m: OsdMap, e: PendingEntry, o: int): (r: (PendingEntry, bool))
    ensures IsStop(m, o) ==> r == (e, false)
    ensures Exists(m, o) && !IsStop(m, o) && Toggles(e) * {UP, STOP} == {} ==>
              r.1 && STOP in Xor(GetState(m, o), Toggles(r.0)) && UP !in Xor(GetState(m, o), Toggles(r.0))
    ensures r.0.weight == e.weight && r.0.xinfo == e.xinfo && r.0.uuid == e.uuid
  {
    if IsStop(m, o) then (e, false)
    else if IsDown(m, o) then
      var r := e.(state := SetToggles(e.state, {STOP}));
      assert Toggles(e) * {STOP} == {} ==> Toggles(r) == Toggles(e) + {STOP};
      (r, true)
    else
      var r := e.(state := SetToggles(e.state, {UP, STOP}));
      assert Toggles(e) * {UP, STOP} == {} ==> Toggles(r) == Toggles(e) + {UP, STOP};
      (r, true)
  }

  /** `osd rm` on one existing OSD, as prepare_command_osd_remove stages it:
   *  a down OSD's whole state is toggled off and its uuid zeroed. */
  function MarkRmAt(m: OsdMap, e: PendingEntry, o: int): (r: (PendingEntry, bool))
    ensures IsUp(m, o) ==> r == (e, false)
    ensures !IsUp(m, o) ==> r.1 && Xor(GetState(m, o), Toggles(r.0)) == {} && r.0.uuid == Some(NIL_UUID)
    ensures r.0.weight == e.weight && r.0.xinfo == e.xinfo
  {
    if IsUp(m, o) then (e, false)
    else
      assert Xor(GetState(m, o), GetState(m, o)) == {};
      (e.(state := Some(GetState(m, o)), uuid := Some(NIL_UUID)), true)
  }

  /** The per-OSD step of a command on that OSD's entry; the flag says
   *  whether it changed anything that warrants a proposal. */
  function MarkAt(m: OsdMap, e: PendingEntry, epoch: nat, cmd: MarkCommand, o: int, dd: bool): (r: (PendingEntry, bool))
  {
    match cmd
    case MarkDown => MarkDownAt(m, e, epoch, o, dd)
    case MarkOut => MarkOutAt(m, e, o)
    case MarkIn => MarkInAt(m, e, o)
    case MarkRm => MarkRmAt(m, e, o)
    case MarkStop => MarkStopAt(m, e, o)
  }

  /** The step on the whole incremental: only OSD `o`'s entries change. */
  function MarkStep(m: OsdMap, inc: Incremental, cmd: MarkCommand, o: int, dd: bool): (r: (Incremental, bool))
    ensures EntryOf(r.0, o) == MarkAt(m, EntryOf(inc, o), inc.epoch, cmd, o, dd).0
    ensures forall k :: k != o ==> EntryOf(r.0, k) == EntryOf(inc, k)
    ensures SameOutsidePerOsd(inc, r.0)
  {
    var s := MarkAt(m, EntryOf(inc, o), inc.epoch, cmd, o, dd);
    (WithEntry(inc, o, s.0), s.1)
  }

  /** Repeating a step on the same OSD changes nothing more, and reports a
   *  change only if the first one did: naming an OSD twice is harmless. */
  lemma MarkAtIdempotent(m: OsdMap, e: PendingEntry, epoch: nat, cmd: MarkCommand, o: int, dd: bool)
    ensures var once := MarkAt(m, e, epoch, cmd, o, dd);
            var twice := MarkAt(m, once.0, epoch, cmd, o, dd);
            twice.0 == once.0 && (twice.1 ==> once.1)
  {
  }

  /** The projected state and weight of an OSD once a step applies. */
  function ProjectedWeight(m: OsdMap, inc: Incremental, o: int): nat
  {
    WeightOf(m, EntryOf(inc, o), o)
  }

  /** After `osd down` an up OSD with no pending UP toggle is down in the
   *  projected state; after `osd out` an in OSD has weight OUT. */
  lemma DownAndOutTakeEffect(m: OsdMap, inc: Incremental, o: int, dd: bool)
    ensures IsUp(m, o) && UP !in GetOr(inc.newState, o, {}) ==>
              UP !in ProjectedState(m, MarkStep(m, inc, MarkDown, o, dd).0, o)
    ensures IsIn(m, o) ==> ProjectedWeight(m, MarkStep(m, inc, MarkOut, o, dd).0, o) == OSD_OUT
  {
    var e := EntryOf(inc, o);
    assert GetOr(inc.newState, o, {}) == Toggles(e);
    var r := MarkStep(m, inc, MarkDown, o, dd).0;
    assert GetOr(r.newState, o, {}) == Toggles(EntryOf(r, o));
  }

  /** The weights and xinfos of a committed incremental. */
  function CommitWeights(m: OsdMap, inc: Incremental): (m2: OsdMap)
    ensures forall o :: GetWeight(m2, o) == ProjectedWeight(m, inc, o)
    ensures forall o :: GetXInfo(m2, o) == XInfoOf(m, EntryOf(inc, o), o)
    ensures m2.state == m.state && m2.maxOsd == m.maxOsd
  {
    m.(weight := m.weight + inc.newWeight, xinfo := m.xinfo + inc.newXinfo)
  }

  /** `osd out` followed, once committed, by `osd in` gives an OSD back the
   *  weight it had. */
  lemma OutThenInRestoresWeight(m: OsdMap, inc: Incremental, inc2: Incremental, o: int, dd: bool)
    requires IsIn(m, o)
    ensures var m2 := CommitWeights(m, MarkStep(m, inc, MarkOut, o, dd).0);
            ProjectedWeight(m2, MarkStep(m2, inc2, MarkIn, o, dd).0, o) == GetWeight(m, o)
  {
    var m2 := CommitWeights(m, MarkStep(m, inc, MarkOut, o, dd).0);
    assert GetWeight(m2, o) == OSD_OUT;
    assert Exists(m2, o);
    assert GetXInfo(m2, o).oldWeight == GetWeight(m, o);
  }

  /** The OSDs a command acts on, in the order the ids are listed: the ids
   *  that parse and name an existing OSD. */
  function ListedTargets(m: OsdMap, ids: seq<IdArg>): set<int>
  {
    if |ids| == 0 then {}
    else
      var last := ids[|ids| - 1];
      ListedTargets(m, ids[..|ids| - 1]) + (if last.OsdId? && Exists(m, last.n) then {last.n as int} else {})
  }

  /** The wildcard: every existing OSD, or for `osd in` every out one. */
  function WildcardTargets(m: OsdMap, cmd: MarkCommand): set<int>
  {
    if cmd == MarkIn then OutExistingOsds(m) else ExistingOsds(m)
  }

  /** A wildcard is only honoured as the first id, and ends the list. */
  function MarkTargets(m: OsdMap, cmd: MarkCommand, ids: seq<IdArg>): set<int>
  {
    if |ids| > 0 && ids[0] == AnyOsd then WildcardTargets(m, cmd) else ListedTargets(m, ids)
  }

  /** prepare_command_osd_remove's answer for an existing OSD. */
  function RmResult(m: OsdMap, o: int): int
  {
    if IsUp(m, o) then -EBUSY else 0
  }

  /** The error code after the listed ids: a bad id sets -EINVAL, and for
   *  `osd rm` each removal attempt overwrites it with its own result. */
  function ListedErr(m: OsdMap, cmd: MarkCommand, ids: seq<IdArg>): int
  {
    if |ids| == 0 then 0
    else
      var e := ListedErr(m, cmd, ids[..|ids| - 1]);
      match ids[|ids| - 1]
      case OsdId(n) => if cmd == MarkRm && Exists(m, n) then RmResult(m, n) else e
      case _ => -EINVAL
  }

  /** The error code after a wildcard over the OSDs below `i`, visited in
   *  ascending order. */
  function WildErr(m: OsdMap, cmd: MarkCommand, i: int): int
    decreases i
  {
    if i <= 0 then 0
    else if cmd == MarkRm && i - 1 in WildcardTargets(m, cmd) then RmResult(m, i - 1)
    else WildErr(m, cmd, i - 1)
  }

  function MarkErr(m: OsdMap, cmd: MarkCommand, ids: seq<IdArg>): int
  {
    if |ids| > 0 && ids[0] == AnyOsd then WildErr(m, cmd, m.maxOsd) else ListedErr(m, cmd, ids)
  }

  /** Apart from `osd rm`, the error is -EINVAL exactly when an id does not
   *  parse; `osd rm` may also answer -EBUSY. */
  lemma {:induction false} MarkErrValues(m: OsdMap, cmd: MarkCommand, ids: seq<IdArg>)
    requires |ids| == 0 || ids[0] != AnyOsd
    ensures cmd != MarkRm ==> (MarkErr(m, cmd, ids) == -EINVAL <==> exists j :: 0 <= j < |ids| && !ids[j].OsdId?)
    ensures cmd != MarkRm ==> MarkErr(m, cmd, ids) in {0, -EINVAL}
    ensures MarkErr(m, cmd, ids) in {0, -EINVAL, -EBUSY}
    decreases |ids|
  {
    if |ids| > 0 {
      var prefix := ids[..|ids| - 1];
      MarkErrValues(m, cmd, prefix);
      assert forall j :: 0 <= j < |prefix| ==> prefix[j] == ids[j];
    }
  }

  /** The pending entries agree with the steps of the OSDs in `done`
   *  applied to `inc0`, and with `inc0` everywhere else. */
  ghost predicate Agrees(m: OsdMap, inc0: Incremental, cmd: MarkCommand, dd: bool, pend: Incremental, done: set<int>)
  {
    pend.epoch == inc0.epoch
    && SameOutsidePerOsd(inc0, pend)
    && forall k :: EntryOf(pend, k) == (if k in done then MarkAt(m, EntryOf(inc0, k), inc0.epoch, cmd, k, dd).0
                                        else EntryOf(inc0, k))
  }

  lemma AdvanceMarks(m: OsdMap, inc0: Incremental, cmd: MarkCommand, dd: bool, pend: Incremental, done: set<int>, o: int)
    requires Agrees(m, inc0, cmd, dd, pend, done)
    ensures Agrees(m, inc0, cmd, dd, MarkStep(m, pend, cmd, o, dd).0, done + {o})
    ensures o in done && MarkStep(m, pend, cmd, o, dd).1 ==> MarkAt(m, EntryOf(inc0, o), inc0.epoch, cmd, o, dd).1
    ensures o !in done ==> MarkStep(m, pend, cmd, o, dd).1 == MarkAt(m, EntryOf(inc0, o), inc0.epoch, cmd, o, dd).1
  {
    var next := MarkStep(m, pend, cmd, o, dd).0;
    if o in done {
      MarkAtIdempotent(m, EntryOf(inc0, o), inc0.epoch, cmd, o, dd);
    }
    forall k
      ensures EntryOf(next, k) == (if k in done + {o} then MarkAt(m, EntryOf(inc0, k), inc0.epoch, cmd, k, dd).0
                                   else EntryOf(inc0, k))
    {
    }
  }

  /** The OSDs among `done` that `osd rm` removes. */
  function Removed(m: OsdMap, done: set<int>): set<int>
  {
    set o | o in done && !IsUp(m, o)
  }

  /** One OSD of down/out/in/rm/stop; `osd rm` goes through
   *  prepare_command_osd_remove. */
  method MarkOne(mon: OsdMonitor, cmd: MarkCommand, o: int, dd: bool) returns (changed: bool, e: int)
    modifies mon
    ensures (mon.pending, changed) == MarkStep(old(mon.osdmap), old(mon.pending), cmd, o, dd)
    ensures cmd == MarkRm ==> e == RmResult(old(mon.osdmap), o)
    ensures cmd == MarkRm && !IsUp(old(mon.osdmap), o) ==>
              mon.pendingMetadataRm == old(mon.pendingMetadataRm) + {o}
              && mon.pendingMetadata == old(mon.pendingMetadata) - {o}
    ensures cmd != MarkRm || IsUp(old(mon.osdmap), o) ==>
              mon.pendingMetadataRm == old(mon.pendingMetadataRm) && mon.pendingMetadata == old(mon.pendingMetadata)
    ensures mon.osdmap == old(mon.osdmap)
  {
    e := 0;
    if cmd == MarkRm {
      ghost var inc := mon.pending;
      e := OsdLifecycle.PrepareCommandOsdRemove(mon, o);
      changed := e == 0;
      if e == 0 {
        PutOwn(inc.newWeight, o);
        PutOwn(inc.newXinfo, o);
      } else {
        WithOwnEntry(inc, o);
      }
    } else {
      var s := MarkStep(mon.osdmap, mon.pending, cmd, o, dd);
      mon.pending := s.0;
      changed := s.1;
    }
  }

  /** What the loops over the targets maintain after visiting `done`. */
  ghost predicate MarkProgress(m: OsdMap, inc0: Incremental, rm0: set<int>, md0: map<int, map<string, string>>,
                               cmd: MarkCommand, dd: bool, pend: Incremental, rm: set<int>,
                               md: map<int, map<string, string>>, done: set<int>, any: bool)
  {
    Agrees(m, inc0, cmd, dd, pend, done)
    && AnyMatches(m, inc0, cmd, dd, done, any)
    && MetadataMatches(m, rm0, md0, cmd, rm, md, done)
  }

  ghost predicate AnyMatches(m: OsdMap, inc0: Incremental, cmd: MarkCommand, dd: bool, done: set<int>, any: bool)
  {
    any <==> exists o :: o in done && MarkAt(m, EntryOf(inc0, o), inc0.epoch, cmd, o, dd).1
  }

  ghost predicate MetadataMatches(m: OsdMap, rm0: set<int>, md0: map<int, map<string, string>>, cmd: MarkCommand,
                                  rm: set<int>, md: map<int, map<string, string>>, done: set<int>)
  {
    (cmd == MarkRm ==> rm == rm0 + Removed(m, done) && md == md0 - Removed(m, done))
    && (cmd != MarkRm ==> rm == rm0 && md == md0)
  }

  /** One visit of a target by either loop. */
  method MarkVisit(mon: OsdMonitor, cmd: MarkCommand, o: int, dd: bool, any: bool,
                   ghost inc0: Incremental, ghost rm0: set<int>, ghost md0: map<int, map<string, string>>,
                   ghost done: set<int>)
    returns (any': bool, e: int)
    requires MarkProgress(mon.osdmap, inc0, rm0, md0, cmd, dd, mon.pending, mon.pendingMetadataRm,
                          mon.pendingMetadata, done, any)
    modifies mon
    ensures mon.osdmap == old(mon.osdmap)
    ensures MarkProgress(mon.osdmap, inc0, rm0, md0, cmd, dd, mon.pending, mon.pendingMetadataRm,
                         mon.pendingMetadata, done + {o}, any')
    ensures cmd == MarkRm ==> e == RmResult(mon.osdmap, o)
  {
    var m := mon.osdmap;
    ghost var pend := mon.pending;
    var changed;
    changed, e := MarkOne(mon, cmd, o, dd);
    AdvanceMarks(m, inc0, cmd, dd, pend, done, o);
    any' := any || changed;
    AnyAfterVisit(m, inc0, cmd, dd, done, o, any, changed);
    assert AnyMatches(m, inc0, cmd, dd, done + {o}, any');
    MetadataAfterVisit(m, rm0, md0, cmd, old(mon.pendingMetadataRm), old(mon.pendingMetadata),
                       mon.pendingMetadataRm, mon.pendingMetadata, done, o);
    assert Agrees(m, inc0, cmd, dd, mon.pending, done + {o});
  }

  lemma MapMinusUnion<V>(mp: map<int, V>, a: set<int>, o: int)
    ensures (mp - a) - {o} == mp - (a + {o})
  {
  }

  lemma AnyAfterVisit(m: OsdMap, inc0: Incremental, cmd: MarkCommand, dd: bool, done: set<int>, o: int,
                      any: bool, changed: bool)
    requires any <==> exists k :: k in done && MarkAt(m, EntryOf(inc0, k), inc0.epoch, cmd, k, dd).1
    requires o in done && changed ==> MarkAt(m, EntryOf(inc0, o), inc0.epoch, cmd, o, dd).1
    requires o !in done ==> changed == MarkAt(m, EntryOf(inc0, o), inc0.epoch, cmd, o, dd).1
    ensures (any || changed) <==> exists k :: k in done + {o} && MarkAt(m, EntryOf(inc0, k), inc0.epoch, cmd, k, dd).1
  {
    if changed {
      assert o in done + {o} && MarkAt(m, EntryOf(inc0, o), inc0.epoch, cmd, o, dd).1;
    }
    if any {
      var k :| k in done && MarkAt(m, EntryOf(inc0, k), inc0.epoch, cmd, k, dd).1;
      assert k in done + {o};
    }
  }

  lemma MetadataAfterVisit(m: OsdMap, rm0: set<int>, md0: map<int, map<string, string>>, cmd: MarkCommand,
                           rm: set<int>, md: map<int, map<string, string>>,
                           rm': set<int>, md': map<int, map<string, string>>, done: set<int>, o: int)
    requires MetadataMatches(m, rm0, md0, cmd, rm, md, done)
    requires cmd == MarkRm && !IsUp(m, o) ==> rm' == rm + {o} && md' == md - {o}
    requires cmd != MarkRm || IsUp(m, o) ==> rm' == rm && md' == md
    ensures MetadataMatches(m, rm0, md0, cmd, rm', md', done + {o})
  {
    var r0 := Removed(m, done);
    assert Removed(m, done + {o}) == r0 + (if IsUp(m, o) then {} else {o});
    if cmd == MarkRm && !IsUp(m, o) {
      MapMinusUnion(md0, r0, o);
    }
  }

  /** The wildcard form: every OSD of `w` in ascending order. */
  method MarkWildcard(mon: OsdMonitor, cmd: MarkCommand, dd: bool) returns (err: int, any: bool)
    modifies mon
    ensures mon.osdmap == old(mon.osdmap)
    ensures Agrees(old(mon.osdmap), old(mon.pending), cmd, dd, mon.pending, WildcardTargets(old(mon.osdmap), cmd))
    ensures any <==> exists o :: o in WildcardTargets(old(mon.osdmap), cmd)
                                 && MarkAt(old(mon.osdmap), EntryOf(old(mon.pending), o), old(mon.pending).epoch, cmd, o, dd).1
    ensures err == WildErr(old(mon.osdmap), cmd, old(mon.osdmap).maxOsd)
    ensures cmd == MarkRm ==>
              mon.pendingMetadataRm == old(mon.pendingMetadataRm) + Removed(old(mon.osdmap), WildcardTargets(old(mon.osdmap), cmd))
              && mon.pendingMetadata == old(mon.pendingMetadata) - Removed(old(mon.osdmap), WildcardTargets(old(mon.osdmap), cmd))
    ensures cmd != MarkRm ==>
              mon.pendingMetadataRm == old(mon.pendingMetadataRm) && mon.pendingMetadata == old(mon.pendingMetadata)
  {
    var m := mon.osdmap;
    ghost var inc0 := mon.pending;
    ghost var rm0 := mon.pendingMetadataRm;
    ghost var md0 := mon.pendingMetadata;
    var w := WildcardTargets(m, cmd);
    err := 0;
    any := false;
    ghost var done: set<int> := {};
    var i := 0;
    while i < m.maxOsd
      invariant 0 <= i && (i <= m.maxOsd || (m.maxOsd < 0 && i == 0))
      invariant mon.osdmap == m
      invariant done == TargetsBelow(w, i)
      invariant MarkProgress(m, inc0, rm0, md0, cmd, dd, mon.pending, mon.pendingMetadataRm, mon.pendingMetadata, done, any)
      invariant err == WildErr(m, cmd, i)
    {
      any, err, done := WildcardVisit(mon, cmd, i, dd, any, err, inc0, rm0, md0, done);
      i := i + 1;
    }
    if m.maxOsd < 0 {
      assert WildErr(m, cmd, m.maxOsd) == 0 == WildErr(m, cmd, i);
    }
    TargetsBelowAll(m, cmd, i);
  }

  /** The wildcard targets below i: the ones the loop has visited. */
  ghost function TargetsBelow(w: set<int>, i: int): set<int>
  {
    set o | o in w && o < i
  }

  /** Once the loop reaches max_osd it has visited every target. */
  lemma TargetsBelowAll(m: OsdMap, cmd: MarkCommand, i: int)
    requires i >= m.maxOsd
    ensures TargetsBelow(WildcardTargets(m, cmd), i) == WildcardTargets(m, cmd)
  {
  }

  /** One id of the wildcard loop: a target is marked, anything else skipped. */
  method WildcardVisit(mon: OsdMonitor, cmd: MarkCommand, i: int, dd: bool, any: bool, err: int,
                       ghost inc0: Incremental, ghost rm0: set<int>, ghost md0: map<int, map<string, string>>,
                       ghost done: set<int>)
    returns (any': bool, err': int, ghost done': set<int>)
    requires 0 <= i && done == TargetsBelow(WildcardTargets(mon.osdmap, cmd), i)
    requires MarkProgress(mon.osdmap, inc0, rm0, md0, cmd, dd, mon.pending, mon.pendingMetadataRm,
                          mon.pendingMetadata, done, any)
    requires err == WildErr(mon.osdmap, cmd, i)
    modifies mon
    ensures mon.osdmap == old(mon.osdmap)
    ensures done' == TargetsBelow(WildcardTargets(mon.osdmap, cmd), i + 1)
    ensures MarkProgress(mon.osdmap, inc0, rm0, md0, cmd, dd, mon.pending, mon.pendingMetadataRm,
                         mon.pendingMetadata, done', any')
    ensures err' == WildErr(mon.osdmap, cmd, i + 1)
  {
    var w := WildcardTargets(mon.osdmap, cmd);
    any', err', done' := any, err, done;
    if i in w {
      var e;
      any', e := MarkVisit(mon, cmd, i, dd, any, inc0, rm0, md0, done);
      if cmd == MarkRm {
        err' := e;
      }
      done' := done + {i};
    }
    assert TargetsBelow(w, i + 1) == done';
  }

  /** The listed form: each id in turn; a bad id sets -EINVAL and a missing
   *  OSD is skipped. */
  method MarkListed(mon: OsdMonitor, cmd: MarkCommand, ids: seq<IdArg>, dd: bool) returns (err: int, any: bool)
    modifies mon
    ensures mon.osdmap == old(mon.osdmap)
    ensures Agrees(old(mon.osdmap), old(mon.pending), cmd, dd, mon.pending, ListedTargets(old(mon.osdmap), ids))
    ensures any <==> exists o :: o in ListedTargets(old(mon.osdmap), ids)
                                 && MarkAt(old(mon.osdmap), EntryOf(old(mon.pending), o), old(mon.pending).epoch, cmd, o, dd).1
    ensures err == ListedErr(old(mon.osdmap), cmd, ids)
    ensures cmd == MarkRm ==>
              mon.pendingMetadataRm == old(mon.pendingMetadataRm) + Removed(old(mon.osdmap), ListedTargets(old(mon.osdmap), ids))
              && mon.pendingMetadata == old(mon.pendingMetadata) - Removed(old(mon.osdmap), ListedTargets(old(mon.osdmap), ids))
    ensures cmd != MarkRm ==>
              mon.pendingMetadataRm == old(mon.pendingMetadataRm) && mon.pendingMetadata == old(mon.pendingMetadata)
  {
    var m := mon.osdmap;
    ghost var inc0 := mon.pending;
    ghost var rm0 := mon.pendingMetadataRm;
    ghost var md0 := mon.pendingMetadata;
    err := 0;
    any := false;
    ghost var done: set<int> := {};
    var j := 0;
    while j < |ids|
      invariant 0 <= j <= |ids|
      invariant mon.osdmap == m
      invariant done == ListedTargets(m, ids[..j])
      invariant MarkProgress(m, inc0, rm0, md0, cmd, dd, mon.pending, mon.pendingMetadataRm, mon.pendingMetadata, done, any)
      invariant err == ListedErr(m, cmd, ids[..j])
    {
      any, err, done := ListedVisit(mon, cmd, ids, j, dd, any, err, inc0, rm0, md0, done);
      j := j + 1;
    }
    assert ids[..j] == ids;
  }

  /** One id of the listed loop: a bad id sets -EINVAL, a missing OSD is
   *  skipped and an existing one marked. */
  method ListedVisit(mon: OsdMonitor, cmd: MarkCommand, ids: seq<IdArg>, j: nat, dd: bool, any: bool, err: int,
                     ghost inc0: Incremental, ghost rm0: set<int>, ghost md0: map<int, map<string, string>>,
                     ghost done: set<int>)
    returns (any': bool, err': int, ghost done': set<int>)
    requires j < |ids| && done == ListedTargets(mon.osdmap, ids[..j])
    requires MarkProgress(mon.osdmap, inc0, rm0, md0, cmd, dd, mon.pending, mon.pendingMetadataRm,
                          mon.pendingMetadata, done, any)
    requires err == ListedErr(mon.osdmap, cmd, ids[..j])
    modifies mon
    ensures mon.osdmap == old(mon.osdmap)
    ensures done' == ListedTargets(mon.osdmap, ids[..j + 1])
    ensures MarkProgress(mon.osdmap, inc0, rm0, md0, cmd, dd, mon.pending, mon.pendingMetadataRm,
                         mon.pendingMetadata, done', any')
    ensures err' == ListedErr(mon.osdmap, cmd, ids[..j + 1])
  {
    var m := mon.osdmap;
    assert ids[..j + 1][..j] == ids[..j];
    any', err', done' := any, err, done;
    match ids[j] {
      case OsdId(n) =>
        if Exists(m, n) {
          var e;
          any', e := MarkVisit(mon, cmd, n, dd, any, inc0, rm0, md0, done);
          if cmd == MarkRm {
            err' := e;
          }
          done' := done + {n};
        }
      case _ =>
        err' := -EINVAL;
    }
  }

  /**
   * osd down/out/in/rm/stop over `ids`.  Each OSD of MarkTargets gets its
   * step (applied to its entry as it was before the command, which is what
   * a repeated id amounts to), every other OSD is left alone, `any` says
   * whether a proposal follows, and `err` is the command's error code.
   */
  method MarkOsds(mon: OsdMonitor, cmd: MarkCommand, ids: seq<IdArg>, dd: bool) returns (err: int, any: bool)
    modifies mon
    ensures mon.osdmap == old(mon.osdmap)
    ensures Agrees(old(mon.osdmap), old(mon.pending), cmd, dd, mon.pending, MarkTargets(old(mon.osdmap), cmd, ids))
    ensures any <==> exists o :: o in MarkTargets(old(mon.osdmap), cmd, ids)
                                 && MarkAt(old(mon.osdmap), EntryOf(old(mon.pending), o), old(mon.pending).epoch, cmd, o, dd).1
    ensures err == MarkErr(old(mon.osdmap), cmd, ids)
    ensures cmd == MarkRm ==>
              mon.pendingMetadataRm == old(mon.pendingMetadataRm) + Removed(old(mon.osdmap), MarkTargets(old(mon.osdmap), cmd, ids))
              && mon.pendingMetadata == old(mon.pendingMetadata) - Removed(old(mon.osdmap), MarkTargets(old(mon.osdmap), cmd, ids))
    ensures cmd != MarkRm ==>
              mon.pendingMetadataRm == old(mon.pendingMetadataRm) && mon.pendingMetadata == old(mon.pendingMetadata)
  {
    if |ids| > 0 && ids[0] == AnyOsd {
      err, any := MarkWildcard(mon, cmd, dd);
    } else {
      err, any := MarkListed(mon, cmd, ids, dd);
    }
  }

  // ---------------------------------------------------------------------
  // osd set-group / unset-group / add-no* / rm-no*
  // ---------------------------------------------------------------------

  /** The flags a group command may set. */
  const GROUP_FLAGS: Mask := {NOUP, NODOWN, NOIN, NOOUT}

  function GroupFlagNamed(s: string): (r: Option<OsdFlag>)
    ensures r.Some? ==> r.value in GROUP_FLAGS
  {
    if s == "noup" then Some(NOUP)
    else if s == "nodown" then Some(NODOWN)
    else if s == "noin" then Some(NOIN)
    else if s == "noout" then Some(NOOUT)
    else None
  }

  /** The flags the recognised names of `names` select. */
  function NamedFlags(names: seq<string>): (f: Mask)
    ensures f <= GROUP_FLAGS
    ensures forall g :: g in f <==> exists i :: 0 <= i < |names| && GroupFlagNamed(names[i]) == Some(g)
  {
    if |names| == 0 then {}
    else
      var prefix := names[..|names| - 1];
      var last := GroupFlagNamed(names[|names| - 1]);
      assert forall i :: 0 <= i < |prefix| ==> prefix[i] == names[i];
      NamedFlags(prefix) + (if last.Some? then {last.value} else {})
  }

  /** The comma-separated `flags` of set-group/unset-group, already split:
   *  any name other than noup/nodown/noin/noout is -EINVAL. */
  method ParseGroupFlags(names: seq<string>) returns (r: Result<Mask, int>)
    ensures r.Err? <==> exists i :: 0 <= i < |names| && GroupFlagNamed(names[i]).None?
    ensures r.Err? ==> r.error == -EINVAL
    ensures r.Ok? ==> r.value == NamedFlags(names)
  {
    var flags: Mask := {};
    var j := 0;
    while j < |names|
      invariant 0 <= j <= |names|
      invariant forall i :: 0 <= i < j ==> GroupFlagNamed(names[i]).Some?
      invariant flags == NamedFlags(names[..j])
    {
      var f := GroupFlagNamed(names[j]);
      if f.None? {
        return Err(-EINVAL);
      }
      assert names[..j + 1][..j] == names[..j];
      flags := flags + {f.value};
      j := j + 1;
    }
    assert names[..j] == names;
    return Ok(flags);
  }

  /** One element of `who`: the wildcard, an OSD id, a crush node or a
   *  device class (names are resolved against the crush map by the
   *  caller), or something none of these recognises. */
  datatype GroupTarget = GroupAll | GroupOsd(n: nat) | CrushNode(node: int) | DeviceClass(cls: int) | Unresolved

  /** The OSDs, crush nodes and device classes a target list names. */
  datatype GroupTargets = GroupTargets(osds: set<int>, nodes: set<int>, classes: set<int>)

  /** The targets of a list without wildcard. */
  function ListedGroupTargets(who: seq<GroupTarget>): GroupTargets
  {
    if |who| == 0 then GroupTargets({}, {}, {})
    else
      var t := ListedGroupTargets(who[..|who| - 1]);
      match who[|who| - 1]
      case GroupOsd(n) => t.(osds := t.osds + {n as int})
      case CrushNode(c) => t.(nodes := t.nodes + {c})
      case DeviceClass(c) => t.(classes := t.classes + {c})
      case _ => t
  }

  /** The position of the first wildcard, or |who|. */
  function FirstGroupAll(who: seq<GroupTarget>): (k: nat)
    ensures k <= |who|
    ensures forall i :: 0 <= i < k ==> who[i] != GroupAll
    ensures k < |who| ==> who[k] == GroupAll
  {
    if |who| == 0 then 0
    else if who[0] == GroupAll then 0
    else 1 + FirstGroupAll(who[1..])
  }

  /** The wildcard adds every existing OSD to what precedes it and ends the
   *  list. */
  function GroupTargetsOf(m: OsdMap, who: seq<GroupTarget>): GroupTargets
  {
    var k := FirstGroupAll(who);
    var t := ListedGroupTargets(who[..k]);
    if k < |who| then t.(osds := t.osds + ExistingOsds(m)) else t
  }

  /** Collects the targets of `who`, stopping at a wildcard. */
  method CollectGroupTargets(m: OsdMap, who: seq<GroupTarget>) returns (t: GroupTargets)
    ensures t == GroupTargetsOf(m, who)
  {
    t := GroupTargets({}, {}, {});
    var j := 0;
    var k := FirstGroupAll(who);
    while j < |who|
      invariant 0 <= j <= k
      invariant t == ListedGroupTargets(who[..j])
    {
      if who[j] == GroupAll {
        t := t.(osds := t.osds + ExistingOsds(m));
        return;
      }
      assert who[..j + 1][..j] == who[..j];
      match who[j] {
        case GroupOsd(n) => t := t.(osds := t.osds + {n as int});
        case CrushNode(c) => t := t.(nodes := t.nodes + {c});
        case DeviceClass(c) => t := t.(classes := t.classes + {c});
        case _ =>
      }
      j := j + 1;
    }
  }

  /** The toggle mask an optional new_state entry holds. */
  function MaskOf(st: Option<Mask>): Mask
  {
    if st.Some? then st.value else {}
  }

  /** pending_osd_state_clear on one OSD's toggle mask. */
  function ClearToggles(st: Option<Mask>, s: Mask): Option<Mask>
  {
    if st.Some? && st.value * s != {} then
      (if st.value - s == {} then None else Some(st.value - s))
    else st
  }

  /** ClearToggles is what pending_osd_state_clear does to the OSD's entry. */
  lemma ClearTogglesIsPendingStateClear(inc: Incremental, o: int, s: Mask)
    ensures Entry(PendingStateClear(inc, o, s).0.newState, o) == ClearToggles(Entry(inc.newState, o), s)
  {
  }

  lemma ClearTogglesMask(st: Option<Mask>, s: Mask)
    ensures MaskOf(ClearToggles(st, s)) == MaskOf(st) - s
  {
    if st.Some? && st.value * s == {} {
      forall f | f in st.value
        ensures f !in s
      {
        assert f !in st.value * s;
      }
      assert st.value - s == st.value;
    }
  }

  lemma SetTogglesMask(st: Option<Mask>, f: OsdFlag)
    ensures MaskOf(SetToggles(st, {f})) == MaskOf(st) + {f}
    ensures SetToggles(st, {f}) == st <==> st.Some? && f in st.value
  {
    if st.Some? && st.value * {f} != {} {
      assert f in st.value;
    }
    if st.Some? && f in st.value {
      assert f in st.value * {f};
    } else {
      assert f in MaskOf(SetToggles(st, {f})) && f !in MaskOf(st);
    }
  }

  /** Clearing one flag changes the entry exactly when the flag is toggled. */
  lemma ClearToggleChanges(st: Option<Mask>, f: OsdFlag)
    ensures ClearToggles(st, {f}) == st <==> !(st.Some? && f in st.value)
  {
    ClearTogglesMask(st, {f});
    if st.Some? && f in st.value {
      assert f in MaskOf(st) && f !in MaskOf(ClearToggles(st, {f}));
    }
  }

  /** The projected state is the committed state XOR the entry's toggles. */
  lemma ProjectedStateOfEntry(m: OsdMap, inc: Incremental, o: int)
    ensures ProjectedState(m, inc, o) == Xor(GetState(m, o), MaskOf(Entry(inc.newState, o)))
  {
  }

  /** One flag of set-group on one existing OSD's toggle mask: when the
   *  OSD already has the flag the way the command wants it, a pending
   *  toggle of it is cancelled, otherwise a toggle is staged. */
  function GroupFlagAt(m: OsdMap, st: Option<Mask>, o: int, f: OsdFlag, doSet: bool): (r: (Option<Mask>, bool))
    requires Exists(m, o)
    ensures f in Xor(GetState(m, o), MaskOf(r.0)) <==> doSet
    ensures forall g :: g != f ==> (g in MaskOf(r.0) <==> g in MaskOf(st))
    ensures r.1 <==> r.0 != st
  {
    if HasOsdFlag(m, o, f) == doSet then
      var r := (ClearToggles(st, {f}), st.Some? && f in st.value);
      ClearTogglesMask(st, {f});
      ClearToggleChanges(st, f);
      r
    else
      var r := (SetToggles(st, {f}), !(st.Some? && f in st.value));
      SetTogglesMask(st, f);
      r
  }

  /** The flags of `order` that are in `flags`, one after the other. */
  function GroupFlagsAt(m: OsdMap, st: Option<Mask>, o: int, order: seq<OsdFlag>, flags: Mask, doSet: bool)
    : (r: (Option<Mask>, bool))
    requires Exists(m, o)
    ensures forall f :: f in order && f in flags ==> (f in Xor(GetState(m, o), MaskOf(r.0)) <==> doSet)
    ensures forall g :: !(g in order && g in flags) ==> (g in MaskOf(r.0) <==> g in MaskOf(st))
    ensures !r.1 ==> r.0 == st
    decreases |order|
  {
    if |order| == 0 then (st, false)
    else
      var s1 := if order[0] in flags then GroupFlagAt(m, st, o, order[0], doSet) else (st, false);
      var s2 := GroupFlagsAt(m, s1.0, o, order[1..], flags, doSet);
      assert forall f :: f in order <==> f == order[0] || f in order[1..];
      (s2.0, s1.1 || s2.1)
  }

  /** set-group (doSet) or unset-group on one existing OSD's toggle mask,
   *  flag by flag in the order noup, nodown, noin, noout: afterwards the
   *  OSD has each flag of `flags` exactly when doSet, and the toggles of
   *  every other bit are as before. */
  function GroupOsdAt(m: OsdMap, st: Option<Mask>, o: int, flags: Mask, doSet: bool): (r: (Option<Mask>, bool))
    requires Exists(m, o)
    ensures forall f :: f in flags * GROUP_FLAGS ==> (f in Xor(GetState(m, o), MaskOf(r.0)) <==> doSet)
    ensures forall g :: g !in flags * GROUP_FLAGS ==> (g in MaskOf(r.0) <==> g in MaskOf(st))
    ensures !r.1 ==> r.0 == st
  {
    var order := [NOUP, NODOWN, NOIN, NOOUT];
    assert forall f :: f in order <==> f in GROUP_FLAGS;
    GroupFlagsAt(m, st, o, order, flags, doSet)
  }

  /** A flag already the way the command wants it is left alone. */
  lemma GroupFlagAtStable(m: OsdMap, st: Option<Mask>, o: int, f: OsdFlag, doSet: bool)
    requires Exists(m, o)
    requires f in Xor(GetState(m, o), MaskOf(st)) <==> doSet
    ensures GroupFlagAt(m, st, o, f, doSet) == (st, false)
  {
    if st.Some? && f in st.value {
      assert HasOsdFlag(m, o, f) != doSet;
    }
  }

  lemma {:induction false} GroupFlagsAtStable(m: OsdMap, st: Option<Mask>, o: int, order: seq<OsdFlag>, flags: Mask, doSet: bool)
    requires Exists(m, o)
    requires forall f :: f in order && f in flags ==> (f in Xor(GetState(m, o), MaskOf(st)) <==> doSet)
    ensures GroupFlagsAt(m, st, o, order, flags, doSet) == (st, false)
    decreases |order|
  {
    if |order| > 0 {
      if order[0] in flags {
        GroupFlagAtStable(m, st, o, order[0], doSet);
      }
      assert forall f :: f in order[1..] ==> f in order;
      GroupFlagsAtStable(m, st, o, order[1..], flags, doSet);
    }
  }

  /** Running set-group twice on an OSD changes nothing the second time. */
  lemma GroupOsdAtIdempotent(m: OsdMap, st: Option<Mask>, o: int, flags: Mask, doSet: bool)
    requires Exists(m, o)
    ensures var once := GroupOsdAt(m, st, o, flags, doSet).0;
            GroupOsdAt(m, once, o, flags, doSet) == (once, false)
  {
    var once := GroupOsdAt(m, st, o, flags, doSet).0;
    var order := [NOUP, NODOWN, NOIN, NOOUT];
    assert forall f :: f in order <==> f in GROUP_FLAGS;
    GroupFlagsAtStable(m, once, o, order, flags, doSet);
  }

  /** What the crush node (or device class) flags become: the pending
   *  value adopts the committed one, then gains or loses `flags`. */
  function AdoptFlags(pending: map<int, Mask>, committed: map<int, Mask>, ids: set<int>, flags: Mask, doSet: bool)
    : (r: map<int, Mask>)
    ensures r.Keys == pending.Keys + ids
    ensures forall k :: k in ids && doSet ==> flags <= r[k]
    ensures forall k :: k in ids && !doSet ==> r[k] * flags == {}
    ensures forall k :: k in ids ==> GetOr(committed, k, {}) - flags <= r[k]
    ensures forall k :: k in pending && k !in ids ==> r[k] == pending[k]
  {
    map k | k in pending.Keys + ids ::
      if k in ids then
        var base := GetOr(pending, k, {}) + GetOr(committed, k, {});
        if doSet then base + flags else base - flags
      else pending[k]
  }

  lemma AdoptFlagsStep(pending: map<int, Mask>, committed: map<int, Mask>, done: set<int>, k: int, flags: Mask, doSet: bool)
    requires k !in done
    ensures var cur := AdoptFlags(pending, committed, done, flags, doSet);
            var base := GetOr(cur, k, {}) + GetOr(committed, k, {});
            cur[k := if doSet then base + flags else base - flags] == AdoptFlags(pending, committed, done + {k}, flags, doSet)
  {
    var cur := AdoptFlags(pending, committed, done, flags, doSet);
    var base := GetOr(cur, k, {}) + GetOr(committed, k, {});
    var after := cur[k := if doSet then base + flags else base - flags];
    var want := AdoptFlags(pending, committed, done + {k}, flags, doSet);
    assert GetOr(cur, k, {}) == GetOr(pending, k, {});
    assert after.Keys == want.Keys;
    forall j | j in after
      ensures after[j] == want[j]
    {
    }
  }

  /** The loop over crush nodes (or device classes). */
  method MergeGroupFlags(pending: map<int, Mask>, committed: map<int, Mask>, ids: set<int>, flags: Mask, doSet: bool)
    returns (r: map<int, Mask>)
    ensures r == AdoptFlags(pending, committed, ids, flags, doSet)
  {
    r := pending;
    var todo := ids;
    assert AdoptFlags(pending, committed, {}, flags, doSet) == pending;
    while todo != {}
      invariant todo <= ids
      invariant r == AdoptFlags(pending, committed, ids - todo, flags, doSet)
      decreases todo
    {
      var k := Pick(todo);
      AdoptFlagsStep(pending, committed, ids - todo, k, flags, doSet);
      var base := GetOr(r, k, {}) + GetOr(committed, k, {});
      r := r[k := if doSet then base + flags else base - flags];
      assert ids - (todo - {k}) == (ids - todo) + {k};
      todo := todo - {k};
    }
    assert ids - todo == ids;
  }

  /** The toggle masks after the OSD loop: each existing OSD of `done`
   *  got its GroupOsdAt, every other entry is as it was. */
  ghost predicate GroupAgrees(m: OsdMap, inc0: Incremental, flags: Mask, doSet: bool, pend: map<int, Mask>, done: set<int>)
  {
    forall k :: Entry(pend, k) ==
                (if k in done && Exists(m, k) then GroupOsdAt(m, Entry(inc0.newState, k), k, flags, doSet).0
                 else Entry(inc0.newState, k))
  }

  /** What GroupAgrees says about the projected state. */
  lemma GroupAgreesEffect(m: OsdMap, inc0: Incremental, flags: Mask, doSet: bool, inc: Incremental, done: set<int>)
    requires flags <= GROUP_FLAGS
    requires GroupAgrees(m, inc0, flags, doSet, inc.newState, done)
    ensures forall o, f :: o in done && Exists(m, o) && f in flags ==> (f in ProjectedState(m, inc, o) <==> doSet)
    ensures forall o, g :: o in done && Exists(m, o) && g !in flags ==>
              (g in ProjectedState(m, inc, o) <==> g in ProjectedState(m, inc0, o))
    ensures forall o :: !(o in done && Exists(m, o)) ==> Entry(inc.newState, o) == Entry(inc0.newState, o)
  {
    assert flags * GROUP_FLAGS == flags;
    forall o | o in done && Exists(m, o)
      ensures forall f :: f in flags ==> (f in ProjectedState(m, inc, o) <==> doSet)
      ensures forall g :: g !in flags ==> (g in ProjectedState(m, inc, o) <==> g in ProjectedState(m, inc0, o))
    {
      ProjectedStateOfEntry(m, inc, o);
      ProjectedStateOfEntry(m, inc0, o);
      assert Entry(inc.newState, o) == GroupOsdAt(m, Entry(inc0.newState, o), o, flags, doSet).0;
    }
  }

  lemma AdvanceGroup(m: OsdMap, inc0: Incremental, flags: Mask, doSet: bool, pend: map<int, Mask>, done: set<int>, o: int)
    requires GroupAgrees(m, inc0, flags, doSet, pend, done)
    requires o !in done && Exists(m, o)
    ensures Entry(pend, o) == Entry(inc0.newState, o)
    ensures GroupAgrees(m, inc0, flags, doSet, Put(pend, o, GroupOsdAt(m, Entry(pend, o), o, flags, doSet).0), done + {o})
  {
    assert Entry(pend, o) == Entry(inc0.newState, o);
  }

  /** Some existing OSD of `done` had a toggle to change. */
  ghost predicate GroupChanged(m: OsdMap, inc0: Incremental, flags: Mask, doSet: bool, done: set<int>)
  {
    exists k :: k in done && Exists(m, k) && GroupOsdAt(m, Entry(inc0.newState, k), k, flags, doSet).1
  }

  /** One turn of the OSD loop keeps both of its invariants. */
  lemma GroupOsdsStep(m: OsdMap, inc0: Incremental, flags: Mask, doSet: bool, st: map<int, Mask>, any: bool, done: set<int>, o: int)
    requires GroupAgrees(m, inc0, flags, doSet, st, done)
    requires any <==> GroupChanged(m, inc0, flags, doSet, done)
    requires o !in done && Exists(m, o)
    ensures var s := GroupOsdAt(m, Entry(st, o), o, flags, doSet);
            GroupAgrees(m, inc0, flags, doSet, Put(st, o, s.0), done + {o})
            && ((any || s.1) <==> GroupChanged(m, inc0, flags, doSet, done + {o}))
  {
    AdvanceGroup(m, inc0, flags, doSet, st, done, o);
    GroupAnyStep(m, inc0, flags, doSet, done, o, any, GroupOsdAt(m, Entry(st, o), o, flags, doSet).1);
  }

  lemma GroupAnyStep(m: OsdMap, inc0: Incremental, flags: Mask, doSet: bool, done: set<int>, o: int, any: bool, changed: bool)
    requires Exists(m, o)
    requires any <==> exists k :: k in done && Exists(m, k) && GroupOsdAt(m, Entry(inc0.newState, k), k, flags, doSet).1
    requires changed == GroupOsdAt(m, Entry(inc0.newState, o), o, flags, doSet).1
    ensures (any || changed) <==> exists k :: k in done + {o} && Exists(m, k) && GroupOsdAt(m, Entry(inc0.newState, k), k, flags, doSet).1
  {
    if changed {
      assert o in done + {o};
    }
    if any {
      var k :| k in done && Exists(m, k) && GroupOsdAt(m, Entry(inc0.newState, k), k, flags, doSet).1;
      assert k in done + {o};
    }
  }

  /** The OSD loop of set-group. */
  method GroupOsds(m: OsdMap, st0: map<int, Mask>, osds: set<int>, flags: Mask, doSet: bool, ghost inc0: Incremental)
    returns (st: map<int, Mask>, any: bool)
    requires st0 == inc0.newState
    ensures GroupAgrees(m, inc0, flags, doSet, st, osds)
    ensures any <==> GroupChanged(m, inc0, flags, doSet, osds)
  {
    st := st0;
    any := false;
    var todo := osds;
    while todo != {}
      invariant todo <= osds
      invariant GroupAgrees(m, inc0, flags, doSet, st, osds - todo)
      invariant any <==> GroupChanged(m, inc0, flags, doSet, osds - todo)
      decreases todo
    {
      var o := Pick(todo);
      ghost var done := osds - todo;
      assert osds - (todo - {o}) == done + {o};
      if Exists(m, o) {
        GroupOsdsStep(m, inc0, flags, doSet, st, any, done, o);
        var s := GroupOsdAt(m, Entry(st, o), o, flags, doSet);
        st := Put(st, o, s.0);
        any := any || s.1;
      } else {
        GroupSkip(m, inc0, flags, doSet, st, any, done, o);
      }
      todo := todo - {o};
    }
    assert osds - todo == osds;
  }

  lemma GroupSkip(m: OsdMap, inc0: Incremental, flags: Mask, doSet: bool, st: map<int, Mask>, any: bool, done: set<int>, o: int)
    requires GroupAgrees(m, inc0, flags, doSet, st, done)
    requires any <==> GroupChanged(m, inc0, flags, doSet, done)
    requires !Exists(m, o)
    ensures GroupAgrees(m, inc0, flags, doSet, st, done + {o})
    ensures any <==> GroupChanged(m, inc0, flags, doSet, done + {o})
  {
  }

  /**
   * set-group / unset-group / add-no* / rm-no* with the parsed `flags`:
   * no flag or no target is -EINVAL, and so is a target list that names
   * nothing; otherwise every existing OSD among the targets ends up with
   * each flag set exactly when doSet (other bits and other OSDs keep their
   * toggles), the crush nodes and device classes get AdoptFlags, and
   * `any` says whether a proposal follows.
   */
  method SetGroup(mon: OsdMonitor, doSet: bool, flags: Mask, who: seq<GroupTarget>) returns (err: int, any: bool)
    requires flags <= GROUP_FLAGS
    modifies mon
    ensures mon.osdmap == old(mon.osdmap)
    ensures mon.pendingMetadata == old(mon.pendingMetadata) && mon.pendingMetadataRm == old(mon.pendingMetadataRm)
    ensures err == 0 || err == -EINVAL
    ensures err == -EINVAL <==> flags == {} || who == [] || GroupTargetsOf(old(mon.osdmap), who) == GroupTargets({}, {}, {})
    ensures err != 0 ==> mon.pending == old(mon.pending) && !any
    ensures err == 0 ==>
              var t := GroupTargetsOf(old(mon.osdmap), who);
              mon.pending == old(mon.pending).(newState := mon.pending.newState,
                                               newCrushNodeFlags := AdoptFlags(old(mon.pending.newCrushNodeFlags), old(mon.osdmap).crushNodeFlags, t.nodes, flags, doSet),
                                               newDeviceClassFlags := AdoptFlags(old(mon.pending.newDeviceClassFlags), old(mon.osdmap).deviceClassFlags, t.classes, flags, doSet))
              && (forall o, f :: o in t.osds && Exists(mon.osdmap, o) && f in flags ==> (f in ProjectedState(mon.osdmap, mon.pending, o) <==> doSet))
              && (forall o, g :: o in t.osds && Exists(mon.osdmap, o) && g !in flags ==>
                    (g in ProjectedState(mon.osdmap, mon.pending, o) <==> g in ProjectedState(mon.osdmap, old(mon.pending), o)))
              && (forall o :: !(o in t.osds && Exists(mon.osdmap, o)) ==> Entry(mon.pending.newState, o) == Entry(old(mon.pending).newState, o))
              && (any <==> t.nodes != {} || t.classes != {}
                           || GroupChanged(mon.osdmap, old(mon.pending), flags, doSet, t.osds))
  {
    var m := mon.osdmap;
    if flags == {} || who == [] {
      return -EINVAL, false;
    }
    var t := CollectGroupTargets(m, who);
    if t.osds == {} && t.nodes == {} && t.classes == {} {
      return -EINVAL, false;
    }
    err := 0;
    var inc := mon.pending;
    var st;
    st, any := GroupOsds(m, inc.newState, t.osds, flags, doSet, inc);
    var nodeFlags := MergeGroupFlags(inc.newCrushNodeFlags, m.crushNodeFlags, t.nodes, flags, doSet);
    var classFlags := MergeGroupFlags(inc.newDeviceClassFlags, m.deviceClassFlags, t.classes, flags, doSet);
    var next := inc.(newState := st, newCrushNodeFlags := nodeFlags, newDeviceClassFlags := classFlags);
    GroupAgreesEffect(m, inc, flags, doSet, next, t.osds);
    mon.pending := next;
    any := any || t.nodes != {} || t.classes != {};
  }


  // ---------------------------------------------------------------------
  // osd lost
  // ---------------------------------------------------------------------

  /** osd lost: only with --yes-i-really-mean-it, only for an existing OSD
   *  that is down; records the epoch it went down in (`downAt`, from the
   *  OSD's info, which is not part of this model). */
  method MarkLost(mon: OsdMonitor, id: int, sure: bool, downAt: nat) returns (r: int)
    modifies mon
    ensures !sure ==> r == -EPERM
    ensures sure && !Exists(old(mon.osdmap), id) ==> r == -ENOENT
    ensures sure && IsUp(old(mon.osdmap), id) ==> r == -EBUSY
    ensures r == 0 <==> sure && Exists(old(mon.osdmap), id) && !IsUp(old(mon.osdmap), id)
    ensures r == 0 ==> mon.pending == old(mon.pending).(newLost := old(mon.pending.newLost)[id := downAt])
    ensures r != 0 ==> mon.pending == old(mon.pending)
    ensures mon.osdmap == old(mon.osdmap) && mon.pendingMetadata == old(mon.pendingMetadata)
    ensures mon.pendingMetadataRm == old(mon.pendingMetadataRm)
  {
    var m := mon.osdmap;
    if !sure {
      return -EPERM;
    } else if !Exists(m, id) {
      return -ENOENT;
    } else if !IsDown(m, id) {
      return -EBUSY;
    }
    mon.pending := mon.pending.(newLost := mon.pending.newLost[id := downAt]);
    return 0;
  }
}
