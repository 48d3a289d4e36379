/**
 * The committed OSD map and the pending incremental the monitor builds on
 * top of it.  Only the fields the monitor's mutation rules read or write
 * are kept.  Per-OSD vectors of the map are modelled as maps from OSD id
 * with the value-initialised default for a missing id.
 */
module OsdMapModel {
  import opened Wrappers
  import opened Collections
  import opened OsdTypes

  /** The CEPH_OSD_* state bits.  A uint32 state word is modelled as the
   *  set of its bits: `|` is union, `& ~` is difference, `^` is symmetric
   *  difference and a zero word is the empty set. */
  datatype OsdFlag = EXISTS | UP | AUTOOUT | NEW | FULL | NEARFULL | BACKFILLFULL
                   | DESTROYED | NOUP | NODOWN | NOIN | NOOUT | STOP
  type Mask = set<OsdFlag>

  /** `a ^ b` on bit words. */
  function Xor<T>(a: set<T>, b: set<T>): set<T> { (a - b) + (b - a) }

  /** Weights: fixed point, 0x10000 is fully in. */
  const OSD_IN: nat := 0x10000
  const OSD_OUT: nat := 0

  const CRUSH_ITEM_NONE: int := 0x7fffffff

  // pg_pool_t types, flags and cache modes
  const TYPE_REPLICATED: nat := 1
  const TYPE_ERASURE: nat := 3

  /** pg_pool_t::FLAG_* bits, as a set like the OSD state. */
  datatype PoolFlag = HASHPSPOOL | POOL_FULL | EC_OVERWRITES | INCOMPLETE_CLONES | NODELETE
                    | NOPGCHANGE | NOSIZECHANGE | WRITE_FADVISE_DONTNEED | NOSCRUB | NODEEP_SCRUB
                    | FULL_QUOTA | POOL_NEARFULL | POOL_BACKFILLFULL | SELFMANAGED_SNAPS
                    | POOL_SNAPS | CREATING

  const CACHEMODE_NONE: int := 0
  const CACHEMODE_WRITEBACK: int := 1
  const CACHEMODE_FORWARD: int := 2
  const CACHEMODE_READONLY: int := 3
  const CACHEMODE_READFORWARD: int := 4
  const CACHEMODE_READPROXY: int := 5
  const CACHEMODE_PROXY: int := 6

  // ceph_release_t values (0 is "unknown")
  const RELEASE_FIREFLY: nat := 6
  const RELEASE_LUMINOUS: nat := 12
  const RELEASE_MIMIC: nat := 13
  const RELEASE_NAUTILUS: nat := 14
  const RELEASE_OCTOPUS: nat := 15

  // errno values
  const EPERM: int := 1
  const ENOENT: int := 2
  const EAGAIN: int := 11
  const EACCES: int := 13
  const EBUSY: int := 16
  const EEXIST: int := 17
  const EINVAL: int := 22
  const ERANGE: int := 34
  const ENOTSUP: int := 95

  /** A uuid_d; 0 stands for the all-zero (nil) uuid. */
  type Uuid = nat
  const NIL_UUID: Uuid := 0

  /** osd_xinfo_t: the extended per-OSD information the handlers touch. */
  datatype XInfo = XInfo(oldWeight: nat, deadEpoch: nat, features: nat)

  const DEFAULT_XINFO := XInfo(0, 0, 0)

  /** pg_pool_t: the fields the pool rules read or write. */
  datatype Pool = Pool(
    poolType: nat,
    size: nat,
    minSize: nat,
    pgNum: nat,
    pgNumPending: nat,
    pgNumTarget: nat,
    pgpNum: nat,
    pgpNumTarget: nat,
    flags: set<PoolFlag>,
    tierOf: int,
    tiers: set<int>,
    readTier: int,
    writeTier: int,
    cacheMode: int,
    quotaMaxBytes: nat,
    quotaMaxObjects: nat,
    applications: map<string, map<string, string>>,
    lastChange: nat,
    lastForceResendPrenautilus: nat,
    lastForceResendPreluminous: nat)

  predicate IsTier(p: Pool) { p.tierOf >= 0 }
  predicate HasFlag(p: Pool, f: PoolFlag) { f in p.flags }

  /** The committed map. */
  datatype OsdMap = OsdMap(
    epoch: nat,
    maxOsd: int,
    state: map<int, Mask>,
    weight: map<int, nat>,
    xinfo: map<int, XInfo>,
    uuid: map<int, Uuid>,
    upThru: map<int, nat>,
    pools: map<int, Pool>,
    poolNames: map<int, string>,
    poolMax: int,
    requireOsdRelease: nat,
    requireMinCompatClient: nat,
    crushNodeFlags: map<int, Mask>,
    deviceClassFlags: map<int, Mask>)

  function GetState(m: OsdMap, o: int): Mask { GetOr(m.state, o, {}) }
  function GetWeight(m: OsdMap, o: int): nat { GetOr(m.weight, o, OSD_OUT) }
  function GetXInfo(m: OsdMap, o: int): XInfo { GetOr(m.xinfo, o, DEFAULT_XINFO) }
  function GetUuid(m: OsdMap, o: int): Uuid { GetOr(m.uuid, o, NIL_UUID) }
  function GetUpThru(m: OsdMap, o: int): nat { GetOr(m.upThru, o, 0) }

  predicate Exists(m: OsdMap, o: int) { 0 <= o < m.maxOsd && EXISTS in GetState(m, o) }
  predicate IsUp(m: OsdMap, o: int) { Exists(m, o) && UP in GetState(m, o) }
  predicate IsDown(m: OsdMap, o: int) { !IsUp(m, o) }
  predicate IsOut(m: OsdMap, o: int) { !Exists(m, o) || GetWeight(m, o) == OSD_OUT }
  predicate IsIn(m: OsdMap, o: int) { !IsOut(m, o) }
  predicate IsDestroyed(m: OsdMap, o: int) { Exists(m, o) && DESTROYED in GetState(m, o) }
  predicate IsStop(m: OsdMap, o: int) { Exists(m, o) && STOP in GetState(m, o) }
  predicate IsNew(m: OsdMap, o: int) { Exists(m, o) && NEW in GetState(m, o) }

  /** The per-OSD no{up,down,in,out} bits. */
  predicate HasOsdFlag(m: OsdMap, o: int, f: OsdFlag) { Exists(m, o) && f in GetState(m, o) }

  function ExistingOsds(m: OsdMap): set<int> { set i | 0 <= i < m.maxOsd && Exists(m, i) }
  function UpOsds(m: OsdMap): set<int> { set i | 0 <= i < m.maxOsd && IsUp(m, i) }
  function InOsds(m: OsdMap): set<int> { set i | 0 <= i < m.maxOsd && IsIn(m, i) }
  function OutExistingOsds(m: OsdMap): set<int> { set i | 0 <= i < m.maxOsd && Exists(m, i) && IsOut(m, i) }

  function NumOsds(m: OsdMap): nat { |ExistingOsds(m)| }
  function NumUpOsds(m: OsdMap): nat { |UpOsds(m)| }
  function NumInOsds(m: OsdMap): nat { |InOsds(m)| }

  /** Every existing OSD has an id below max_osd, so the up and in sets are
   *  subsets of the existing set. */
  lemma CountsBounded(m: OsdMap)
    ensures NumUpOsds(m) <= NumOsds(m)
    ensures NumInOsds(m) <= NumOsds(m)
  {
    assert UpOsds(m) <= ExistingOsds(m);
    assert InOsds(m) <= ExistingOsds(m);
    SubsetCard(UpOsds(m), ExistingOsds(m));
    SubsetCard(InOsds(m), ExistingOsds(m));
  }

  lemma SubsetCard<T>(a: set<T>, b: set<T>)
    requires a <= b
    ensures |a| <= |b|
  {
    if a != {} {
      var x :| x in a;
      SubsetCard(a - {x}, b - {x});
    }
  }

  /** identify_osd: some id below max_osd that exists with this uuid, or -1.
   *  Every caller only asks whether the result is >= 0 or compares it with
   *  an id known to carry the uuid, so the choice among equals is immaterial
   *  once uuids are unique. */
  predicate UuidIn(m: OsdMap, u: Uuid) { exists i :: 0 <= i < m.maxOsd && Exists(m, i) && GetUuid(m, i) == u }

  /** The pending incremental (OSDMap::Incremental). */
  datatype Incremental = Incremental(
    epoch: nat,
    newMaxOsd: int,
    newPoolMax: int,
    newState: map<int, Mask>,
    newWeight: map<int, nat>,
    newXinfo: map<int, XInfo>,
    newUuid: map<int, Uuid>,
    newUpThru: map<int, nat>,
    newUpClient: set<int>,
    newLost: map<int, nat>,
    newPgTemp: map<PgId, seq<int>>,
    newPrimaryTemp: map<PgId, int>,
    newPgUpmap: map<PgId, seq<int>>,
    oldPgUpmap: set<PgId>,
    newPgUpmapItems: map<PgId, seq<(int, int)>>,
    oldPgUpmapItems: set<PgId>,
    newPools: map<int, Pool>,
    newPoolNames: map<int, string>,
    oldPools: set<int>,
    newCrushNodeFlags: map<int, Mask>,
    newDeviceClassFlags: map<int, Mask>,
    newRequireOsdRelease: nat)

  /** A fresh incremental for the next epoch: nothing staged. */
  function EmptyIncremental(epoch: nat): (inc: Incremental)
    ensures inc.epoch == epoch && inc.newMaxOsd == -1 && inc.newPoolMax == -1
    ensures inc.newState == map[] && inc.newWeight == map[] && inc.newPools == map[]
  {
    Incremental(epoch, -1, -1, map[], map[], map[], map[], map[], {}, map[],
                map[], map[], map[], {}, map[], {}, map[], map[], {}, map[], map[], 0)
  }

  /** pending_osd_state_exists: some bit of `s` is already toggled for osd. */
  predicate PendingStateExists(inc: Incremental, osd: int, s: Mask)
  {
    osd in inc.newState && inc.newState[osd] * s != {}
  }

  /** pending_osd_state_set: ORs `s` into the toggle mask unless a bit of it
   *  is already pending; the flag says whether anything was staged. */
  function PendingStateSet(inc: Incremental, osd: int, s: Mask): (r: (Incremental, bool))
    ensures r.1 <==> !PendingStateExists(inc, osd, s)
    ensures r.1 ==> r.0.newState == inc.newState[osd := GetOr(inc.newState, osd, {}) + s]
    ensures r.0 == inc.(newState := r.0.newState)
    ensures !r.1 ==> r.0 == inc
  {
    if PendingStateExists(inc, osd, s) then (inc, false)
    else (inc.(newState := inc.newState[osd := GetOr(inc.newState, osd, {}) + s]), true)
  }

  /** pending_osd_state_clear: cancels pending bits of `s`; an entry whose
   *  mask becomes 0 is erased, so no zero mask is ever left behind. */
  function PendingStateClear(inc: Incremental, osd: int, s: Mask): (r: (Incremental, bool))
    ensures r.1 <==> PendingStateExists(inc, osd, s)
    ensures !r.1 ==> r.0 == inc
    ensures r.1 ==> !PendingStateExists(r.0, osd, s)
    ensures r.0 == inc.(newState := r.0.newState)
    ensures r.0.newState - {osd} == inc.newState - {osd}
    ensures r.1 && osd in r.0.newState ==> r.0.newState[osd] == inc.newState[osd] - s != {}
    ensures r.1 ==> GetOr(r.0.newState, osd, {}) == inc.newState[osd] - s
  {
    if !PendingStateExists(inc, osd, s) then (inc, false)
    else
      var m := inc.newState[osd] - s;
      if m == {} then (inc.(newState := inc.newState - {osd}), true)
      else (inc.(newState := inc.newState[osd := m]), true)
  }

  /** Setting then clearing the same bits on an OSD with nothing pending
   *  restores the incremental. */
  lemma SetThenClearRestores(inc: Incremental, osd: int, s: Mask)
    requires s != {}
    requires osd !in inc.newState
    ensures PendingStateClear(PendingStateSet(inc, osd, s).0, osd, s).0 == inc
  {
    var a := PendingStateSet(inc, osd, s).0;
    assert a.newState[osd] == s;
    assert a.newState - {osd} == inc.newState;
  }

  /** The state an OSD will have once the incremental applies: the committed
   *  state XOR the pending toggle mask, a blank toggle counted as no change. */
  function ProjectedState(m: OsdMap, inc: Incremental, o: int): Mask
  {
    Xor(GetState(m, o), GetOr(inc.newState, o, {}))
  }

  /** The toggle applying the incremental uses: a blank one stands for UP. */
  function AppliedToggle(inc: Incremental, o: int): (t: Mask)
    ensures o !in inc.newState ==> t == {}
    ensures o in inc.newState && inc.newState[o] != {} ==> t == inc.newState[o]
    ensures o in inc.newState && inc.newState[o] == {} ==> t == {UP}
  {
    if o !in inc.newState then {}
    else if inc.newState[o] == {} then {UP}
    else inc.newState[o]
  }

  /** The state once the incremental is applied, blank toggles read as UP. */
  function AppliedState(m: OsdMap, inc: Incremental, o: int): Mask
  {
    Xor(GetState(m, o), AppliedToggle(inc, o))
  }

  /** Once no toggle is blank, the applied state is the projected one. */
  lemma AppliedIsProjected(m: OsdMap, inc: Incremental, o: int)
    requires forall p :: p in inc.newState ==> inc.newState[p] != {}
    ensures AppliedState(m, inc, o) == ProjectedState(m, inc, o)
  {
  }

  /** A blank toggle left in place would flip the OSD's UP bit. */
  lemma BlankToggleFlipsUp(m: OsdMap, inc: Incremental, o: int)
    requires o in inc.newState && inc.newState[o] == {}
    ensures UP in AppliedState(m, inc, o) <==> UP !in GetState(m, o)
    ensures AppliedState(m, inc, o) - {UP} == GetState(m, o) - {UP}
    ensures ProjectedState(m, inc, o) == GetState(m, o)
  {
  }

  predicate TogglesUp(inc: Incremental, o: int)
    requires o in inc.newState
  {
    UP in inc.newState[o]
  }

  /** Incremental::get_net_marked_down: OSDs whose UP bit toggles, counted +1
   *  when currently up (going down) and -1 otherwise. */
  function NetMarkedDown(m: OsdMap, inc: Incremental): int
  {
    |set o | o in inc.newState && TogglesUp(inc, o) && IsUp(m, o)| -
    |set o | o in inc.newState && TogglesUp(inc, o) && !IsUp(m, o)|
  }

  /** Incremental::get_net_marked_out: new weights that flip an OSD out
   *  count +1, ones that flip it in count -1. */
  function NetMarkedOut(m: OsdMap, inc: Incremental): int
  {
    |set o | o in inc.newWeight && inc.newWeight[o] == OSD_OUT && !IsOut(m, o)| -
    |set o | o in inc.newWeight && inc.newWeight[o] != OSD_OUT && IsOut(m, o)|
  }

  /** The pool as the pending incremental sees it (get_new_pool's source). */
  function PendingPool(m: OsdMap, inc: Incremental, id: int): Pool
    requires id in m.pools
  {
    if id in inc.newPools then inc.newPools[id] else m.pools[id]
  }

  /**
   * The monitor service state.  Handlers validate a request against the
   * committed map and record its effect in `pending`; the committed map
   * itself only changes when a proposal commits, which is not modelled.
   */
  class OsdMonitor {
    var osdmap: OsdMap
    var pending: Incremental
    var pendingMetadata: map<int, map<string, string>>
    var pendingMetadataRm: set<int>

    constructor(m: OsdMap)
      ensures osdmap == m && pending == EmptyIncremental(m.epoch + 1)
      ensures pendingMetadata == map[] && pendingMetadataRm == {}
    {
      osdmap := m;
      pending := EmptyIncremental(m.epoch + 1);
      pendingMetadata := map[];
      pendingMetadataRm := {};
    }
  }
}
