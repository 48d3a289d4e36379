/**
 * Checks of the OSD monitor that read the committed map and the pending
 * incremental and answer with an id or an error code: OSD id allocation,
 * the pg-count limit, erasure-code profile parsing, the cache-mode
 * transition table and the conditions for making one pool a tier of
 * another.
 */
module OsdMonitorChecks {
  import opened Wrappers
  import opened Collections
  import opened OsdMapModel

  // ---------------------------------------------------------------------
  // _allocate_osd_id

  /** A slot below max_osd that nothing uses: the OSD does not exist, is
   *  not booting in this epoch and is not being created. */
  predicate FreeSlot(m: OsdMap, inc: Incremental, i: int)
  {
    !Exists(m, i) && i !in inc.newUpClient && (i !in inc.newState || EXISTS !in inc.newState[i])
  }

  /**
   * _allocate_osd_id: the lowest free slot below max_osd goes into
   * `existingId` (and -1 is returned); with no free slot, existingId is -1
   * and the next id past the (pending) end of the map is returned.
   */
  method AllocateOsdId(mon: OsdMonitor) returns (id: int, existingId: int)
    ensures existingId >= 0 ==> id == -1 && existingId < mon.osdmap.maxOsd
                                && FreeSlot(mon.osdmap, mon.pending, existingId)
                                && forall j :: 0 <= j < existingId ==> !FreeSlot(mon.osdmap, mon.pending, j)
    ensures existingId < 0 ==> existingId == -1
                               && (forall j :: 0 <= j < mon.osdmap.maxOsd ==> !FreeSlot(mon.osdmap, mon.pending, j))
                               && id == (if mon.pending.newMaxOsd < 0 then mon.osdmap.maxOsd else mon.pending.newMaxOsd)
  {
    existingId := -1;
    var i := 0;
    while i < mon.osdmap.maxOsd
      invariant 0 <= i || mon.osdmap.maxOsd <= 0
      invariant forall j :: 0 <= j < i ==> !FreeSlot(mon.osdmap, mon.pending, j)
      decreases mon.osdmap.maxOsd - i
    {
      if FreeSlot(mon.osdmap, mon.pending, i) {
        existingId := i;
        return -1, existingId;
      }
      i := i + 1;
    }
    if mon.pending.newMaxOsd < 0 {
      return mon.osdmap.maxOsd, existingId;
    }
    return mon.pending.newMaxOsd, existingId;
  }

  /** A slot handed out by the allocator (either way) is one no existing
   *  OSD occupies, provided the pending max_osd does not shrink the map. */
  lemma AllocatedIdIsUnused(m: OsdMap, inc: Incremental, id: int, existingId: int)
    requires existingId >= 0 ==> id == -1 && FreeSlot(m, inc, existingId)
    requires existingId < 0 ==> id == (if inc.newMaxOsd < 0 then m.maxOsd else inc.newMaxOsd)
    requires inc.newMaxOsd < 0 || inc.newMaxOsd >= m.maxOsd
    ensures !Exists(m, if existingId >= 0 then existingId else id)
  {
  }

  // ---------------------------------------------------------------------
  // check_pg_num

  /** The sum of f over a finite set of pool ids. */
  ghost function SumOver(ids: set<int>, f: int -> int): int
    decreases |ids|
  {
    if ids == {} then 0
    else
      var i := MinKey(ids);
      f(i) + SumOver(ids - {i}, f)
  }

  /** The sum does not depend on which element is taken out first. */
  lemma {:induction false} SumOverRemove(ids: set<int>, f: int -> int, x: int)
    requires x in ids
    ensures SumOver(ids, f) == f(x) + SumOver(ids - {x}, f)
    decreases |ids|
  {
    var i := MinKey(ids);
    if i != x {
      SumOverRemove(ids - {i}, f, x);
      SumOverRemove(ids - {x}, f, i);
      assert ids - {i} - {x} == ids - {x} - {i};
    }
  }

  /** A pointwise larger summand gives a larger sum. */
  lemma {:induction false} SumOverMono(ids: set<int>, f: int -> int, g: int -> int)
    requires forall i :: i in ids ==> f(i) <= g(i)
    ensures SumOver(ids, f) <= SumOver(ids, g)
    decreases |ids|
  {
    if ids != {} {
      var i := PickElem(ids);
      SumOverRemove(ids, f, i);
      SumOverRemove(ids, g, i);
      SumOverMono(ids - {i}, f, g);
    }
  }

  /** What one existing pool contributes to the projected pg count: the
   *  candidate pg_num*size for the pool being checked, its target pg_num
   *  times its size for every other pool. */
  function PoolPgs(m: OsdMap, pool: int, pgNum: int, size: int, i: int): int
  {
    if i == pool then pgNum * size
    else if i in m.pools then m.pools[i].pgNumTarget * m.pools[i].size
    else 0
  }

  /** The number of PGs the cluster would hold; a new pool (id < 0) is
   *  counted on top of the existing ones. */
  ghost function ProjectedPgs(m: OsdMap, pool: int, pgNum: int, size: int): int
  {
    (if pool < 0 then pgNum * size else 0) + SumOver(m.pools.Keys, i => PoolPgs(m, pool, pgNum, size, i))
  }

  /** mon_max_pg_per_osd times the in OSDs, taking at least three. */
  function MaxPgs(m: OsdMap, maxPgPerOsd: nat): nat
  {
    maxPgPerOsd * (if NumInOsds(m) > 3 then NumInOsds(m) else 3)
  }

  /** check_pg_num: -ERANGE exactly when the projected pg count exceeds
   *  the per-OSD limit. */
  method CheckPgNum(m: OsdMap, pool: int, pgNum: int, size: int, maxPgPerOsd: nat) returns (r: int)
    ensures r == 0 || r == -ERANGE
    ensures r == -ERANGE <==> ProjectedPgs(m, pool, pgNum, size) > MaxPgs(m, maxPgPerOsd)
  {
    var maxPgs := maxPgPerOsd * (if |InOsds(m)| > 3 then |InOsds(m)| else 3);
    var projected := 0;
    if pool < 0 {
      projected := projected + pgNum * size;
    }
    ghost var f := i => PoolPgs(m, pool, pgNum, size, i);
    ghost var base := projected;
    var todo := m.pools.Keys;
    while todo != {}
      invariant todo <= m.pools.Keys
      invariant projected + SumOver(todo, f) == base + SumOver(m.pools.Keys, f)
      decreases todo
    {
      var i := Pick(todo);
      SumOverRemove(todo, f, i);
      if i == pool {
        projected := projected + pgNum * size;
      } else {
        projected := projected + m.pools[i].pgNumTarget * m.pools[i].size;
      }
      todo := todo - {i};
    }
    if projected > maxPgs {
      return -ERANGE;
    }
    return 0;
  }

  /** Asking for more PGs for an existing pool never turns a refusal into
   *  an acceptance. */
  lemma CheckPgNumMonotone(m: OsdMap, pool: int, pg1: int, pg2: int, size: nat)
    requires pool in m.pools && pg1 <= pg2
    ensures ProjectedPgs(m, pool, pg1, size) <= ProjectedPgs(m, pool, pg2, size)
  {
    forall i | i in m.pools.Keys
      ensures PoolPgs(m, pool, pg1, size, i) <= PoolPgs(m, pool, pg2, size, i)
    {
      if i == pool {
        assert pg1 * size <= pg2 * size by { MulRight(pg1, pg2, size); }
      }
    }
    SumOverMono(m.pools.Keys, i => PoolPgs(m, pool, pg1, size, i), i => PoolPgs(m, pool, pg2, size, i));
  }

  lemma MulRight(a: int, b: int, k: nat)
    requires a <= b
    ensures a * k <= b * k
  {
  }

  // ---------------------------------------------------------------------
  // parse_erasure_code_profile

  /** Index of the first '=' in s, or |s| when there is none. */
  function FindEq(s: string): (i: nat)
    ensures i <= |s|
    ensures i < |s| ==> s[i] == '='
    ensures forall j :: 0 <= j < i ==> s[j] != '='
  {
    if |s| == 0 then 0
    else if s[0] == '=' then 0
    else 1 + FindEq(s[1..])
  }

  /** One "key=value" argument as a key and a value; a bare key maps to "". */
  function SplitArg(s: string): (string, string)
  {
    var i := FindEq(s);
    if i == |s| then (s, "") else (s[..i], s[i + 1..])
  }

  predicate IsPrefix(p: string, s: string) { |p| <= |s| && s[..|p|] == p }

  /** The argument uses a retired "ruleset-" property. */
  predicate RetiredKey(s: string)
  {
    FindEq(s) < |s| && IsPrefix("ruleset-", SplitArg(s).0)
  }

  /** The properties the user gave, a later argument overriding an earlier one. */
  function UserProfile(args: seq<string>): map<string, string>
  {
    if args == [] then map[]
    else
      var kv := SplitArg(args[|args| - 1]);
      UserProfile(args[..|args| - 1])[kv.0 := kv.1]
  }

  /**
   * parse_erasure_code_profile, starting from the default profile (which
   * names a plugin): a retired property is refused with -EINVAL; otherwise
   * the user's properties override the defaults, unless the user picks a
   * different plugin, in which case only the user's properties remain.
   */
  method ParseErasureCodeProfile(args: seq<string>, defaults: map<string, string>)
    returns (r: int, profile: map<string, string>)
    requires "plugin" in defaults
    ensures r == 0 || r == -EINVAL
    ensures r == -EINVAL <==> exists i :: 0 <= i < |args| && RetiredKey(args[i])
    ensures r == 0 ==> forall k :: k in UserProfile(args) ==> k in profile && profile[k] == UserProfile(args)[k]
    ensures r == 0 && ("plugin" !in UserProfile(args) || UserProfile(args)["plugin"] == defaults["plugin"])
            ==> profile == defaults + UserProfile(args)
    ensures r == 0 && "plugin" in UserProfile(args) && UserProfile(args)["plugin"] != defaults["plugin"]
            ==> profile == UserProfile(args)
  {
    profile := defaults;
    var user: map<string, string> := map[];
    var i := 0;
    while i < |args|
      invariant 0 <= i <= |args|
      invariant user == UserProfile(args[..i])
      invariant profile == defaults + user
      invariant forall j :: 0 <= j < i ==> !RetiredKey(args[j])
    {
      var kv := SplitArg(args[i]);
      if FindEq(args[i]) < |args[i]| && IsPrefix("ruleset-", kv.0) {
        return -EINVAL, profile;
      }
      user := user[kv.0 := kv.1];
      profile := profile[kv.0 := kv.1];
      assert args[..i + 1][..i] == args[..i];
      i := i + 1;
    }
    assert args[..i] == args;
    if "plugin" in user && user["plugin"] != defaults["plugin"] {
      profile := user;
    }
    r := 0;
  }

  /** Whatever the user asks for, an accepted profile names a plugin. */
  lemma ParsedProfileHasPlugin(args: seq<string>, defaults: map<string, string>, profile: map<string, string>)
    requires "plugin" in defaults
    requires ("plugin" !in UserProfile(args) || UserProfile(args)["plugin"] == defaults["plugin"])
             ==> profile == defaults + UserProfile(args)
    requires "plugin" in UserProfile(args) && UserProfile(args)["plugin"] != defaults["plugin"]
             ==> profile == UserProfile(args)
    ensures "plugin" in profile
  {
  }

  // ---------------------------------------------------------------------
  // osd tier cache-mode

  /** pg_pool_t::get_cache_mode_from_str; -1 for an unknown name. */
  function CacheModeFromStr(s: string): (mode: int)
    ensures -1 <= mode <= CACHEMODE_PROXY
  {
    if s == "none" then CACHEMODE_NONE
    else if s == "writeback" then CACHEMODE_WRITEBACK
    else if s == "forward" then CACHEMODE_FORWARD
    else if s == "readonly" then CACHEMODE_READONLY
    else if s == "readforward" then CACHEMODE_READFORWARD
    else if s == "readproxy" then CACHEMODE_READPROXY
    else if s == "proxy" then CACHEMODE_PROXY
    else -1
  }

  /** Moving away from these committed modes to anything but the listed
   *  write-caching or proxy modes requires the cache to be clean. */
  predicate NeedsCleanCache(cur: int, mode: int)
  {
    (cur == CACHEMODE_READFORWARD && mode !in {CACHEMODE_WRITEBACK, CACHEMODE_PROXY, CACHEMODE_READPROXY}) ||
    (cur == CACHEMODE_READPROXY && mode !in {CACHEMODE_WRITEBACK, CACHEMODE_PROXY}) ||
    (cur == CACHEMODE_PROXY && mode !in {CACHEMODE_WRITEBACK, CACHEMODE_READPROXY}) ||
    (cur == CACHEMODE_FORWARD && mode !in {CACHEMODE_WRITEBACK, CACHEMODE_PROXY, CACHEMODE_READPROXY})
  }

  /** The outcome of `osd tier cache-mode`: an error, nothing to do, or
   *  the new mode to stage. */
  datatype CacheModeOutcome = CacheModeError(err: int) | CacheModeUnchanged | CacheModeSet(mode: int)

  /**
   * The cache-mode checks on a tier pool whose committed mode is `cur`
   * (`pendingMode` if the pending incremental already has the pool):
   * unknown and retired modes, unsafe modes without the confirmation,
   * the no-op case, the transitions out of writeback, and the dirty-object
   * check for the transitions that flush the cache.  `dirty` is the
   * pool's dirty-object count when its stats are known.
   */
  function CacheModeCheck(isTier: bool, cur: int, pendingMode: Option<int>, modestr: string,
                          sure: bool, dirty: Option<nat>): (o: CacheModeOutcome)
    ensures !isTier ==> o == CacheModeError(-EINVAL)
    ensures o.CacheModeSet? ==> o.mode != CACHEMODE_FORWARD && o.mode != CACHEMODE_READFORWARD
                                && o.mode == CacheModeFromStr(modestr) && o.mode >= 0
    ensures o.CacheModeSet? && cur == CACHEMODE_WRITEBACK ==> o.mode in {CACHEMODE_PROXY, CACHEMODE_READPROXY}
    ensures o.CacheModeSet? && NeedsCleanCache(cur, o.mode) ==> !(dirty.Some? && dirty.value > 0)
    ensures o.CacheModeSet? && o.mode == CACHEMODE_READONLY ==> sure
  {
    var mode := CacheModeFromStr(modestr);
    if !isTier then CacheModeError(-EINVAL)
    else if mode < 0 then CacheModeError(-EINVAL)
    else if mode == CACHEMODE_FORWARD || mode == CACHEMODE_READFORWARD then CacheModeError(-EPERM)
    else if mode !in {CACHEMODE_WRITEBACK, CACHEMODE_NONE, CACHEMODE_PROXY, CACHEMODE_READPROXY} && !sure
    then CacheModeError(-EPERM)
    else if cur == mode && (pendingMode.None? || pendingMode.value == cur) then CacheModeUnchanged
    else if cur == CACHEMODE_WRITEBACK && mode !in {CACHEMODE_PROXY, CACHEMODE_READPROXY}
    then CacheModeError(-EINVAL)
    else if NeedsCleanCache(cur, mode) && dirty.Some? && dirty.value > 0 then CacheModeError(-EBUSY)
    else CacheModeSet(mode)
  }

  /** From none or readonly any supported mode may be chosen, dirty or not. */
  lemma CacheModeFromNoneIsFree(cur: int, modestr: string, dirty: Option<nat>)
    requires cur == CACHEMODE_NONE || cur == CACHEMODE_READONLY
    requires CacheModeFromStr(modestr) in {CACHEMODE_NONE, CACHEMODE_WRITEBACK, CACHEMODE_PROXY, CACHEMODE_READPROXY}
    requires CacheModeFromStr(modestr) != cur
    ensures CacheModeCheck(true, cur, None, modestr, false, dirty) == CacheModeSet(CacheModeFromStr(modestr))
  {
  }

  /** A pool whose committed mode is already the requested one, with
   *  nothing pending, is reported as done without staging anything. */
  lemma CacheModeSameIsNoop(cur: int, modestr: string, dirty: Option<nat>)
    requires CacheModeFromStr(modestr) == cur
    requires cur in {CACHEMODE_NONE, CACHEMODE_WRITEBACK, CACHEMODE_PROXY, CACHEMODE_READPROXY}
    ensures CacheModeCheck(true, cur, None, modestr, false, dirty) == CacheModeUnchanged
  {
  }

  /** Staging a new cache mode: the pending copy of the pool gets the mode
   *  and FLAG_INCOMPLETE_CLONES. */
  function WithCacheMode(p: Pool, mode: int): (q: Pool)
    ensures q.cacheMode == mode && INCOMPLETE_CLONES in q.flags
    ensures q.flags == p.flags + {INCOMPLETE_CLONES}
    ensures q == p.(cacheMode := mode, flags := q.flags)
  {
    p.(cacheMode := mode, flags := p.flags + {INCOMPLETE_CLONES})
  }

  // ---------------------------------------------------------------------
  // _check_become_tier

  /**
   * _check_become_tier: whether `tier` may be made a tier of `base`.
   * Proceeding needs both pools free of other tiering and the tier pool
   * not used by CephFS; a tier that is already attached stops the command
   * without an error (idempotency).  Returns (proceed, err).
   */
  function CheckBecomeTier(tierId: int, tier: Pool, baseId: int, base: Pool, tierInUseByFs: bool): (r: (bool, int))
    ensures r.0 ==> r.1 == 0
    ensures r.0 <==> !tierInUseByFs && tierId !in base.tiers && !IsTier(base) && tier.tiers == {} && !IsTier(tier)
    ensures !r.0 && r.1 == 0 <==> !tierInUseByFs && tierId in base.tiers
  {
    if tierInUseByFs then (false, -EBUSY)
    else if tierId in base.tiers then (false, 0)
    else if IsTier(base) then (false, -EINVAL)
    else if tier.tiers != {} then (false, -EINVAL)
    else if IsTier(tier) then (false, -EINVAL)
    else (true, 0)
  }
}
