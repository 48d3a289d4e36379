/**
 * The pool commands of the OSD monitor: the write-capability test,
 * application tags, renaming and removal checks, the numeric `osd pool
 * set` variables, the quota status sweep and the staging of a new pool.
 * Every handler validates against the committed map and stages its effect
 * as a copy of the pool in the pending incremental.
 */
module PoolRules {
  import opened Wrappers
  import opened Collections
  import opened OsdMapModel
  import OsdMonitorChecks

  const MAX_POOL_APPLICATIONS: nat := 4
  const MAX_POOL_APPLICATION_KEYS: nat := 64
  const MAX_POOL_APPLICATION_LENGTH: nat := 128

  // ---------------------------------------------------------------------
  // is_osd_writable

  /** The parts of an OSD capability grant the write test looks at. */
  datatype CapGrant = CapGrant(allowWrite: bool, matchAll: bool, poolName: string)

  /** A grant allows writing a pool when it carries the w bit and either
   *  matches everything or names that (non-empty) pool. */
  function IsOsdWritable(g: CapGrant, poolName: Option<string>): (w: bool)
    ensures w ==> g.allowWrite
    ensures w && !g.matchAll ==> poolName == Some(g.poolName) && g.poolName != ""
    ensures g.allowWrite && g.matchAll ==> w
  {
    if g.allowWrite then
      if g.matchAll then true
      else poolName.Some? && g.poolName != "" && g.poolName == poolName.value
    else false
  }

  /** A grant that names no pool writes to every pool or to none, and a
   *  grant that writes without knowing the pool writes to every pool. */
  lemma WritableWithoutNameIsUniversal(g: CapGrant, name: string)
    ensures IsOsdWritable(g, None) ==> IsOsdWritable(g, Some(name))
    ensures g.poolName == "" ==> IsOsdWritable(g, Some(name)) == IsOsdWritable(g, None)
  {
    if g.allowWrite && !g.matchAll {
      assert !IsOsdWritable(g, None);
    }
  }

  // ---------------------------------------------------------------------
  // _check_remove_pool

  /** Whether a pool may be deleted: not used by a file system, neither a
   *  tier nor a base of tiers (-EBUSY), and deletion allowed both by the
   *  monitor configuration and by the pool's own flag (-EPERM). */
  function CheckRemovePool(pool: Pool, inUseByFs: bool, allowPoolDelete: bool): (r: int)
    ensures r == 0 || r == -EBUSY || r == -EPERM
    ensures r == -EBUSY <==> inUseByFs || IsTier(pool) || pool.tiers != {}
    ensures r == 0 <==> !inUseByFs && !IsTier(pool) && pool.tiers == {}
                        && allowPoolDelete && !HasFlag(pool, NODELETE)
  {
    if inUseByFs then -EBUSY
    else if pool.tierOf >= 0 then -EBUSY
    else if pool.tiers != {} then -EBUSY
    else if !allowPoolDelete then -EPERM
    else if NODELETE in pool.flags then -EPERM
    else 0
  }

  // ---------------------------------------------------------------------
  // _prepare_rename_pool

  /** Some pool other than `except` already has `name` pending. */
  predicate NameHeldExcept(names: map<int, string>, except: Option<int>, name: string)
  {
    exists id :: id in names && Some(id) != except && names[id] == name
  }

  /** No two pending pool names are equal. */
  predicate NamesDistinct(names: map<int, string>)
  {
    forall a, b :: a in names && b in names && a != b ==> names[a] != names[b]
  }

  /** The loop over new_pool_names looking for a name. */
  method FindPendingName(names: map<int, string>, except: Option<int>, name: string) returns (found: bool)
    ensures found <==> NameHeldExcept(names, except, name)
  {
    var todo := names.Keys;
    while todo != {}
      invariant todo <= names.Keys
      invariant !NameHeldExcept(names - todo, except, name)
      decreases todo
    {
      var id := Pick(todo);
      if names[id] == name && Some(id) != except {
        assert id in names - (todo - {id});
        return true;
      }
      todo := todo - {id};
      assert forall k :: k in names - todo ==> k in names - (todo + {id}) || k == id;
    }
    assert names - todo == names;
    return false;
  }

  /** Renaming refuses a pool pending removal (-ENOENT) and a name another
   *  pool already has pending (-EEXIST); otherwise it records the name. */
  method PrepareRenamePool(mon: OsdMonitor, pool: int, newName: string) returns (r: int)
    modifies mon
    ensures r == 0 || r == -ENOENT || r == -EEXIST
    ensures r == -ENOENT <==> pool in old(mon.pending.oldPools)
    ensures r == -EEXIST <==> pool !in old(mon.pending.oldPools)
                              && NameHeldExcept(old(mon.pending.newPoolNames), Some(pool), newName)
    ensures r != 0 ==> unchanged(mon)
    ensures r == 0 ==> mon.pending == old(mon.pending).(newPoolNames := old(mon.pending.newPoolNames)[pool := newName])
    ensures mon.osdmap == old(mon.osdmap) && mon.pendingMetadata == old(mon.pendingMetadata)
    ensures mon.pendingMetadataRm == old(mon.pendingMetadataRm)
  {
    if pool in mon.pending.oldPools {
      return -ENOENT;
    }
    var taken := FindPendingName(mon.pending.newPoolNames, Some(pool), newName);
    if taken {
      return -EEXIST;
    }
    mon.pending := mon.pending.(newPoolNames := mon.pending.newPoolNames[pool := newName]);
    return 0;
  }

  /** A rename that passes the check keeps the pending names distinct. */
  lemma RenameKeepsNamesDistinct(names: map<int, string>, pool: int, newName: string)
    requires NamesDistinct(names)
    requires !NameHeldExcept(names, Some(pool), newName)
    ensures NamesDistinct(names[pool := newName])
  {
    var n := names[pool := newName];
    forall a, b | a in n && b in n && a != b
      ensures n[a] != n[b]
    {
      if a == pool {
        assert b in names && Some(b) != Some(pool);
      } else if b == pool {
        assert a in names && Some(a) != Some(pool);
      }
    }
  }

  // ---------------------------------------------------------------------
  // update_pools_status

  /** The statistics summary the quota check reads for one pool: the
   *  signed 64-bit num_bytes and num_objects counters. */
  datatype PoolSum = PoolSum(numBytes: int, numObjects: int)

  /** `(uint64_t)x` for a signed 64-bit counter: a negative count reads as
   *  a huge one. */
  function AsU64(x: int): (u: int)
    ensures 0 <= x ==> u == x
    ensures -0x8000_0000_0000_0000 <= x < 0 ==> u == x + 0x1_0000_0000_0000_0000 && u >= 0x8000_0000_0000_0000
  {
    if x < 0 then x + 0x1_0000_0000_0000_0000 else x
  }

  /** A pool is quota-full when a positive byte or object quota is reached,
   *  the counters compared as unsigned. */
  predicate QuotaFull(p: Pool, s: PoolSum)
  {
    (p.quotaMaxBytes > 0 && AsU64(s.numBytes) >= p.quotaMaxBytes)
    || (p.quotaMaxObjects > 0 && AsU64(s.numObjects) >= p.quotaMaxObjects)
  }

  /** A negative counter (from statistics that went below zero) makes any
   *  positive quota below 2^63 count as reached. */
  lemma NegativeCountIsFull(p: Pool, s: PoolSum)
    requires 0 < p.quotaMaxBytes <= 0x8000_0000_0000_0000
    requires -0x8000_0000_0000_0000 <= s.numBytes < 0
    ensures QuotaFull(p, s)
  {
  }

  datatype QuotaAction = KeepFlags | ClearQuotaFull | SetQuotaFull

  /** What the sweep does to one committed pool: set the quota flags when it
   *  has just become full, clear them when it no longer is. */
  function QuotaActionFor(p: Pool, s: PoolSum): (a: QuotaAction)
    ensures a == SetQuotaFull <==> !HasFlag(p, FULL_QUOTA) && QuotaFull(p, s)
    ensures a == ClearQuotaFull <==> HasFlag(p, FULL_QUOTA) && !QuotaFull(p, s)
  {
    if FULL_QUOTA in p.flags then
      if QuotaFull(p, s) then KeepFlags else ClearQuotaFull
    else if QuotaFull(p, s) then SetQuotaFull
    else KeepFlags
  }

  /** The flag edit for an action: FULL_QUOTA|FULL set with NEARFULL and
   *  BACKFILLFULL cleared, or FULL_QUOTA|FULL cleared; no other flag moves. */
  function ApplyQuotaAction(flags: set<PoolFlag>, a: QuotaAction): (f: set<PoolFlag>)
    ensures a == SetQuotaFull ==> FULL_QUOTA in f && POOL_FULL in f
                                  && POOL_NEARFULL !in f && POOL_BACKFILLFULL !in f
    ensures a == ClearQuotaFull ==> FULL_QUOTA !in f && POOL_FULL !in f
    ensures forall x :: (x != FULL_QUOTA && x != POOL_FULL && x != POOL_NEARFULL
                         && x != POOL_BACKFILLFULL) ==> (x in f <==> x in flags)
  {
    match a
    case KeepFlags => flags
    case ClearQuotaFull => flags - {FULL_QUOTA, POOL_FULL}
    case SetQuotaFull => (flags + {FULL_QUOTA, POOL_FULL}) - {POOL_NEARFULL, POOL_BACKFILLFULL}
  }

  /** Once a pool carries the flags its action set, the sweep leaves it
   *  alone as long as its usage stays on the same side of the quota. */
  lemma QuotaStatusSettles(p: Pool, s: PoolSum)
    ensures var q := p.(flags := ApplyQuotaAction(p.flags, QuotaActionFor(p, s)));
            QuotaActionFor(q, s) == KeepFlags
            && (HasFlag(q, FULL_QUOTA) <==> QuotaFull(p, s))
  {
    var q := p.(flags := ApplyQuotaAction(p.flags, QuotaActionFor(p, s)));
    if QuotaActionFor(p, s) == KeepFlags {
      assert q == p;
    }
  }

  /** The committed pools whose statistics call for a flag change. */
  function QuotaTouched(m: OsdMap, stats: map<int, PoolSum>): set<int>
  {
    set id | id in m.pools && id in stats && QuotaActionFor(m.pools[id], stats[id]) != KeepFlags
  }

  /** The pending copy of a touched pool with its action applied. */
  function WithQuotaAction(m: OsdMap, inc: Incremental, stats: map<int, PoolSum>, id: int): Pool
    requires id in m.pools && id in stats
  {
    var p := PendingPool(m, inc, id);
    p.(flags := ApplyQuotaAction(p.flags, QuotaActionFor(m.pools[id], stats[id])))
  }

  /** new_pools after the sweep has visited the pools in `done`. */
  function QuotaPools(m: OsdMap, inc: Incremental, stats: map<int, PoolSum>, done: set<int>): map<int, Pool>
  {
    var t := QuotaTouched(m, stats) * done;
    map id | id in inc.newPools.Keys + t ::
      if id in t then WithQuotaAction(m, inc, stats, id) else inc.newPools[id]
  }

  /** Before the sweep visits any pool, new_pools is as it was. */
  lemma QuotaPoolsNone(m: OsdMap, inc: Incremental, stats: map<int, PoolSum>)
    ensures inc.(newPools := QuotaPools(m, inc, stats, {})) == inc
  {
    assert QuotaPools(m, inc, stats, {}) == inc.newPools;
  }

  /** One more visited pool adds that pool to the touched ones exactly
   *  when it is touched. */
  lemma QuotaTouchedStep(t: set<int>, done: set<int>, id: int)
    ensures id !in t ==> t * (done + {id}) == t * done
    ensures id in t ==> t * (done + {id}) == t * done + {id}
    ensures (t * (done + {id}) != {}) <==> (t * done != {} || id in t)
  {
    if id in t {
      assert id in t * (done + {id});
    }
  }

  /** One more visited pool changes at most that pool's entry. */
  lemma QuotaPoolsStep(m: OsdMap, inc: Incremental, stats: map<int, PoolSum>, done: set<int>, id: int)
    requires id in m.pools && id !in done
    ensures id !in QuotaTouched(m, stats) ==> QuotaPools(m, inc, stats, done + {id}) == QuotaPools(m, inc, stats, done)
    ensures id in QuotaTouched(m, stats) ==>
              QuotaPools(m, inc, stats, done + {id}) == QuotaPools(m, inc, stats, done)[id := WithQuotaAction(m, inc, stats, id)]
    ensures PendingPool(m, inc.(newPools := QuotaPools(m, inc, stats, done)), id) == PendingPool(m, inc, id)
  {
    var t := QuotaTouched(m, stats);
    QuotaTouchedStep(t, done, id);
    var before := QuotaPools(m, inc, stats, done);
    var after := QuotaPools(m, inc, stats, done + {id});
    assert id in before ==> id in inc.newPools;
    if id in t {
      var want := before[id := WithQuotaAction(m, inc, stats, id)];
      assert after.Keys == want.Keys;
      forall k | k in after ensures after[k] == want[k] {
      }
    }
  }

  /** set_pool_flags: add flags to the pending copy of a pool. */
  method SetPoolFlags(mon: OsdMonitor, id: int, add: set<PoolFlag>)
    requires id in mon.osdmap.pools
    modifies mon
    ensures mon.pending == old(mon.pending).(newPools := old(mon.pending.newPools)[id :=
              var p := PendingPool(old(mon.osdmap), old(mon.pending), id); p.(flags := p.flags + add)])
    ensures mon.osdmap == old(mon.osdmap) && mon.pendingMetadata == old(mon.pendingMetadata)
    ensures mon.pendingMetadataRm == old(mon.pendingMetadataRm)
  {
    var p := PendingPool(mon.osdmap, mon.pending, id);
    mon.pending := mon.pending.(newPools := mon.pending.newPools[id := p.(flags := p.flags + add)]);
  }

  /** clear_pool_flags: remove flags from the pending copy of a pool. */
  method ClearPoolFlags(mon: OsdMonitor, id: int, remove: set<PoolFlag>)
    requires id in mon.osdmap.pools
    modifies mon
    ensures mon.pending == old(mon.pending).(newPools := old(mon.pending.newPools)[id :=
              var p := PendingPool(old(mon.osdmap), old(mon.pending), id); p.(flags := p.flags - remove)])
    ensures mon.osdmap == old(mon.osdmap) && mon.pendingMetadata == old(mon.pendingMetadata)
    ensures mon.pendingMetadataRm == old(mon.pendingMetadataRm)
  {
    var p := PendingPool(mon.osdmap, mon.pending, id);
    mon.pending := mon.pending.(newPools := mon.pending.newPools[id := p.(flags := p.flags - remove)]);
  }

  /** The flag edits of one quota action, as the sweep issues them. */
  method StageQuotaAction(mon: OsdMonitor, id: int, a: QuotaAction)
    requires id in mon.osdmap.pools && a != KeepFlags
    modifies mon
    ensures mon.pending == old(mon.pending).(newPools := old(mon.pending.newPools)[id :=
              var p := PendingPool(old(mon.osdmap), old(mon.pending), id); p.(flags := ApplyQuotaAction(p.flags, a))])
    ensures mon.osdmap == old(mon.osdmap) && mon.pendingMetadata == old(mon.pendingMetadata)
    ensures mon.pendingMetadataRm == old(mon.pendingMetadataRm)
  {
    if a == ClearQuotaFull {
      ClearPoolFlags(mon, id, {FULL_QUOTA, POOL_FULL});
    } else {
      ghost var inc := mon.pending;
      ghost var p := PendingPool(mon.osdmap, mon.pending, id);
      ghost var p1 := p.(flags := p.flags + {FULL_QUOTA, POOL_FULL});
      SetPoolFlags(mon, id, {FULL_QUOTA, POOL_FULL});
      assert PendingPool(mon.osdmap, mon.pending, id) == p1;
      ClearPoolFlags(mon, id, {POOL_NEARFULL, POOL_BACKFILLFULL});
      FullQuotaEdits(inc, id, p, p1);
    }
  }

  /** Setting FULL_QUOTA and FULL, then clearing NEARFULL and BACKFILLFULL,
   *  leaves the pool as the SetQuotaFull action describes. */
  lemma FullQuotaEdits(inc: Incremental, id: int, p: Pool, p1: Pool)
    requires p1 == p.(flags := p.flags + {FULL_QUOTA, POOL_FULL})
    ensures var mid := inc.(newPools := inc.newPools[id := p1]);
            mid.(newPools := mid.newPools[id := p1.(flags := p1.flags - {POOL_NEARFULL, POOL_BACKFILLFULL})])
            == inc.(newPools := inc.newPools[id := p.(flags := ApplyQuotaAction(p.flags, SetQuotaFull))])
  {
    var q := p.(flags := ApplyQuotaAction(p.flags, SetQuotaFull));
    assert p1.(flags := p1.flags - {POOL_NEARFULL, POOL_BACKFILLFULL}) == q;
    assert inc.newPools[id := p1][id := q] == inc.newPools[id := q];
  }

  /** One iteration of the sweep: the pool `id`, not visited before. */
  method SweepPool(mon: OsdMonitor, stats: map<int, PoolSum>, id: int, ghost inc0: Incremental, ghost done: set<int>)
    returns (touched: bool)
    requires id in mon.osdmap.pools && id !in done
    requires mon.pending == inc0.(newPools := QuotaPools(mon.osdmap, inc0, stats, done))
    modifies mon
    ensures mon.pending == inc0.(newPools := QuotaPools(old(mon.osdmap), inc0, stats, done + {id}))
    ensures touched <==> id in QuotaTouched(old(mon.osdmap), stats)
    ensures mon.osdmap == old(mon.osdmap) && mon.pendingMetadata == old(mon.pendingMetadata)
    ensures mon.pendingMetadataRm == old(mon.pendingMetadataRm)
  {
    var m := mon.osdmap;
    QuotaPoolsStep(m, inc0, stats, done, id);
    touched := false;
    if id in stats {
      var a := QuotaActionFor(m.pools[id], stats[id]);
      if a != KeepFlags {
        StageQuotaAction(mon, id, a);
        touched := true;
      }
    }
  }

  /**
   * update_pools_status: for every committed pool with statistics, stage
   * the quota flag change its usage calls for.  Returns whether any pool
   * was touched; does nothing while the statistics are unreadable.
   */
  method UpdatePoolsStatus(mon: OsdMonitor, statsReadable: bool, stats: map<int, PoolSum>) returns (changed: bool)
    modifies mon
    ensures !statsReadable ==> !changed && unchanged(mon)
    ensures statsReadable ==> mon.pending == old(mon.pending).(newPools :=
              QuotaPools(old(mon.osdmap), old(mon.pending), stats, old(mon.osdmap).pools.Keys))
    ensures statsReadable ==> (changed <==> QuotaTouched(old(mon.osdmap), stats) != {})
    ensures mon.osdmap == old(mon.osdmap) && mon.pendingMetadata == old(mon.pendingMetadata)
    ensures mon.pendingMetadataRm == old(mon.pendingMetadataRm)
  {
    if !statsReadable {
      return false;
    }
    changed := false;
    var m := mon.osdmap;
    ghost var inc0 := mon.pending;
    QuotaPoolsNone(m, inc0, stats);
    var todo := m.pools.Keys;
    while todo != {}
      invariant todo <= m.pools.Keys
      invariant mon.osdmap == m && mon.pendingMetadata == old(mon.pendingMetadata)
      invariant mon.pendingMetadataRm == old(mon.pendingMetadataRm)
      invariant mon.pending == inc0.(newPools := mon.pending.newPools)
      invariant mon.pending.newPools == QuotaPools(m, inc0, stats, m.pools.Keys - todo)
      invariant changed <==> QuotaTouched(m, stats) * (m.pools.Keys - todo) != {}
      decreases todo
    {
      var id := Pick(todo);
      ghost var done := m.pools.Keys - todo;
      QuotaTouchedStep(QuotaTouched(m, stats), done, id);
      var touched := SweepPool(mon, stats, id, inc0, done);
      changed := changed || touched;
      todo := todo - {id};
      assert done + {id} == m.pools.Keys - todo;
    }
    assert m.pools.Keys - todo == m.pools.Keys;
  }

  // ---------------------------------------------------------------------
  // _command_pool_application

  datatype AppCommand = AppEnable(force: bool) | AppDisable(force: bool) | AppSet | AppRm

  /** A refusal, a successful no-op, or the new application metadata. */
  datatype AppOutcome = AppFailed(errno: int) | AppNoop | AppUpdated(apps: map<string, map<string, string>>)

  /** The limits the application commands keep: at most four applications
   *  with non-empty names of at most 128 characters, each with at most 64
   *  non-empty keys, keys and values at most 128 characters. */
  predicate AppsWithinLimits(apps: map<string, map<string, string>>)
  {
    |apps| <= MAX_POOL_APPLICATIONS
    && forall a :: a in apps ==> a != "" && |a| <= MAX_POOL_APPLICATION_LENGTH && KeysWithinLimits(apps[a])
  }

  /** One application's keys: at most 64, each key non-empty, keys and
   *  values at most 128 characters. */
  predicate KeysWithinLimits(keys: map<string, string>)
  {
    |keys| <= MAX_POOL_APPLICATION_KEYS
    && forall k :: k in keys ==> k != "" && |k| <= MAX_POOL_APPLICATION_LENGTH && |keys[k]| <= MAX_POOL_APPLICATION_LENGTH
  }

  /** The application enable/disable/set/rm rules on one pool. */
  function ApplicationCommand(p: Pool, cmd: AppCommand, app: string, key: string, value: string): (o: AppOutcome)
    ensures key == "all" || value == "all" ==> o == AppFailed(-EINVAL)
    ensures o.AppFailed? ==> o.errno in {-EINVAL, -EPERM, -ENOENT}
    // enabling: a name, a base pool, room, and force past another application
    ensures cmd.AppEnable? && o.AppUpdated? ==>
              app != "" && |app| <= MAX_POOL_APPLICATION_LENGTH && !IsTier(p)
              && (app !in p.applications ==> |p.applications| < MAX_POOL_APPLICATIONS
                                             && (p.applications != map[] ==> cmd.force))
              && o.apps.Keys == p.applications.Keys + {app}
              && (app in p.applications ==> o.apps == p.applications)
    // disabling: only forced; disabling an absent application is a no-op
    ensures cmd.AppDisable? && !cmd.force ==> o.AppFailed?
    ensures cmd.AppDisable? && cmd.force && key != "all" && value != "all" ==>
              o == (if app in p.applications then AppUpdated(p.applications - {app}) else AppNoop)
    // setting a key
    ensures cmd.AppSet? && o.AppUpdated? ==>
              !IsTier(p) && app in p.applications && key != ""
              && |key| <= MAX_POOL_APPLICATION_LENGTH && |value| <= MAX_POOL_APPLICATION_LENGTH
              && (key !in p.applications[app] ==> |p.applications[app]| < MAX_POOL_APPLICATION_KEYS)
              && o.apps == p.applications[app := p.applications[app][key := value]]
    ensures cmd.AppSet? && app !in p.applications && !IsTier(p) && key != "all" && value != "all" ==>
              o == AppFailed(-ENOENT)
    // removing a key
    ensures cmd.AppRm? && key != "all" && value != "all" ==>
              o == (if app !in p.applications then AppFailed(-ENOENT)
                    else if key !in p.applications[app] then AppNoop
                    else AppUpdated(p.applications[app := p.applications[app] - {key}]))
  {
    var apps := p.applications;
    var present := app in apps;
    if key == "all" then AppFailed(-EINVAL)
    else if value == "all" then AppFailed(-EINVAL)
    else match cmd
      case AppEnable(force) =>
        if app == "" then AppFailed(-EINVAL)
        else if IsTier(p) then AppFailed(-EINVAL)
        else if !present && |apps| > 0 && !force then AppFailed(-EPERM)
        else if !present && |apps| >= MAX_POOL_APPLICATIONS then AppFailed(-EINVAL)
        else if |app| > MAX_POOL_APPLICATION_LENGTH then AppFailed(-EINVAL)
        else AppUpdated(if present then apps else apps[app := map[]])
      case AppDisable(force) =>
        if !force then AppFailed(-EPERM)
        else if !present then AppNoop
        else AppUpdated(apps - {app})
      case AppSet =>
        if IsTier(p) then AppFailed(-EINVAL)
        else if !present then AppFailed(-ENOENT)
        else if key == "" then AppFailed(-EINVAL)
        else if key !in apps[app] && |apps[app]| >= MAX_POOL_APPLICATION_KEYS then AppFailed(-EINVAL)
        else if |key| > MAX_POOL_APPLICATION_LENGTH then AppFailed(-EINVAL)
        else if |value| > MAX_POOL_APPLICATION_LENGTH then AppFailed(-EINVAL)
        else AppUpdated(apps[app := apps[app][key := value]])
      case AppRm =>
        if !present then AppFailed(-ENOENT)
        else if key !in apps[app] then AppNoop
        else AppUpdated(apps[app := apps[app] - {key}])
  }

  lemma EnableKeepsLimits(apps: map<string, map<string, string>>, app: string)
    requires AppsWithinLimits(apps) && app != "" && |app| <= MAX_POOL_APPLICATION_LENGTH
    requires app !in apps ==> |apps| < MAX_POOL_APPLICATIONS
    ensures AppsWithinLimits(if app in apps then apps else apps[app := map[]])
  {
    if app !in apps {
      assert |apps[app := map[]]| == |apps| + 1;
      assert KeysWithinLimits(map[]);
    }
  }

  lemma DisableKeepsLimits(apps: map<string, map<string, string>>, app: string)
    requires AppsWithinLimits(apps)
    ensures AppsWithinLimits(apps - {app})
  {
    assert (apps - {app}).Keys <= apps.Keys;
    assert |(apps - {app}).Keys| <= |apps.Keys| by {
      if app in apps {
        assert (apps - {app}).Keys == apps.Keys - {app};
      } else {
        assert (apps - {app}).Keys == apps.Keys;
      }
    }
  }

  lemma KeySetKeepsLimits(keys: map<string, string>, key: string, value: string)
    requires KeysWithinLimits(keys) && key != ""
    requires |key| <= MAX_POOL_APPLICATION_LENGTH && |value| <= MAX_POOL_APPLICATION_LENGTH
    requires key !in keys ==> |keys| < MAX_POOL_APPLICATION_KEYS
    ensures KeysWithinLimits(keys[key := value])
  {
    if key !in keys {
      assert |keys[key := value]| == |keys| + 1;
    } else {
      assert |keys[key := value]| == |keys|;
    }
  }

  lemma SetKeepsLimits(apps: map<string, map<string, string>>, app: string, key: string, value: string)
    requires AppsWithinLimits(apps) && app in apps && key != ""
    requires |key| <= MAX_POOL_APPLICATION_LENGTH && |value| <= MAX_POOL_APPLICATION_LENGTH
    requires key !in apps[app] ==> |apps[app]| < MAX_POOL_APPLICATION_KEYS
    ensures AppsWithinLimits(apps[app := apps[app][key := value]])
  {
    KeySetKeepsLimits(apps[app], key, value);
    assert apps[app := apps[app][key := value]].Keys == apps.Keys;
  }

  lemma RmKeepsLimits(apps: map<string, map<string, string>>, app: string, key: string)
    requires AppsWithinLimits(apps) && app in apps && key in apps[app]
    ensures AppsWithinLimits(apps[app := apps[app] - {key}])
  {
    var ks := apps[app] - {key};
    assert ks.Keys == apps[app].Keys - {key};
    assert apps[app := ks].Keys == apps.Keys;
  }

  /** Every accepted application command keeps the metadata within limits. */
  lemma ApplicationCommandKeepsLimits(p: Pool, cmd: AppCommand, app: string, key: string, value: string)
    requires AppsWithinLimits(p.applications)
    ensures var o := ApplicationCommand(p, cmd, app, key, value);
            o.AppUpdated? ==> AppsWithinLimits(o.apps)
  {
    var apps := p.applications;
    var o := ApplicationCommand(p, cmd, app, key, value);
    if o.AppUpdated? {
      match cmd
      case AppEnable(_) => EnableKeepsLimits(apps, app);
      case AppDisable(_) => DisableKeepsLimits(apps, app);
      case AppSet => SetKeepsLimits(apps, app, key, value);
      case AppRm => RmKeepsLimits(apps, app, key);
    }
  }

  /**
   * The application command handler.  In the prepare phase the pool is
   * read through the pending incremental and an accepted change is staged
   * with its last_change; in the preprocess phase nothing is staged.
   * `modified` reports a change that was not a no-op.
   */
  method CommandPoolApplication(mon: OsdMonitor, pool: int, cmd: AppCommand, app: string,
                                key: string, value: string, preparing: bool)
    returns (r: int, modified: bool)
    modifies mon
    ensures pool !in old(mon.osdmap.pools) ==> r == -ENOENT && !modified && unchanged(mon)
    ensures pool in old(mon.osdmap.pools) ==>
      var p := if preparing then PendingPool(old(mon.osdmap), old(mon.pending), pool) else old(mon.osdmap.pools[pool]);
      match ApplicationCommand(p, cmd, app, key, value)
      case AppFailed(e) => r == e && !modified && unchanged(mon)
      case AppNoop => r == 0 && !modified && unchanged(mon)
      case AppUpdated(apps) =>
        r == 0 && modified
        && mon.pending == (if preparing
                           then old(mon.pending).(newPools := old(mon.pending.newPools)[pool :=
                                  p.(applications := apps, lastChange := old(mon.pending.epoch))])
                           else old(mon.pending))
    ensures mon.osdmap == old(mon.osdmap) && mon.pendingMetadata == old(mon.pendingMetadata)
    ensures mon.pendingMetadataRm == old(mon.pendingMetadataRm)
  {
    if pool !in mon.osdmap.pools {
      return -ENOENT, false;
    }
    var p := mon.osdmap.pools[pool];
    if preparing && pool in mon.pending.newPools {
      p := mon.pending.newPools[pool];
    }
    var o := ApplicationCommand(p, cmd, app, key, value);
    match o
    case AppFailed(e) =>
      return e, false;
    case AppNoop =>
      return 0, false;
    case AppUpdated(apps) =>
      if preparing {
        mon.pending := mon.pending.(newPools := mon.pending.newPools[pool :=
                         p.(applications := apps, lastChange := mon.pending.epoch)]);
      }
      return 0, true;
  }

  // ---------------------------------------------------------------------
  // prepare_command_pool_set: the size and placement-group variables

  datatype PoolVar = SizeVar | MinSizeVar | PgNumActualVar | PgNumVar | PgpNumActualVar | PgpNumVar

  /** A refusal, an accepted request that changes nothing, or the new pool. */
  datatype SetOutcome = SetFailed(errno: int) | SetNoop | SetStaged(pool: Pool)

  /** size: replicated pools only, 1..10, within the PG budget; a smaller
   *  size drags min_size down with it.  `pgFits` is check_pg_num's verdict
   *  for the pool's pg_num at the new size. */
  function SetSize(p: Pool, n: Option<int>, pgFits: bool): (o: SetOutcome)
    ensures o.SetStaged? <==> (!HasFlag(p, NOSIZECHANGE) && p.poolType != TYPE_ERASURE
                               && n.Some? && 1 <= n.value <= 10 && pgFits)
    ensures o.SetStaged? ==> o.pool.size == n.value
                             && o.pool.minSize == (if n.value < p.minSize then n.value else p.minSize)
                             && o.pool == p.(size := o.pool.size, minSize := o.pool.minSize)
    ensures !o.SetNoop?
  {
    if NOSIZECHANGE in p.flags then SetFailed(-EPERM)
    else if p.poolType == TYPE_ERASURE then SetFailed(-ENOTSUP)
    else if n.None? then SetFailed(-EINVAL)
    else if n.value <= 0 || n.value > 10 then SetFailed(-EINVAL)
    else if !pgFits then SetFailed(-ERANGE)
    else SetStaged(p.(size := n.value, minSize := if n.value < p.minSize then n.value else p.minSize))
  }

  /** min_size: between 1 (or the erasure code's data chunk count, `ecK`)
   *  and the pool's size. */
  function SetMinSize(p: Pool, n: Option<int>, ecK: Result<int, int>): (o: SetOutcome)
    requires ecK.Ok? ==> ecK.value >= 1
    ensures o.SetStaged? ==> n.Some? && 1 <= n.value <= p.size && o.pool == p.(minSize := n.value)
    ensures o.SetStaged? && p.poolType == TYPE_ERASURE ==> ecK.Ok? && ecK.value <= n.value
    ensures p.poolType != TYPE_ERASURE && !HasFlag(p, NOSIZECHANGE) && n.Some? ==>
              (o.SetStaged? <==> 1 <= n.value <= p.size)
    ensures !o.SetNoop?
  {
    if NOSIZECHANGE in p.flags then SetFailed(-EPERM)
    else if n.None? then SetFailed(-EINVAL)
    else if p.poolType != TYPE_ERASURE then
      if n.value < 1 || n.value > p.size then SetFailed(-EINVAL)
      else SetStaged(p.(minSize := n.value))
    else if ecK.Err? then SetFailed(ecK.error)
    else if n.value < ecK.value || n.value > p.size then SetFailed(-EINVAL)
    else SetStaged(p.(minSize := n.value))
  }

  /** pg_num_actual: grow pg_num directly, or shrink pg_num_pending by at
   *  most one and not below pgp_num; never while the pool is being created. */
  function SetPgNumActual(p: Pool, n: Option<int>, maxPoolPgNum: nat, release: nat, epoch: nat): (o: SetOutcome)
    ensures n.Some? && n.value == p.pgNum ==> o == SetNoop
    ensures o.SetStaged? ==> n.Some? && 0 <= n.value <= maxPoolPgNum && !HasFlag(p, CREATING)
                             && o.pool.lastForceResendPreluminous == epoch
    ensures o.SetStaged? && n.value > p.pgNum ==> o.pool.pgNum == n.value && o.pool.pgNumPending == p.pgNumPending
    ensures o.SetStaged? && n.value < p.pgNum ==>
              release >= RELEASE_NAUTILUS && n.value == p.pgNum - 1 && n.value >= p.pgpNum
              && o.pool.pgNumPending == n.value && o.pool.pgNum == p.pgNum
              && o.pool.lastForceResendPrenautilus == epoch
    ensures o.SetStaged? ==> o.pool.pgpNum == p.pgpNum && o.pool.pgNumTarget == p.pgNumTarget
  {
    if n.None? then SetFailed(-EINVAL)
    else if n.value == p.pgNum then SetNoop
    else if n.value < 0 || n.value > maxPoolPgNum then SetFailed(-ERANGE)
    else if CREATING in p.flags then SetFailed(-EBUSY)
    else if n.value > p.pgNum then
      SetStaged(p.(pgNum := n.value,
                   lastForceResendPrenautilus := if p.pgNum != p.pgNumPending then epoch else p.lastForceResendPrenautilus,
                   lastForceResendPreluminous := epoch))
    else if release < RELEASE_NAUTILUS then SetFailed(-EPERM)
    else if n.value < p.pgpNum then SetFailed(-EINVAL)
    else if n.value < p.pgNum - 1 then SetFailed(-EINVAL)
    else SetStaged(p.(pgNumPending := n.value, lastForceResendPrenautilus := epoch,
                      lastForceResendPreluminous := epoch))
  }

  /** pg_num: move the target (and pgp_num's target when it tracked it);
   *  growth must fit the PG budget (`pgFits`) and needs force on a cache
   *  pool; pre-nautilus maps change pg_num itself and can only grow. */
  function SetPgNum(p: Pool, n: Option<int>, maxPoolPgNum: nat, pgFits: bool, force: bool,
                    release: nat, epoch: nat): (o: SetOutcome)
    ensures n.Some? && n.value == p.pgNumTarget && !HasFlag(p, NOPGCHANGE) ==> o == SetNoop
    ensures o.SetStaged? ==> !HasFlag(p, NOPGCHANGE) && n.Some? && 0 < n.value <= maxPoolPgNum
    ensures o.SetStaged? && n.value > p.pgNumTarget ==> pgFits && (p.cacheMode != CACHEMODE_NONE ==> force)
    ensures o.SetStaged? && release >= RELEASE_NAUTILUS ==>
              o.pool.pgNumTarget == n.value && o.pool.pgNum == p.pgNum
              && o.pool.pgpNumTarget == (if p.pgNumTarget == p.pgpNumTarget then n.value else p.pgpNumTarget)
    ensures o.SetStaged? && release < RELEASE_NAUTILUS ==>
              n.value > p.pgNumTarget && o.pool.pgNum == n.value
  {
    if NOPGCHANGE in p.flags then SetFailed(-EPERM)
    else if n.None? then SetFailed(-EINVAL)
    else if n.value == p.pgNumTarget then SetNoop
    else if n.value <= 0 || n.value > maxPoolPgNum then SetFailed(-ERANGE)
    else if n.value > p.pgNumTarget && !pgFits then SetFailed(-ERANGE)
    else if n.value > p.pgNumTarget && p.cacheMode != CACHEMODE_NONE && !force then SetFailed(-EPERM)
    else if n.value < p.pgNumTarget && release < RELEASE_NAUTILUS then SetFailed(-EPERM)
    else if release < RELEASE_NAUTILUS then
      SetStaged(p.(lastForceResendPrenautilus := epoch, lastForceResendPreluminous := epoch, pgNum := n.value))
    else
      SetStaged(p.(pgpNumTarget := if p.pgNumTarget == p.pgpNumTarget then n.value else p.pgpNumTarget,
                   pgNumTarget := n.value))
  }

  /** pgp_num_actual: positive and no more than pg_num or pg_num_pending. */
  function SetPgpNumActual(p: Pool, n: Option<int>): (o: SetOutcome)
    ensures o.SetStaged? <==> (!HasFlag(p, NOPGCHANGE) && n.Some? && 0 < n.value
                               && n.value <= p.pgNum && n.value <= p.pgNumPending)
    ensures o.SetStaged? ==> o.pool == p.(pgpNum := n.value)
    ensures !o.SetNoop?
  {
    if NOPGCHANGE in p.flags then SetFailed(-EPERM)
    else if n.None? then SetFailed(-EINVAL)
    else if n.value <= 0 then SetFailed(-EINVAL)
    else if n.value > p.pgNum then SetFailed(-EINVAL)
    else if n.value > p.pgNumPending then SetFailed(-EINVAL)
    else SetStaged(p.(pgpNum := n.value))
  }

  /** pgp_num: positive and no more than the pg_num target; sets the target
   *  (or, before nautilus, pgp_num itself). */
  function SetPgpNum(p: Pool, n: Option<int>, release: nat): (o: SetOutcome)
    ensures o.SetStaged? <==> !HasFlag(p, NOPGCHANGE) && n.Some? && 0 < n.value <= p.pgNumTarget
    ensures o.SetStaged? ==> o.pool == (if release < RELEASE_NAUTILUS then p.(pgpNum := n.value)
                                        else p.(pgpNumTarget := n.value))
    ensures !o.SetNoop?
  {
    if NOPGCHANGE in p.flags then SetFailed(-EPERM)
    else if n.None? then SetFailed(-EINVAL)
    else if n.value <= 0 then SetFailed(-EINVAL)
    else if n.value > p.pgNumTarget then SetFailed(-EINVAL)
    else if release < RELEASE_NAUTILUS then SetStaged(p.(pgpNum := n.value))
    else SetStaged(p.(pgpNumTarget := n.value))
  }

  /** 1 <= min_size <= size. */
  predicate SizesOrdered(p: Pool) { 1 <= p.minSize <= p.size }

  /** The size setters keep 1 <= min_size <= size. */
  lemma SizeSettersKeepOrder(p: Pool, n: Option<int>, pgFits: bool, ecK: Result<int, int>)
    requires SizesOrdered(p)
    requires ecK.Ok? ==> ecK.value >= 1
    ensures SetSize(p, n, pgFits).SetStaged? ==> SizesOrdered(SetSize(p, n, pgFits).pool)
    ensures SetMinSize(p, n, ecK).SetStaged? ==> SizesOrdered(SetMinSize(p, n, ecK).pool)
  {
  }

  /** 1 <= pgp_num <= pg_num and pgp_num <= pg_num_pending. */
  predicate PgpWithinPg(p: Pool) { 1 <= p.pgpNum <= p.pgNum && p.pgpNum <= p.pgNumPending }

  /** The two setters of the actual counts keep pgp_num within pg_num. */
  lemma ActualPgSettersKeepPgpWithinPg(p: Pool, n: Option<int>, maxPoolPgNum: nat, release: nat, epoch: nat)
    requires PgpWithinPg(p)
    ensures var o := SetPgNumActual(p, n, maxPoolPgNum, release, epoch);
            o.SetStaged? ==> PgpWithinPg(o.pool)
    ensures SetPgpNumActual(p, n).SetStaged? ==> PgpWithinPg(SetPgpNumActual(p, n).pool)
  {
  }

  /** check_pg_num's verdict for the pool at the given pg_num and size. */
  ghost predicate PgFits(m: OsdMap, pool: int, pgNum: int, size: int, maxPgPerOsd: nat)
  {
    OsdMonitorChecks.ProjectedPgs(m, pool, pgNum, size) <= OsdMonitorChecks.MaxPgs(m, maxPgPerOsd)
  }

  /** The whole variable dispatch on the pool as the pending incremental
   *  sees it. */
  ghost function PoolSetOutcome(m: OsdMap, id: int, p: Pool, v: PoolVar, n: Option<int>, force: bool,
                                maxPoolPgNum: nat, maxPgPerOsd: nat, ecK: Result<int, int>, epoch: nat): SetOutcome
    requires ecK.Ok? ==> ecK.value >= 1
  {
    match v
    case SizeVar => SetSize(p, n, n.Some? ==> PgFits(m, id, p.pgNum, n.value, maxPgPerOsd))
    case MinSizeVar => SetMinSize(p, n, ecK)
    case PgNumActualVar => SetPgNumActual(p, n, maxPoolPgNum, m.requireOsdRelease, epoch)
    case PgNumVar => SetPgNum(p, n, maxPoolPgNum, n.Some? ==> PgFits(m, id, n.value, p.size, maxPgPerOsd),
                              force, m.requireOsdRelease, epoch)
    case PgpNumActualVar => SetPgpNumActual(p, n)
    case PgpNumVar => SetPgpNum(p, n, m.requireOsdRelease)
  }

  /**
   * prepare_command_pool_set for the size and placement-group variables:
   * an unknown pool is -ENOENT; otherwise the variable's rule decides, and
   * an accepted change is staged with last_change set to the pending epoch.
   */
  method PreparePoolSet(mon: OsdMonitor, pool: int, v: PoolVar, n: Option<int>, force: bool,
                        maxPoolPgNum: nat, maxPgPerOsd: nat, ecK: Result<int, int>)
    returns (r: int)
    requires ecK.Ok? ==> ecK.value >= 1
    modifies mon
    ensures pool !in old(mon.osdmap.pools) ==> r == -ENOENT && unchanged(mon)
    ensures pool in old(mon.osdmap.pools) ==>
      var p := PendingPool(old(mon.osdmap), old(mon.pending), pool);
      match PoolSetOutcome(old(mon.osdmap), pool, p, v, n, force, maxPoolPgNum, maxPgPerOsd, ecK, old(mon.pending.epoch))
      case SetFailed(e) => r == e && unchanged(mon)
      case SetNoop => r == 0 && unchanged(mon)
      case SetStaged(q) =>
        r == 0 && mon.pending == old(mon.pending).(newPools := old(mon.pending.newPools)[pool :=
                                   q.(lastChange := old(mon.pending.epoch))])
    ensures mon.osdmap == old(mon.osdmap) && mon.pendingMetadata == old(mon.pendingMetadata)
    ensures mon.pendingMetadataRm == old(mon.pendingMetadataRm)
  {
    var m := mon.osdmap;
    if pool !in m.pools {
      return -ENOENT;
    }
    var p := PendingPool(m, mon.pending, pool);
    var epoch := mon.pending.epoch;
    var o: SetOutcome;
    match v {
      case SizeVar =>
        var fits := true;
        if n.Some? {
          var c := OsdMonitorChecks.CheckPgNum(m, pool, p.pgNum, n.value, maxPgPerOsd);
          fits := c == 0;
        }
        o := SetSize(p, n, fits);
      case MinSizeVar =>
        o := SetMinSize(p, n, ecK);
      case PgNumActualVar =>
        o := SetPgNumActual(p, n, maxPoolPgNum, m.requireOsdRelease, epoch);
      case PgNumVar =>
        var fits := true;
        if n.Some? {
          var c := OsdMonitorChecks.CheckPgNum(m, pool, n.value, p.size, maxPgPerOsd);
          fits := c == 0;
        }
        o := SetPgNum(p, n, maxPoolPgNum, fits, force, m.requireOsdRelease, epoch);
      case PgpNumActualVar =>
        o := SetPgpNumActual(p, n);
      case PgpNumVar =>
        o := SetPgpNum(p, n, m.requireOsdRelease);
    }
    match o {
      case SetFailed(e) =>
        return e;
      case SetNoop =>
        return 0;
      case SetStaged(q) =>
        mon.pending := mon.pending.(newPools := mon.pending.newPools[pool := q.(lastChange := epoch)]);
        return 0;
    }
  }

  // ---------------------------------------------------------------------
  // prepare_new_pool

  datatype FastRead = FastReadDefault | FastReadOff | FastReadOn

  /** The request for a new pool (zero counts and size mean "default"). */
  datatype NewPoolRequest = NewPoolRequest(name: string, pgNum: nat, pgpNum: nat, replSize: nat,
                                           poolType: nat, fastRead: FastRead)

  /** The configuration prepare_new_pool reads. `flags` is the default flag
   *  set together with the per-flag default switches. */
  datatype PoolDefaults = PoolDefaults(pgNum: nat, pgpNum: nat, maxPoolPgNum: nat, size: nat,
                                       maxInitialPgs: int, flags: set<PoolFlag>)

  /** pg_num and pgp_num after the defaults are filled in. */
  function EffectivePgNum(req: NewPoolRequest, d: PoolDefaults): nat
  {
    if req.pgNum == 0 then d.pgNum else req.pgNum
  }

  function EffectivePgpNum(req: NewPoolRequest, d: PoolDefaults): nat
  {
    var pgp := if req.pgpNum == 0 then d.pgpNum else req.pgpNum;
    if pgp == 0 then EffectivePgNum(req, d) else pgp
  }

  /** The replicated size prepare_pool_size takes: the request's size
   *  narrowed to its uint8_t parameter, the default size when that is 0. */
  function ReplicatedSize(req: NewPoolRequest, d: PoolDefaults): nat
  {
    if req.replSize % 256 == 0 then d.size else req.replSize % 256
  }

  /** prepare_pool_size: a replicated pool takes the requested or default
   *  size; an erasure pool takes the code's sizes; other types are -EINVAL. */
  function PoolSizes(req: NewPoolRequest, d: PoolDefaults, minSizeFor: nat -> nat,
                     ecSizes: Result<(nat, nat), int>): (r: Result<(nat, nat), int>)
    requires ecSizes.Err? ==> ecSizes.error != 0
    ensures r.Err? ==> r.error != 0
    ensures req.poolType == TYPE_REPLICATED && 0 < req.replSize < 256 ==>
              r == Ok((req.replSize, minSizeFor(req.replSize)))
    ensures req.poolType == TYPE_REPLICATED && req.replSize % 256 == 0 ==>
              r == Ok((d.size, minSizeFor(d.size)))
    ensures req.poolType == TYPE_REPLICATED && req.replSize % 256 != 0 ==>
              r == Ok((req.replSize % 256, minSizeFor(req.replSize % 256)))
    ensures req.poolType == TYPE_ERASURE ==> r == ecSizes
    ensures req.poolType != TYPE_REPLICATED && req.poolType != TYPE_ERASURE ==> r == Err(-EINVAL)
  {
    if req.poolType == TYPE_REPLICATED then
      var size := ReplicatedSize(req, d);
      Ok((size, minSizeFor(size)))
    else if req.poolType == TYPE_ERASURE then ecSizes
    else Err(-EINVAL)
  }

  /** The initial pg_num: the requested one, capped by a positive
   *  mon_osd_max_initial_pgs (taken as at least one). */
  function InitialPgNum(pg: nat, maxInitial: int): (n: nat)
    ensures n <= pg
    ensures maxInitial > 0 && pg > 0 ==> 0 < n <= maxInitial
    ensures maxInitial <= 0 ==> n == pg
  {
    if maxInitial > 0 then (if pg < maxInitial then pg else maxInitial) else pg
  }

  /** The validation steps of prepare_new_pool, in the source's order; 0
   *  when the pool may be created. `crushRule` is what preparing the crush
   *  rule returned and `ruleFits` whether the rule suits the pool. */
  ghost function NewPoolCheck(m: OsdMap, req: NewPoolRequest, d: PoolDefaults, minSizeFor: nat -> nat,
                              ecSizes: Result<(nat, nat), int>, crushRule: int, ruleFits: bool,
                              maxPgPerOsd: nat): (r: int)
    requires ecSizes.Err? ==> ecSizes.error != 0
    ensures r == 0 ==> req.name != "" && PoolSizes(req, d, minSizeFor, ecSizes).Ok?
  {
    var pg := EffectivePgNum(req, d);
    var pgp := EffectivePgpNum(req, d);
    var sizes := PoolSizes(req, d, minSizeFor, ecSizes);
    if req.name == "" then -EINVAL
    else if pg > d.maxPoolPgNum then -ERANGE
    else if pgp > pg then -ERANGE
    else if req.poolType == TYPE_REPLICATED && req.fastRead == FastReadOn then -EINVAL
    else if crushRule != 0 then crushRule
    else if sizes.Err? then sizes.error
    else if !PgFits(m, -1, pg, sizes.value.0, maxPgPerOsd) then -ERANGE
    else if !ruleFits then -EINVAL
    else 0
  }

  /** The pool prepare_new_pool stages under `id`: the pending entry for
   *  that id if one exists, else a default pool, with the new settings. */
  function NewPoolEntry(inc: Incremental, id: int, req: NewPoolRequest, d: PoolDefaults,
                        sizes: (nat, nat)): (p: Pool)
    ensures CREATING in p.flags && d.flags <= p.flags
    ensures p.pgNum == p.pgNumPending == p.pgpNum == InitialPgNum(EffectivePgNum(req, d), d.maxInitialPgs)
    ensures p.pgNumTarget == EffectivePgNum(req, d) && p.pgpNumTarget == EffectivePgpNum(req, d)
    ensures p.size == sizes.0 && p.minSize == sizes.1 && p.lastChange == inc.epoch
  {
    var base := if id in inc.newPools then inc.newPools[id] else DEFAULT_POOL;
    var pgNum := InitialPgNum(EffectivePgNum(req, d), d.maxInitialPgs);
    base.(poolType := req.poolType, flags := d.flags + {CREATING}, size := sizes.0, minSize := sizes.1,
          pgNum := pgNum, pgNumPending := pgNum, pgNumTarget := EffectivePgNum(req, d),
          pgpNum := pgNum, pgpNumTarget := EffectivePgpNum(req, d), lastChange := inc.epoch)
  }

  /** A default-constructed pg_pool_t: no tiers, no cache, no quota. */
  const DEFAULT_POOL: Pool := Pool(0, 0, 0, 0, 0, 0, 0, 0, {}, -1, {}, -1, -1, CACHEMODE_NONE, 0, 0, map[], 0, 0, 0)

  /** The id the next new pool gets: one past the pending pool_max, which
   *  starts from the committed one. */
  function NextPoolId(m: OsdMap, inc: Incremental): int
  {
    (if inc.newPoolMax == -1 then m.poolMax else inc.newPoolMax) + 1
  }

  /**
   * prepare_new_pool: validate, then (unless a pool of that name is already
   * pending, which succeeds without change) allocate the next pool id and
   * stage the pool and its name.
   */
  method PrepareNewPool(mon: OsdMonitor, req: NewPoolRequest, d: PoolDefaults, minSizeFor: nat -> nat,
                        ecSizes: Result<(nat, nat), int>, crushRule: int, ruleFits: bool, maxPgPerOsd: nat)
    returns (r: int)
    requires ecSizes.Err? ==> ecSizes.error != 0
    modifies mon
    ensures var c := NewPoolCheck(old(mon.osdmap), req, d, minSizeFor, ecSizes, crushRule, ruleFits, maxPgPerOsd);
            c != 0 ==> r == c && unchanged(mon)
    ensures NewPoolCheck(old(mon.osdmap), req, d, minSizeFor, ecSizes, crushRule, ruleFits, maxPgPerOsd) == 0 ==>
              r == 0
              && (req.name in old(mon.pending.newPoolNames).Values ==> unchanged(mon))
              && (req.name !in old(mon.pending.newPoolNames).Values ==>
                    var id := NextPoolId(old(mon.osdmap), old(mon.pending));
                    mon.pending == old(mon.pending).(
                      newPoolMax := id,
                      newPools := old(mon.pending.newPools)[id := NewPoolEntry(old(mon.pending), id, req, d,
                                    PoolSizes(req, d, minSizeFor, ecSizes).value)],
                      newPoolNames := old(mon.pending.newPoolNames)[id := req.name]))
    ensures mon.osdmap == old(mon.osdmap) && mon.pendingMetadata == old(mon.pendingMetadata)
    ensures mon.pendingMetadataRm == old(mon.pendingMetadataRm)
  {
    var m := mon.osdmap;
    if req.name == "" {
      return -EINVAL;
    }
    var pg := if req.pgNum == 0 then d.pgNum else req.pgNum;
    var pgp := if req.pgpNum == 0 then d.pgpNum else req.pgpNum;
    if pgp == 0 {
      pgp := pg;
    }
    if pg > d.maxPoolPgNum {
      return -ERANGE;
    }
    if pgp > pg {
      return -ERANGE;
    }
    if req.poolType == TYPE_REPLICATED && req.fastRead == FastReadOn {
      return -EINVAL;
    }
    if crushRule != 0 {
      return crushRule;
    }
    var sizes := PoolSizes(req, d, minSizeFor, ecSizes);
    if sizes.Err? {
      return sizes.error;
    }
    var c := OsdMonitorChecks.CheckPgNum(m, -1, pg, sizes.value.0, maxPgPerOsd);
    if c != 0 {
      return c;
    }
    if !ruleFits {
      return -EINVAL;
    }
    var taken := FindPendingName(mon.pending.newPoolNames, None, req.name);
    if taken {
      assert req.name in mon.pending.newPoolNames.Values by {
        var k :| k in mon.pending.newPoolNames && Some(k) != None && mon.pending.newPoolNames[k] == req.name;
        assert mon.pending.newPoolNames[k] in mon.pending.newPoolNames.Values;
      }
      return 0;
    }
    forall k | k in mon.pending.newPoolNames
      ensures mon.pending.newPoolNames[k] != req.name
    {
      if mon.pending.newPoolNames[k] == req.name {
        assert NameHeldExcept(mon.pending.newPoolNames, None, req.name);
      }
    }
    var id := NextPoolId(m, mon.pending);
    var entry := NewPoolEntry(mon.pending, id, req, d, sizes.value);
    mon.pending := mon.pending.(newPoolMax := id, newPools := mon.pending.newPools[id := entry],
                                newPoolNames := mon.pending.newPoolNames[id := req.name]);
    return 0;
  }

  /** Pool ids at or below the pending pool_max are taken. */
  predicate PoolIdsBelowMax(m: OsdMap, inc: Incremental)
  {
    m.poolMax >= -1
    && (forall id :: id in m.pools ==> id <= m.poolMax)
    && (forall id :: id in inc.newPools ==> id < NextPoolId(m, inc))
    && (forall id :: id in inc.newPoolNames ==> id < NextPoolId(m, inc))
    && (inc.newPoolMax == -1 || inc.newPoolMax >= m.poolMax)
  }

  /** The id a new pool gets is not used by any committed or pending pool,
   *  and the allocation keeps every id below the next one. */
  lemma NewPoolIdIsFresh(m: OsdMap, inc: Incremental, p: Pool, name: string)
    requires PoolIdsBelowMax(m, inc)
    ensures var id := NextPoolId(m, inc);
            id !in m.pools && id !in inc.newPools && id !in inc.newPoolNames
            && PoolIdsBelowMax(m, inc.(newPoolMax := id, newPools := inc.newPools[id := p],
                                       newPoolNames := inc.newPoolNames[id := name]))
  {
    var id := NextPoolId(m, inc);
    var inc2 := inc.(newPoolMax := id, newPools := inc.newPools[id := p], newPoolNames := inc.newPoolNames[id := name]);
    assert NextPoolId(m, inc2) == id + 1;
  }
}
