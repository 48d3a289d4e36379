# Ceph OSD-map monitor and RGW SFS metadata, modelled in Dafny

This project models two parts of Ceph and proves properties of the model.

**The OSD-map monitor** (`src/mon`, `src/osd`). The monitor never edits the committed OSD map. Each command handler checks a request against the committed map and records its effect in a *pending incremental*. The model keeps the incremental as a record of maps:

- XOR state toggles (`new_state`);
- weights and extended info (`new_weight`, `new_xinfo`);
- `pg_temp`, `primary_temp` and the upmap tables;
- pool names, removed pools and `new_max_osd`.

The handlers are methods on an `OsdMonitor` class:

- `osd down/out/in/stop`, `setmaxosd`, `set-group`, `require-osd-release` and `lost`;
- create, destroy, remove and purge;
- `pg-temp`, `primary-temp`, `repeer`, `pg-upmap` and `pg-upmap-items`;
- the pool application, rename, set and new-pool validators;
- the quota sweep.

Each handler's `ensures` gives the whole new pending state. Next to the handlers sit:

- the last-epoch-clean tracker;
- the full-map pruner with its pinned manifest;
- the bounded PG-creation queue;
- the up/in ratio gates;
- the removed/purged snapshot interval store;
- the `eversion_t`, `pg_t` and statistics value types from `osd_types.h`;
- the monitor key-value store with its ordered `Transaction`.

**The S3 gateway's SFS and simplefile metadata layer** (`src/rgw`). This part models:

- the SQLite-backed multipart-upload state machine (INIT, INPROGRESS, COMPLETE, AGGREGATING, DONE, or ABORTED) and the completion checks;
- bucket listing with prefix and delimiter;
- dispatch of object versions and delete markers;
- the object read path, in chunks;
- the atomic and multipart writers;
- the budget-limited garbage collectors, both the driver's and the older store's;
- the SQLite retry policy, the critical-error table and the schema-version gate;
- the record conversions between the gateway's types and database rows;
- the UUID path layout (`xx/yy/rest` of the canonical string of section 3 of RFC 4122);
- the versioned object maps of the simplefile backend and its path layout;
- the legacy `RGWFS` range normalisation, `get_obj` loop, `get_attr` buffer growth and `list_objects` pagination.

**How the model is built.** The database and the filesystem are in-memory maps held by classes. Digests, random identifiers and blob encoders are uninterpreted function parameters. Every loop in the source is a Dafny loop proved against a specification function. The properties of that function are proved as lemmas.

## Model

| member | source | states |
|---|---|---|
| OsdTypes.DefaultPgId | src/osd/osd_types.h:128 | the default pg_t has pool 0, seed 0 and preferred -1 |
| OsdTypes.PgOrderIsRankOrder | src/osd/osd_types.h:197-226 | each of the six pg_t comparison operators is the integer order on (pool, preferred, seed) in that order of significance, and == holds exactly for equal ids |
| OsdTypes.PgLtStrictTotal | src/osd/osd_types.h:197-201 | pg_t's < is irreflexive, transitive and total |
| OsdTypes.EvOrderIsRankOrder | src/osd/osd_types.h:374-391 | the eversion_t operators compare (epoch, version) lexicographically and agree with each other; == holds exactly for equal pairs |
| OsdTypes.Inc | src/osd/osd_types.h:353-357 | inc raises the epoch to at least e and adds one to the 64-bit version, wrapping to 0 at 2^64 |
| OsdTypes.IncIsGreater | src/osd/osd_types.h:353-357 | the incremented version is greater than the old one unless the version wraps and the epoch is not raised |
| OsdTypes.OsdStatAdd | src/osd/osd_types.h:448-454 | osd_stat_t::add keeps the heartbeat lists |
| OsdTypes.OsdStatSub | src/osd/osd_types.h:455-461 | osd_stat_t::sub keeps the heartbeat lists |
| OsdTypes.OsdStatAddSubInverse | src/osd/osd_types.h:448-461 | add and sub of the same osd_stat_t undo each other, in either order |
| OsdTypes.StatAddSubFieldwise | src/osd/osd_types.h:743-770 | object_stat_sum_t add and sub act counter by counter on all twelve counters |
| OsdTypes.StatAddSubInverse | src/osd/osd_types.h:743-770 | adding then subtracting the same sum restores every counter, and the converse |
| OsdTypes.CalcCopiesDegraded | src/osd/osd_types.h:691-694 | copies become nrep times the objects, degraded (nrep - acting) times the objects, and every other counter is kept |
| OsdTypes.MergeCats | src/osd/osd_types.h:815-828 | combining two category maps yields exactly the union of their categories |
| OsdTypes.StatCollection.constructor | src/osd/osd_types.h:774-777 | a new collection holds the zero sum and no categories |
| OsdTypes.StatCollection.AddToCategory | src/osd/osd_types.h:809-813 | the sum always grows by o; cat_sum[cat] grows by o (created as zero if absent) only for a non-empty category, and no other category changes |
| OsdTypes.StatCollection.Merge | src/osd/osd_types.h:815-828 | adding or subtracting a collection combines the sums and merges the categories category by category |
| OsdTypes.StatCollection.CalcAllCopiesDegraded | src/osd/osd_types.h:778-782 | calc_copies_degraded is applied to the sum and to every category, and the category set is unchanged |
| OsdTypes.MergeAddThenSub | src/osd/osd_types.h:815-828 | adding a collection and subtracting it again restores every pre-existing category; categories it introduced remain as zero sums |
| OsdTypes.AsInt | src/mon/osd/pg_cmds.cc:483-484 | the int64-to-int conversion is an int32 value congruent to the id modulo 2^32, and the id itself when it fits in int32 |
| OsdTypes.AsInts | src/mon/osd/pg_cmds.cc:185-191 | the converted list has one entry per id, each the id's int conversion |
| OsdTypes.WrappedIdAliases | src/mon/osd/pg_cmds.cc:241-256 | an id 2^32 above a small OSD id converts to that OSD's id, so it checks and stores as that OSD |
| OsdMapModel.EmptyIncremental | src/mon/OSDMonitor.cc:613-615 | the new pending incremental is for epoch + 1 and stages nothing: no max_osd or pool_max change, no state, weight or pool entries |
| OsdMapModel.PendingStateSet | src/mon/osd/osd_cmds.cc:1199-1217 | pending_osd_state_set stages the bits exactly when none of them is pending yet, adding them to the OSD's toggle mask and touching nothing else; otherwise the incremental is unchanged |
| OsdMapModel.PendingStateClear | src/mon/osd/osd_cmds.cc:1199-1217 | pending_osd_state_clear acts exactly when some of the bits are pending; it removes them from that OSD's mask, erases a mask that becomes empty, and leaves the other OSDs and fields alone |
| OsdMapModel.SetThenClearRestores | src/mon/osd/osd_cmds.cc:1199-1217 | setting and then clearing the same bits on an OSD with nothing pending gives back the original incremental |
| OsdMapModel.AppliedToggle | src/mon/OSDMonitor.cc:1062-1064 | when the incremental is applied, a missing toggle changes nothing, a non-empty one is XORed as given, and a blank (0) one acts as CEPH_OSD_UP |
| OsdMapModel.AppliedIsProjected | src/mon/OSDMonitor.cc:1062-1076 | once no toggle is blank, the state after applying the incremental is the state the monitor projects |
| OsdMapModel.BlankToggleFlipsUp | src/mon/OSDMonitor.cc:1062-1064 | a blank toggle left in place flips the OSD's UP bit and nothing else, although the projected state is unchanged |
| OsdMapModel.OsdMonitor.constructor | src/mon/OSDMonitor.cc:613-618 | the monitor starts with the given map, an empty pending incremental for the next epoch and no pending metadata |
| OsdStateRules.CanMarkDown | src/mon/OSDMonitor.cc:2555-2577 | marking down is allowed exactly when the OSD is not nodown, some OSD exists and the projected up count over the OSD count is not below mon_osd_min_up_ratio |
| OsdStateRules.CanMarkUp | src/mon/OSDMonitor.cc:2579-2588 | marking up is allowed exactly when the OSD is not noup |
| OsdStateRules.CanMarkOut | src/mon/OSDMonitor.cc:2594-2622 | marking out is allowed exactly when the OSD is not noout, some OSD exists and the projected in ratio is not below mon_osd_min_in_ratio |
| OsdStateRules.CanMarkIn | src/mon/OSDMonitor.cc:2624-2633 | marking in is allowed exactly when the OSD is not noin |
| OsdStateRules.MarkDownGateMonotone | src/mon/OSDMonitor.cc:2568-2575 | a stricter mon_osd_min_up_ratio only refuses more: what passes under a ratio passes under any smaller one |
| OsdStateRules.MarkDownCountsOne | src/mon/OSDMonitor.cc:2568 | staging a mark-down of an up OSD with nothing pending raises the net marked-down count by exactly one, so the next check sees one fewer up OSD |
| OsdStateRules.BootOldState | src/mon/OSDMonitor.cc:3011-3013 | the old state prepare_boot starts from is the projected state of an existing OSD, and NEW for one that does not exist and has nothing pending |
| OsdStateRules.PrepareFull | src/mon/OSDMonitor.cc:3214-3250 | after prepare_full the projected fullness bits of the OSD equal the reported ones, its other projected bits and every other OSD's toggles are unchanged, and nothing changes when they already matched |
| OsdStateRules.UpdateUpThru | src/mon/OSDMonitor.cc:3555-3566 | the effective up_thru becomes the larger of the requested and the current one, and only new_up_thru changes |
| OsdStateRules.CleanPendingState | src/mon/OSDMonitor.cc:1062-1091 | encode_pending erases exactly the blank toggles, after which the applied state of every OSD is the state projected before; the up-change stamp is due exactly when a toggle holds UP or an OSD boots, the in-change stamp exactly when a pending weight changes whether an OSD is in |
| CreatingPgs.MaxCreating | src/mon/OSDMonitor.cc:743 | the bound is at least 1, equals mon_osd_max_creating_pgs when that fits in 32 bits, and is always below 2^32 |
| CreatingPgs.Emplace | src/mon/OSDMonitor.cc:761-765 | emplacing ids adds exactly those ids, keeps the value of every id already present and gives each new one the creation info |
| CreatingPgs.PoolU64 | src/mon/OSDMonitor.cc:759 | the cast of the pool id to uint64 keeps every id in range |
| CreatingPgs.MinPool | src/mon/OSDMonitor.cc:747 | queue.begin() is the entry with the least pool id |
| CreatingPgs.EmplaceSeeds | src/mon/OSDMonitor.cc:758-767 | the inner loop emplaces the PG ids of the pool for exactly the seeds [first, end) |
| CreatingPgs.Round | src/mon/OSDMonitor.cc:747-776 | one round on the least pool hands out min(max - \|pgs\|, end - start) seeds and advances or erases that queue entry |
| CreatingPgs.UpdatePendingPgsQueue | src/mon/OSDMonitor.cc:743-777 | the queue loop computes exactly the drained state Drain(c, max, epoch), and the queue stays well-formed |
| CreatingPgs.RoundProgress | src/mon/OSDMonitor.cc:745-776 | each round keeps the queue well-formed, leaves what remains to drain unchanged, and shrinks the queue or its remaining seeds, so the loop ends |
| CreatingPgs.StepGrowth | src/mon/OSDMonitor.cc:754-767 | a round that hands out n seeds adds at most n PGs |
| CreatingPgs.DrainStops | src/mon/OSDMonitor.cc:745-746 | the loop stops only once the creating set has reached the bound or the queue is empty |
| CreatingPgs.DrainBounded | src/mon/OSDMonitor.cc:743-756 | the creating set never grows past mon_osd_max_creating_pgs, and does not grow at all when it is already at or over the bound |
| CreatingPgs.DrainSpec | src/mon/OSDMonitor.cc:743-777 | draining keeps every PG already creating, adds only PGs from handed-out seed ranges, makes every handed-out seed creating, only shrinks or advances the queue, and serves pools in id order |
| EpochClean.Grow | src/mon/OSDMonitor.cc:126-128 | resizing to ps + 1 keeps every stored epoch and pads with zeros, only when the vector is too short |
| EpochClean.LecReport | src/mon/OSDMonitor.cc:124-153 | a report grows the vector to cover ps; a stale one changes nothing else; an accepted one stores the epoch, lowers or recomputes the floor as the minimum, and moves next_missing past the seeds now reported; the invariant (floor is the minimum, next_missing the first unreported seed) is kept |
| EpochClean.ReportedFromDeterministic | src/mon/OSDMonitor.cc:124-153 | under the invariant a report has exactly one outcome |
| EpochClean.ReportMonotone | src/mon/OSDMonitor.cc:129-134 | a report never lowers a stored epoch; the seed ends with the larger of its old epoch and the reported one |
| EpochClean.LastEpochClean.constructor | src/mon/OSDMonitor.cc:160-164 | a new record holds no pool reports |
| EpochClean.LastEpochClean.RemovePool | src/mon/OSDMonitor.cc:155-158 | remove_pool forgets exactly that pool's reports and keeps the invariant |
| EpochClean.LastEpochClean.Report | src/mon/OSDMonitor.cc:160-164 | the pool's record, created empty on first use, takes the report; every other pool is untouched and the invariant is kept |
| EpochClean.LastEpochClean.GetLowerBound | src/mon/OSDMonitor.cc:166-182 | the bound is 0 when some pool lacks a report from one of its PGs; otherwise it is the least of the map epoch and the pools' floors, and no PG of any pool reported an epoch below it |
| MonitorDBStore.EncodeU64 | src/mon/MonitorDBStore.h:80-84 | an encoded version is eight bytes |
| MonitorDBStore.EncodeDecodeU64 | src/mon/MonitorDBStore.h:80-84 | a version encoded into a value decodes back to itself |
| MonitorDBStore.CombineStringsParts | src/mon/MonitorDBStore.h:188-193 | the combined key is the prefix, one underscore, then the value |
| MonitorDBStore.CombineStringsInjective | src/mon/MonitorDBStore.h:188-193 | under one prefix, two values give the same combined key exactly when they are equal |
| MonitorDBStore.Transaction.constructor | src/mon/MonitorDBStore.h:62-63 | a new transaction has no operations |
| MonitorDBStore.Transaction.Put | src/mon/MonitorDBStore.h:70-72 | put appends one OP_PUT of the key and value |
| MonitorDBStore.Transaction.PutAtVersion | src/mon/MonitorDBStore.h:74-78 | put under a version appends an OP_PUT whose key is the version in decimal |
| MonitorDBStore.Transaction.PutVersion | src/mon/MonitorDBStore.h:80-84 | put of a version appends an OP_PUT whose value is the encoded version |
| MonitorDBStore.Transaction.Erase | src/mon/MonitorDBStore.h:86-88 | erase appends one OP_ERASE of the key |
| MonitorDBStore.Transaction.EraseAtVersion | src/mon/MonitorDBStore.h:90-94 | erase under a version appends an OP_ERASE whose key is the version in decimal |
| MonitorDBStore.Transaction.Append | src/mon/MonitorDBStore.h:108-110 | append moves all of the other transaction's operations onto the end, in order, and leaves the other empty |
| MonitorDBStore.BuiltOpsAreKnown | src/mon/MonitorDBStore.h:66-67 | every operation the transaction builders append has a known type, so applying it never reaches the failed assertion |
| MonitorDBStore.ApplyOp | src/mon/MonitorDBStore.h:128-134 | a put stores the value under its key, an erase removes the key, and every other key is untouched |
| MonitorDBStore.ApplyOpsConcat | src/mon/MonitorDBStore.h:123-142 | applying two operation lists one after the other is applying their concatenation |
| MonitorDBStore.LaterOpWins | src/mon/MonitorDBStore.h:123-142 | the last operation on a key decides it: a trailing put is what is stored, a trailing erase leaves it absent |
| MonitorDBStore.Store.constructor | src/mon/MonitorDBStore.h:195-201 | the store starts with the given contents |
| MonitorDBStore.Store.ApplyTransaction | src/mon/MonitorDBStore.h:123-142 | apply_transaction returns the batch's submit result; on 0 the store holds the operations applied in order, otherwise it is unchanged |
| MonitorDBStore.Store.Get | src/mon/MonitorDBStore.h:144-154 | get returns 0 and appends the stored value to the buffer when the key exists, leaving the buffer alone otherwise |
| MonitorDBStore.Store.GetAtVersion | src/mon/MonitorDBStore.h:156-160 | get under a version reads the key that is the version in decimal |
| MonitorDBStore.Store.GetVersion | src/mon/MonitorDBStore.h:162-171 | a missing or empty value reads as version 0, a value of one to seven bytes fails to decode, and a longer one decodes its first eight bytes |
| MonitorDBStore.ExistsIffStored | src/mon/MonitorDBStore.h:173-180 | exists, the lower bound of the key being the key itself, holds exactly when the key is stored |
| MonitorDBStore.PutVersionThenGet | src/mon/MonitorDBStore.h:80-84 | after a transaction ending in put(prefix, key, ver) is applied, the key holds the encoded version and reads back as ver |
| OsdMapPrune.FullKeyInjective | src/mon/OSDMonitor.cc:2134 | two versions have the same full-map key ("full_" and the decimal version) exactly when they are equal |
| OsdMapPrune.PinBounds | src/mon/OSDMonitor.cc:1841 | in a well-formed manifest every pin lies between the first and the last pin |
| OsdMapPrune.InsertSorted | src/mon/OSDMonitor.cc:2117 | inserting into the ascending pin set keeps it ascending and adds exactly that version; a version above the last pin is appended |
| OsdMapPrune.InsertPresent | src/mon/OSDMonitor.cc:1906-1908 | inserting a version that is already pinned changes nothing |
| OsdMapPrune.Pin | src/mon/OSDMonitor.cc:2117 | pin keeps the manifest well-formed and adds exactly the pinned version |
| OsdMapPrune.DropBelow | src/mon/OSDMonitor.cc:1910-1912 | erasing the pins before first keeps exactly the pins at or above it, in order, starting at first when it is pinned and ending at the old last pin |
| OsdMapPrune.EncodeManifest | src/mon/OSDMonitor.cc:2142-2144 | the stored manifest is ten header bytes (version, compat, 32-bit payload length, 32-bit pin count) and then eight bytes per pin |
| OsdMapPrune.ManifestReadBack | src/mon/OSDMonitor.cc:2142-2144 | the stored manifest reads back as version and compat 1, its payload length and pin count modulo 2^32, and every pin modulo 2^64 from its own word |
| OsdMapPrune.SanitizeOptions | src/mon/OSDMonitor.cc:1964-2014 | the options pass exactly when the interval is at least 2, prune_min is positive and at least the interval, and txsize is at least interval - 1 |
| OsdMapPrune.ShouldPrune | src/mon/OSDMonitor.cc:1834-1892 | pruning is wanted only when more than mon_min_osdmap_epochs maps exist, at least prune_min lie below last_to_pin, the pins have not reached last_to_pin, and another interval fits before it |
| OsdMapPrune.ShouldPruneRefusals | src/mon/OSDMonitor.cc:1852-1884 | each of the four conditions on its own stops pruning |
| OsdMapPrune.NewPins | src/mon/OSDMonitor.cc:2104-2117 | k passes add k pins, interval apart after the start pin |
| OsdMapPrune.PrunedOpsAreErases | src/mon/OSDMonitor.cc:2130-2137 | the operations the passes build are exactly erases of the pruned versions' full maps, in order |
| OsdMapPrune.PruneInit | src/mon/OSDMonitor.cc:1929-1962 | prune_init pins first_committed without a manifest and the manifest's last pin otherwise, leaving a well-formed manifest whose last pin is that start |
| OsdMapPrune.DoPrune | src/mon/OSDMonitor.cc:2025-2146 | do_prune acts exactly when pruning is enabled, the options are sane and should_prune holds; then it makes at least one pass, as many as the budget and last_to_pin allow, pins one version per pass, erases the maps between pins and writes the manifest; otherwise nothing is written |
| OsdMapPrune.PrunePasses | src/mon/OSDMonitor.cc:2093-2138 | the pass loop runs at least once and exactly as long as another pass fits both the erase budget and last_to_pin; it erases interval - 1 maps per pass and appends one pin per pass |
| OsdMapPrune.PassesEnd | src/mon/OSDMonitor.cc:2105-2110 | the loop stops after k passes exactly when the next pass would overrun the budget or last_to_pin |
| OsdMapPrune.OnePass | src/mon/OSDMonitor.cc:2105-2137 | one pass pins last_pinned + interval and erases the interval - 1 maps strictly between the two pins |
| OsdMapPrune.ErasePass | src/mon/OSDMonitor.cc:2130-2137 | the inner loop erases the full maps strictly between two pins, in ascending order, and counts them |
| OsdMapPrune.PrunedBetweenPins | src/mon/OSDMonitor.cc:2130-2137 | every pruned version lies strictly between the two pins of some pass |
| OsdMapPrune.PrunedComplete | src/mon/OSDMonitor.cc:2130-2137 | every version between the start pin and the last new pin that is not itself a pin is pruned |
| OsdMapPrune.PrunedNotPinned | src/mon/OSDMonitor.cc:2131 | no pruned version is pinned in the resulting manifest |
| OsdMapPrune.TrimManifest | src/mon/OSDMonitor.cc:1904-1913 | after a trim to first, first is pinned, it is the first pin, and the other pins are exactly the old ones at or above it |
| OsdMapPrune.PruneUpdateTrimmed | src/mon/OSDMonitor.cc:1894-1927 | the trimmed manifest is erased from the store when its last pin is first + 1 or it holds a single pin, and written otherwise |
| OsdMapPrune.EncodeTrimExtra | src/mon/OSDMonitor.cc:1777-1790 | the full map of the new first version is written first; then, only when a manifest pins maps below first, the trimmed manifest is erased or written as _prune_update_trimmed decides |
| OsdMapPrune.GetMinLastEpochClean | src/mon/OSDMonitor.cc:1764-1775 | the floor is the least of get_lower_bound's answer (0 while some pool lacks reports, otherwise the least of the map epoch and the pools' floors) and every epoch an OSD reported; so when positive every pool has reports from all of its PGs and no reported PG epoch is below it |
| OsdMapPrune.MinLastEpochCleanUnique | src/mon/OSDMonitor.cc:1764-1775 | the lower bound and the minimum last-epoch-clean are each determined uniquely by what get_lower_bound and get_min_last_epoch_clean promise |
| OsdMapPrune.TrimFrom | src/mon/OSDMonitor.cc:1743-1760 | from the minimum last-epoch-clean: the target is mon_osd_force_trim_to when it is positive and below last_committed, else that minimum; it is kept when mon_min_osdmap_epochs maps remain after it, otherwise held back to last_committed - mon_min_osdmap_epochs (or 0); the answer is that value when above first_committed and 0 otherwise, so a positive answer is above first_committed and leaves mon_min_osdmap_epochs maps |
| OsdMapPrune.GetTrimTo | src/mon/OSDMonitor.cc:1721-1762 | trimming is off (0) without a quorum, while PGs are being created or when blocked; otherwise the answer is exactly TrimFrom of the minimum last-epoch-clean; a positive answer is above first_committed, leaves mon_min_osdmap_epochs maps and, unless forced, is at most every OSD's and every PG's last-epoch-clean |
| OsdMonitorChecks.AllocateOsdId | src/mon/OSDMonitor.cc:5338-5356 | the lowest free slot below max_osd is handed back in existing_id with -1 returned; with no free slot existing_id is -1 and the id returned is the pending max_osd, or the committed one when none is pending |
| OsdMonitorChecks.AllocatedIdIsUnused | src/mon/OSDMonitor.cc:5338-5356 | the id the allocator hands out, either way, belongs to no existing OSD as long as the pending max_osd does not shrink the map |
| OsdMonitorChecks.CheckPgNum | src/mon/OSDMonitor.cc:5282-5311 | check_pg_num returns 0 or -ERANGE, and -ERANGE exactly when the projected PG count over all pools exceeds mon_max_pg_per_osd times max(in OSDs, 3) |
| OsdMonitorChecks.CheckPgNumMonotone | src/mon/OSDMonitor.cc:5289-5296 | asking an existing pool for more PGs never lowers the projected count, so a refusal is never turned into an acceptance |
| OsdMonitorChecks.FindEq | src/mon/OSDMonitor.cc:5258 | the split point is the first '=' of the argument, or its end when there is none |
| OsdMonitorChecks.ParseErasureCodeProfile | src/mon/OSDMonitor.cc:5241-5280 | the profile is refused with -EINVAL exactly when some key starts with "ruleset-"; otherwise the user's properties override the defaults, and a different plugin makes the user's properties the whole profile |
| OsdMonitorChecks.ParsedProfileHasPlugin | src/mon/OSDMonitor.cc:5252-5277 | an accepted profile always names a plugin |
| OsdMonitorChecks.CacheModeFromStr | src/mon/OSDMonitor.cc:6286 | the parsed cache mode is -1 for an unknown name and one of the known modes otherwise |
| OsdMonitorChecks.CacheModeCheck | src/mon/OSDMonitor.cc:6278-6392 | a non-tier is refused with -EINVAL; a mode that is set is a known, still supported one; from writeback only proxy or readproxy are allowed; a transition that needs a clean cache is refused while objects are dirty; readonly needs the confirmation |
| OsdMonitorChecks.CacheModeFromNoneIsFree | src/mon/OSDMonitor.cc:6325-6392 | from none or readonly any well-supported mode can be set, dirty objects or not |
| OsdMonitorChecks.CacheModeSameIsNoop | src/mon/OSDMonitor.cc:6313-6320 | requesting the committed mode with nothing pending succeeds without staging anything |
| OsdMonitorChecks.WithCacheMode | src/mon/OSDMonitor.cc:6393-6395 | the staged pool gets the mode and FLAG_INCOMPLETE_CLONES and is otherwise unchanged |
| OsdMonitorChecks.CheckBecomeTier | src/mon/OSDMonitor.cc:6631-6684 | making a pool a tier proceeds exactly when the tier is not used by CephFS, is not yet attached, and neither pool takes part in other tiering; an attached tier stops the command with no error |
| PoolRules.IsOsdWritable | src/mon/osd/pool.cc:105-118 | a grant writes a pool only with the w bit, and then either matches every pool or names that pool (a non-empty name) |
| PoolRules.WritableWithoutNameIsUniversal | src/mon/osd/pool.cc:105-118 | a grant that writes without a pool name writes every named pool; a grant naming no pool treats all pools alike |
| PoolRules.CheckRemovePool | src/mon/osd/pool.cc:986-1026 | deletion is -EBUSY exactly when a file system uses the pool or it is a tier or has tiers; it is allowed exactly when it is not busy, pool deletion is enabled and NODELETE is clear; any other result is -EPERM |
| PoolRules.FindPendingName | src/mon/osd/pool.cc:1036-1042 | the scan of the pending pool names finds the name exactly when another pool holds it |
| PoolRules.PrepareRenamePool | src/mon/osd/pool.cc:1028-1045 | a pool pending removal is -ENOENT; a name another pool holds is -EEXIST; otherwise only that pool's pending name changes |
| PoolRules.RenameKeepsNamesDistinct | src/mon/osd/pool.cc:1036-1044 | a rename that passes the check keeps the pending pool names pairwise distinct |
| PoolRules.AsU64 | src/mon/osd/pool.cc:1070-1073 | the `(uint64_t)` cast of a signed counter: non-negative counts are unchanged and negative counts become at least 2^63 |
| PoolRules.NegativeCountIsFull | src/mon/osd/pool.cc:1069-1073 | a negative byte count makes every positive quota up to 2^63 count as reached |
| PoolRules.QuotaActionFor | src/mon/osd/pool.cc:1069-1108 | the quota flags are set exactly when FULL_QUOTA is clear and the pool is full, and cleared exactly when FULL_QUOTA is set and the pool is no longer full |
| PoolRules.ApplyQuotaAction | src/mon/osd/pool.cc:1075-1108 | setting gives FULL_QUOTA and FULL and drops NEARFULL and BACKFILLFULL; clearing drops FULL_QUOTA and FULL; no other flag moves |
| PoolRules.QuotaStatusSettles | src/mon/osd/pool.cc:1075-1108 | after the action is applied, a second sweep with the same usage does nothing, and FULL_QUOTA is set exactly when the pool is full |
| PoolRules.QuotaPoolsStep | src/mon/osd/pool.cc:1064-1110 | visiting one more pool changes at most that pool's pending entry |
| PoolRules.SetPoolFlags | src/mon/osd/pool.cc:1115-1121 | the pool's pending copy (taken from the committed map when nothing is pending) gains the flags; nothing else changes |
| PoolRules.ClearPoolFlags | src/mon/osd/pool.cc:1123-1129 | the pool's pending copy loses the flags; nothing else changes |
| PoolRules.StageQuotaAction | src/mon/osd/pool.cc:1085-1108 | the set/clear calls of one action leave the pending pool exactly as the action describes |
| PoolRules.SweepPool | src/mon/osd/pool.cc:1064-1110 | one loop iteration stages that pool's action when it has statistics and the action is not a no-op, and reports whether it did |
| PoolRules.UpdatePoolsStatus | src/mon/osd/pool.cc:1052-1113 | with unreadable statistics nothing changes and the result is false; otherwise every committed pool's action is staged and the result says whether any pool was touched |
| PoolRules.ApplicationCommand | src/mon/osd/pool.cc:1810-1950 | a key or value "all" is -EINVAL; enable needs a name, a base pool, force to join another application, room for a fifth and a name of at most 128 characters; disable needs force and is a no-op for an absent application; set needs a base pool, an enabled application, a non-empty key, room for the key and lengths of at most 128; rm of an absent key is a no-op |
| PoolRules.ApplicationCommandKeepsLimits | src/mon/osd/pool.cc:1829-1934 | every accepted command keeps at most 4 applications, 64 keys each, and names, keys and values of at most 128 characters |
| PoolRules.CommandPoolApplication | src/mon/osd/pool.cc:1788-1965 | an unknown pool is -ENOENT; refusals and no-ops change nothing and do not report a modification; an accepted change is staged with last_change only in the prepare phase, and the pool is read through the pending incremental only there |
| PoolRules.SetSize | src/mon/osd/pool.cc:1183-1207 | the size is accepted exactly for a non-erasure pool without NOSIZECHANGE, a value in 1..10 and a PG budget that fits; min_size drops to the new size when it was larger, and nothing else changes |
| PoolRules.SetMinSize | src/mon/osd/pool.cc:1208-1243 | min_size is set only within 1..size, and for an erasure pool only at or above the code's data chunk count; for a replicated pool it is accepted exactly in 1..size |
| PoolRules.SetPgNumActual | src/mon/osd/pool.cc:1244-1292 | the current pg_num is a no-op; growth sets pg_num; shrinking needs nautilus and lowers pg_num_pending by exactly one and not below pgp_num; never while CREATING, never above mon_max_pool_pg_num; the resend epochs are stamped |
| PoolRules.SetPgNum | src/mon/osd/pool.cc:1293-1349 | the current target is a no-op; a new target is in 1..mon_max_pool_pg_num, growth must fit the PG budget and a cache pool needs force; from nautilus on the target moves (pgp's target with it when they were equal); before nautilus pg_num itself grows |
| PoolRules.SetPgpNumActual | src/mon/osd/pool.cc:1350-1373 | pgp_num is accepted exactly when positive and at most pg_num and pg_num_pending, without NOPGCHANGE |
| PoolRules.SetPgpNum | src/mon/osd/pool.cc:1374-1393 | pgp_num is accepted exactly when positive and at most the pg_num target; it sets the pgp target, or pgp_num itself before nautilus |
| PoolRules.SizeSettersKeepOrder | src/mon/osd/pool.cc:1183-1243 | size and min_size changes keep 1 <= min_size <= size |
| PoolRules.ActualPgSettersKeepPgpWithinPg | src/mon/osd/pool.cc:1244-1292 | pg_num_actual and pgp_num_actual keep 1 <= pgp_num <= pg_num and pgp_num <= pg_num_pending |
| PoolRules.PreparePoolSet | src/mon/osd/pool.cc:1136-1151 | an unknown pool is -ENOENT; otherwise the variable's rule is applied to the pending copy and an accepted change is staged with last_change set to the pending epoch |
| PoolRules.PoolSizes | src/mon/osd/pool.cc:770-805 | a replicated pool takes the requested size narrowed to 8 bits, or the default when that is zero, with the matching min_size; an erasure pool takes the code's sizes; other types are -EINVAL |
| PoolRules.InitialPgNum | src/mon/osd/pool.cc:721-724 | the initial pg_num is at most the requested one and, with a positive mon_osd_max_initial_pgs, at most that cap (and positive) |
| PoolRules.NewPoolCheck | src/mon/osd/pool.cc:586-661 | creation passes only with a non-empty name and sizes the pool type allows |
| PoolRules.NewPoolEntry | src/mon/osd/pool.cc:697-759 | the new pool is CREATING with the default flags, pg_num = pg_num_pending = pgp_num = the capped initial count, the targets as requested, the sizes from prepare_pool_size and last_change the pending epoch |
| PoolRules.PrepareNewPool | src/mon/osd/pool.cc:573-768 | a failed check is returned with nothing changed; a name already pending succeeds with nothing changed; otherwise the next pool id is taken and the pool and its name are staged under it |
| PoolRules.NewPoolIdIsFresh | src/mon/osd/pool.cc:687-689 | the next pool id is used by no committed or pending pool, and taking it keeps every id below the next one |
| OsdCommands.NamedStates | src/mon/osd/osd_cmds.cc:264-283 | a dump state is selected exactly when one of the `states` arguments names it |
| OsdCommands.ConsistentFilterIsAtMostOne | src/mon/osd/osd_cmds.cc:284-299 | the pairwise exclusions of `osd tree` allow at most one of in/out and at most one of up/down/destroyed |
| OsdCommands.ParseTreeFilter | src/mon/osd/osd_cmds.cc:264-299 | the filter is accepted exactly when every name is known and the selection is consistent, and is then the named set; otherwise -EINVAL |
| OsdCommands.SetMaxOsd | src/mon/osd/osd_cmds.cc:678-714 | -ERANGE exactly above mon_max_osd; -EBUSY exactly when some OSD at or above the new value exists; otherwise new_max_osd is staged and nothing else changes |
| OsdCommands.ReleaseCheck | src/mon/osd/osd_cmds.cc:892-963 | an unknown release is -EINVAL and the current one succeeds; another release is accepted exactly when it is above the current one, settable, supported by every monitor, and either forced or supported by the up OSDs with at least one OSD up; every refusal is -EPERM |
| OsdCommands.ReleaseNeverLowered | src/mon/osd/osd_cmds.cc:959-963 | a release below the committed one is always refused |
| OsdCommands.RequireOsdRelease | src/mon/osd/osd_cmds.cc:892-966 | the result is the check's verdict; a new release is staged only when it passes and differs from the committed one |
| OsdCommands.Put | src/mon/osd/osd_cmds.cc:1011-1104 | writing one OSD's pending entry back sets or erases that key and leaves every other key alone |
| OsdCommands.WithEntry | src/mon/osd/osd_cmds.cc:1011-1104 | replacing one OSD's slice of the incremental changes only that OSD's per-OSD entries |
| OsdCommands.SetTogglesIsPendingStateSet | src/mon/osd/osd_cmds.cc:1015 | the per-entry toggle update is what pending_osd_state_set does to that OSD |
| OsdCommands.MarkDownAt | src/mon/osd/osd_cmds.cc:1011-1028 | an up OSD gets its UP toggle and is projected down; with definitely_dead the dead epoch becomes the pending epoch, which counts as a change only when it was older; weight and uuid are untouched |
| OsdCommands.MarkOutAt | src/mon/osd/osd_cmds.cc:1029-1055 | an out OSD is left alone; an in OSD gets weight OUT and its current weight saved as old_weight |
| OsdCommands.MarkInAt | src/mon/osd/osd_cmds.cc:1056-1072 | an in OSD is left alone; an out OSD gets its saved weight back (and the saved weight cleared) or, with none saved, weight IN |
| OsdCommands.MarkStopAt | src/mon/osd/osd_cmds.cc:1089-1103 | a stopped OSD is left alone; otherwise the OSD ends up STOP and not UP |
| OsdCommands.MarkRmAt | src/mon/osd/osds.cc:634-646 | an up OSD is refused with nothing changed; a down OSD's whole state is toggled off and its uuid zeroed |
| OsdCommands.MarkStep | src/mon/osd/osd_cmds.cc:1010-1104 | one OSD's step changes only that OSD's pending entries |
| OsdCommands.MarkAtIdempotent | src/mon/osd/osd_cmds.cc:1010-1104 | repeating a step on the same OSD changes nothing more and reports a change only if the first did |
| OsdCommands.DownAndOutTakeEffect | src/mon/osd/osd_cmds.cc:1011-1034 | after `osd down` an up OSD is projected down; after `osd out` an in OSD's projected weight is OUT |
| OsdCommands.CommitWeights | src/mon/osd/osd_cmds.cc:1029-1072 | committing an incremental gives each OSD its projected weight and xinfo and leaves the state alone |
| OsdCommands.OutThenInRestoresWeight | src/mon/osd/osd_cmds.cc:1029-1072 | `osd out` then, once committed, `osd in` gives the OSD back its original weight |
| OsdCommands.MarkErrValues | src/mon/osd/osd_cmds.cc:995-1000 | apart from `osd rm`, the error is -EINVAL exactly when some id does not parse, and 0 otherwise; `osd rm` may also answer -EBUSY |
| OsdCommands.MarkOne | src/mon/osd/osd_cmds.cc:1010-1104 | one OSD's step on the monitor; for `osd rm` of a down OSD its metadata is queued for removal |
| OsdCommands.MarkWildcard | src/mon/osd/osd_cmds.cc:986-994 | the wildcard visits every existing OSD (every out one for `osd in`) and the result matches the per-OSD steps |
| OsdCommands.MarkListed | src/mon/osd/osd_cmds.cc:995-1008 | listed ids are visited in turn; a bad id sets -EINVAL, a missing OSD is skipped, an existing one is stepped |
| OsdCommands.MarkOsds | src/mon/osd/osd_cmds.cc:967-1107 | each target gets its step applied to its entry as it was before the command, every other OSD is left alone, `any` says whether a proposal follows and the error is MarkErr |
| OsdCommands.GroupFlagNamed | src/mon/osd/osd_cmds.cc:1129-1136 | only noup, nodown, noin and noout name group flags |
| OsdCommands.NamedFlags | src/mon/osd/osd_cmds.cc:1127-1142 | a flag is selected exactly when one of the names is that flag's name |
| OsdCommands.ParseGroupFlags | src/mon/osd/osd_cmds.cc:1123-1142 | any unknown flag name is -EINVAL; otherwise the flags are the named set |
| OsdCommands.FirstGroupAll | src/mon/osd/osd_cmds.cc:1170-1174 | the position of the first wildcard in the target list, or its length |
| OsdCommands.CollectGroupTargets | src/mon/osd/osd_cmds.cc:1170-1185 | the targets are the ids, crush nodes and device classes before the first wildcard, plus every existing OSD when there is one |
| OsdCommands.ClearTogglesIsPendingStateClear | src/mon/osd/osd_cmds.cc:1196-1198 | the per-entry toggle update is what pending_osd_state_clear does to that OSD |
| OsdCommands.ClearTogglesMask | src/mon/osd/osd_cmds.cc:1196-1198 | clearing removes exactly the given toggles |
| OsdCommands.SetTogglesMask | src/mon/osd/osd_cmds.cc:1196-1198 | setting adds exactly the given toggle, and changes the entry exactly when the toggle was not there |
| OsdCommands.ClearToggleChanges | src/mon/osd/osd_cmds.cc:1196-1198 | clearing a toggle changes the entry exactly when that toggle was pending |
| OsdCommands.ProjectedStateOfEntry | src/mon/osd/osd_cmds.cc:1196-1238 | the projected state is the committed state XOR the OSD's pending toggles |
| OsdCommands.GroupFlagAt | src/mon/osd/osd_cmds.cc:1194-1238 | after one flag of set-group (or unset-group) the OSD has the flag exactly when setting; no other toggle moves; a change is reported exactly when the entry changed |
| OsdCommands.GroupFlagsAt | src/mon/osd/osd_cmds.cc:1194-1238 | flag by flag, each chosen flag ends up as wanted and every other toggle is as before |
| OsdCommands.GroupOsdAt | src/mon/osd/osd_cmds.cc:1194-1238 | on one existing OSD, each of the chosen group flags is set exactly when setting and every other toggle is unchanged |
| OsdCommands.GroupFlagAtStable | src/mon/osd/osd_cmds.cc:1196-1198 | a flag already as wanted is left alone and reports no change |
| OsdCommands.GroupFlagsAtStable | src/mon/osd/osd_cmds.cc:1194-1238 | flags already as wanted are left alone and report no change |
| OsdCommands.GroupOsdAtIdempotent | src/mon/osd/osd_cmds.cc:1194-1238 | running set-group twice on an OSD changes nothing the second time |
| OsdCommands.AdoptFlags | src/mon/osd/osd_cmds.cc:1240-1261 | each named crush node or device class adopts its committed flags and then gains (or loses) the command's flags; other pending entries are untouched |
| OsdCommands.MergeGroupFlags | src/mon/osd/osd_cmds.cc:1240-1261 | the loop over crush nodes or device classes computes AdoptFlags |
| OsdCommands.GroupAgreesEffect | src/mon/osd/osd_cmds.cc:1189-1238 | after the OSD loop every visited existing OSD has each chosen flag exactly when setting, other bits as before, and other OSDs' entries unchanged |
| OsdCommands.GroupOsds | src/mon/osd/osd_cmds.cc:1189-1238 | the OSD loop gives every existing target its GroupOsdAt and reports whether any entry changed |
| OsdCommands.SetGroup | src/mon/osd/osd_cmds.cc:1108-1267 | no flag, no target or no usable target is -EINVAL with nothing changed; otherwise the OSD toggles, crush-node and device-class flags are as above and a proposal follows exactly when a node or class was named or some OSD entry changed |
| OsdCommands.MarkLost | src/mon/osd/osd_cmds.cc:1314-1343 | without force -EPERM; a missing OSD -ENOENT; an up OSD -EBUSY; otherwise the OSD's down_at epoch is recorded in new_lost and nothing else changes |
| OsdLifecycle.IdentifyFrom | src/mon/osd/osds.cc:88 | the search from `i` finds the lowest existing OSD at or above `i` carrying the uuid, or -1 when there is none |
| OsdLifecycle.IdentifyOsd | src/mon/osd/osds.cc:88 | -1 exactly when no existing OSD carries the uuid; otherwise the lowest OSD that does |
| OsdLifecycle.ValidateOsdCreate | src/mon/osd/osds.cc:47-116 | no id and no uuid is 0 with existing_id -1; an id without uuid is 0; a pending uuid is -EAGAIN; a uuid used by another id is -EEXIST; the uuid's own OSD is the positive EEXIST with existing_id set; success with a uuid means the uuid is unused and the id is neither pending nor (when checked) existing; -EINVAL only for an existing id |
| OsdLifecycle.RepeatedCreateIsIdempotent | src/mon/osd/osds.cc:88-100 | repeating a create for the OSD that already carries the uuid answers the positive EEXIST with that OSD |
| OsdLifecycle.PrepareCommandOsdCreate | src/mon/osd/osds.cc:118-137 | a destroyed id is -EINVAL; everything else is validate_osd_create with the existence check on |
| OsdLifecycle.DoOsdCreate | src/mon/osd/osds.cc:139-226 | a known uuid keeps its OSD id; a new uuid with an id takes that id; otherwise the lowest free slot is reused with weight OUT or max_osd grows by one; max_osd then covers the id, EXISTS and NEW are or-ed into the pending state, a non-zero uuid is recorded, and nothing else changes |
| OsdLifecycle.CreatedOsdExists | src/mon/osd/osds.cc:224 | a slot that held no OSD exists, and is new, once the creation's toggles apply |
| OsdLifecycle.PrepareCommandOsdDestroy | src/mon/osd/osds.cc:493-563 | a missing OSD is -ENOENT and an already destroyed one 0, both with nothing staged; an auth failure other than -ENOENT is returned; otherwise the pending state becomes DESTROYED and the uuid is zeroed |
| OsdLifecycle.DestroyKeepsOsd | src/mon/osd/osds.cc:553-554 | a destroyed OSD still exists and is now marked destroyed |
| OsdLifecycle.PrepareCommandOsdRemove | src/mon/osd/osds.cc:634-646 | an up OSD is -EBUSY with nothing changed; otherwise its whole state is toggled off, its uuid zeroed and its metadata queued for removal |
| OsdLifecycle.RemoveClearsState | src/mon/osd/osds.cc:640 | a removed OSD has no state, and so does not exist, once the incremental applies |
| OsdLifecycle.PrepareCommandOsdPurge | src/mon/osd/osds.cc:565-632 | a crush removal failure other than -ENOENT is returned with nothing changed; an OSD already gone everywhere is -ENOENT; success exactly when the crush removal or the OSD's existence leaves something to do and the destroy step did not fail, and then the OSD is removed |
| OsdLifecycle.PurgeLeavesNoOsd | src/mon/osd/osds.cc:626-628 | a purged OSD no longer exists once the incremental applies |
| PgCommands.Dedup | src/mon/osd/pg_cmds.cc:427-432 | skipping elements already pushed keeps at most as many elements as given, and none exactly when none were given |
| PgCommands.DedupSpec | src/mon/osd/pg_cmds.cc:427-432 | the kept list has no repeats and holds exactly the elements of the input |
| PgCommands.DedupOfDistinct | src/mon/osd/pg_cmds.cc:427-432 | a list without repeats is kept as it is |
| PgCommands.DedupIdempotent | src/mon/osd/pg_cmds.cc:427-432 | deduplicating twice is deduplicating once |
| PgCommands.PairsOf | src/mon/osd/pg_cmds.cc:480-482 | an even-length id list read two at a time gives (from, to) pairs in order |
| PgCommands.NonIdentityMembers | src/mon/osd/pg_cmds.cc:483-486 | the pairs kept are exactly those whose ends differ |
| PgCommands.BuildPgTemp | src/mon/osd/pg_cmds.cc:176-209 | an empty list clears the mapping; a missing OSD is -ENOENT; otherwise a length outside [min_size, size] is -EINVAL; an accepted list is staged as given |
| PgCommands.PgTemp | src/mon/osd/pg_cmds.cc:150-212 | a missing pg is -ENOENT; a pending pg_temp change on the pg is retried; otherwise the list, each int64 id converted to int, is checked: empty, or every converted id an existing OSD and the length within [min_size, size]; exactly then it becomes the pending pg_temp, converted, and only then does anything change |
| PgCommands.PrimaryTemp | src/mon/osd/pg_cmds.cc:212-258 | -ENOENT exactly for a missing pg or a target that is not -1 (compared as int64) and whose int conversion is no existing OSD; -EPERM exactly when the known minimum client is older than firefly; otherwise the converted id is staged as the primary_temp |
| PgCommands.OtherUpFrom | src/mon/osd/pg_cmds.cc:279-287 | the lowest id at or above `i` below max_osd that is up and not the primary, or none when there is no such id |
| PgCommands.FindRepeerPeer | src/mon/osd/pg_cmds.cc:279-287 | the scan over all OSD ids finds the lowest up OSD other than the primary |
| PgCommands.Repeer | src/mon/osd/pg_cmds.cc:254-294 | a missing pg is -ENOENT and no primary -EAGAIN; with more than one acting OSD pg_temp becomes [primary]; otherwise [primary, first other up OSD], or -EAGAIN when there is none |
| PgCommands.RepeerPairIsDistinct | src/mon/osd/pg_cmds.cc:279-287 | the two-OSD repeer mapping never names the primary twice, and its second OSD is up |
| PgCommands.BuildUpmap | src/mon/osd/pg_cmds.cc:404-444 | a length outside [min_size, size] or an empty list is -EINVAL; an id that is neither CRUSH_ITEM_NONE nor an existing OSD is -ENOENT; otherwise the distinct ids in order, at most size of them, all usable |
| PgCommands.BuildUpmapItems | src/mon/osd/pg_cmds.cc:454-519 | an odd count or more pairs than the pool size is -EINVAL; identity pairs are skipped; a bad remaining pair is -ENOENT; repeats are skipped; nothing left is -EINVAL; otherwise the distinct real remappings onto usable OSDs |
| PgCommands.ScanUpmapPairs | src/mon/osd/pg_cmds.cc:478-503 | the loop fails exactly when some real pair is unusable, and otherwise collects the distinct non-identity pairs in order |
| PgCommands.UpmapItemsOutcome | src/mon/osd/pg_cmds.cc:478-519 | with every pair usable the items are distinct real remappings onto usable OSDs, at most the pool's size, and none are left exactly when every pair is an identity |
| PgCommands.ItemsStep | src/mon/osd/pg_cmds.cc:480-502 | one more pair through the loop is skipped when it is an identity or already kept, and appended otherwise |
| PgCommands.PgUpmapCommand | src/mon/osd/pg_cmds.cc:337-536 | a minimum client older than luminous is -EPERM; the feature check's -EAGAIN retries and its other errors are the reply; a missing pg is -ENOENT; a pool pending removal is -ENOENT after the proposal; a pending change of the same kind retries; once these pass, an rm- command always updates with the pg queued for removal of its mapping, and a set command updates exactly when its id list is accepted (length within [min_size, size] and every id CRUSH_ITEM_NONE or an existing OSD; or, for pg-upmap-items, the ids converted from int64 to int: an even count of at most size pairs, no unusable pair and at least one real remapping), staging the deduplicated list or pairs, and otherwise replies with the list check's -EINVAL or -ENOENT |
| PgCommands.WrappedPairIsIdentity | src/mon/osd/pg_cmds.cc:483-485 | a pair whose int64 ids differ by 2^32 is an identity after the conversion to int, so pg-upmap-items skips it |
| SnapStore.HexDigit | src/mon/OSDMonitor.cc:4873-4875 | one lower-case hex digit, as `%x` prints it |
| SnapStore.Pow16Widths | src/mon/OSDMonitor.cc:4858-4875 | eight hex digits hold exactly a u32 and sixteen exactly a u64 |
| SnapStore.HexPad | src/mon/OSDMonitor.cc:4873-4875 | `%0<w>llx` of a value that fits prints exactly w digits |
| SnapStore.MakeRemovedSnapEpochKey | src/mon/OSDMonitor.cc:4855-4861 | "removed_epoch_", the decimal pool, "_" and the epoch as 8 hex digits |
| SnapStore.MakePurgedSnapEpochKey | src/mon/OSDMonitor.cc:4863-4868 | "purged_epoch_" and the epoch as 8 hex digits |
| SnapStore.MakeSnapKey | src/mon/OSDMonitor.cc:4870-4877 | the pool's prefix followed by the snap as 16 hex digits |
| SnapStore.HexPadInjective | src/mon/OSDMonitor.cc:4873-4875 | distinct values print distinctly |
| SnapStore.HexPadOrder | src/mon/OSDMonitor.cc:4873-4875 | fixed-width hex sorts like the numbers it prints |
| SnapStore.SnapKeyOrder | src/mon/OSDMonitor.cc:4896-4898 | within one pool the store's byte order on snap keys is the numeric order on snaps, so a forward lower_bound visits the pool's records by their last snap |
| SnapStore.PurgedEpochKeyOrder | src/mon/OSDMonitor.cc:4863-4868 | purged-epoch keys sort by epoch |
| SnapStore.Lookup | src/mon/OSDMonitor.cc:4892-4946 | a found record contains the snap |
| SnapStore.LookupFindsCover | src/mon/OSDMonitor.cc:4892-4946 | on a well-formed table the lookup succeeds exactly when some record of the pool contains the snap, and returns that record, stored under its last snap |
| SnapStore.CoverIsFirstCandidate | src/mon/OSDMonitor.cc:4897-4898 | a record containing the snap is the first record of the pool at or after the snap's key |
| SnapStore.Replace | src/mon/OSDMonitor.cc:4967-4971 | erasing the earlier record's key and then writing the joined record leaves the joined record under its key and every other record untouched |
| SnapStore.JoinedWellFormed | src/mon/OSDMonitor.cc:4948-5004 | the join keeps the table well formed |
| SnapStore.JoinedCovers | src/mon/OSDMonitor.cc:4948-5004 | after the join the pool's covered snaps are the old ones plus [start, end) |
| SnapStore.NeighbourFacts | src/mon/OSDMonitor.cc:4957-4960 | for a fresh interval, the record found for start-1 ends at start and the one found for end begins at end, each stored under its last snap |
| SnapStore.InsertSnapUpdateSpec | src/mon/OSDMonitor.cc:4948-5004 | inserting an interval not yet recorded keeps the table well formed, and the pool's recorded snaps become exactly the old ones plus [start, end) |
| SnapStore.MergedOthersUnchanged | src/mon/OSDMonitor.cc:4948-5004 | the insert touches no record of another pool or of the other (removed/purged) kind |
| SnapStore.LookupSnap | src/mon/OSDMonitor.cc:4892-4946 | 0 with the record's bounds exactly when the lookup finds a record containing the snap; -ENOENT otherwise |
| SnapStore.ApplyJoinOps | src/mon/OSDMonitor.cc:4967-4971 | the erase-then-put transaction ops produce the replaced table |
| SnapStore.InsertSnapUpdate | src/mon/OSDMonitor.cc:4948-5004 | the transaction's one or two ops (an optional erase, then a put) turn the table into the merged one |
| RgwFs.ReturnCode | src/rgw/rgw_fs.cc:494-593 | an error returns -errno from the failing call, -ECANCELED for a refused precondition and -ERANGE for an offset past the end |
| RgwFs.CheckConditions | src/rgw/rgw_fs.cc:509-549 | the read is allowed iff mtime is not before If-Modified-Since, is before If-Unmodified-Since, and (when If-Match/If-None-Match is given) the etag is read and equals If-Match and differs from If-None-Match; 304 NotModified comes first, every other refusal is 412 PreconditionFailed, and an etag read failure is passed on |
| RgwFs.NormalizeRange | src/rgw/rgw_fs.cc:552-584 | refused with -ERANGE exactly when the object is non-empty and the resolved offset is at or past its end; otherwise the offset is below the size, the end is clamped to its last byte and total_size is end + 1 - ofs taken modulo 2^64 |
| RgwFs.RangeWithinObject | src/rgw/rgw_fs.cc:552-584 | any in-bounds request on a non-empty object yields 0 <= ofs <= end < size and total_size = end - ofs + 1 |
| RgwFs.SuffixRange | src/rgw/rgw_fs.cc:557-560 | a negative offset -k reads the object's last k bytes, whatever end was asked |
| RgwFs.WholeObject | src/rgw/rgw_fs.cc:552-584 | without a range the whole object is read: 0 .. size-1, total_size = size |
| RgwFs.InvertedRangeWraps | src/rgw/rgw_fs.cc:564-582 | an end before the offset is accepted and total_size wraps round to 2^64 minus the gap |
| RgwFs.PrepareGetObj | src/rgw/rgw_fs.cc:460-593 | open failure, then fstat failure, give -errno; success happens exactly when fstat succeeds and the conditions pass, and then the range is the normalised one for the file's size |
| RgwFs.UnconditionalWholeRead | src/rgw/rgw_fs.cc:460-593 | a plain GET of an existing file succeeds for the whole object |
| RgwFs.GetObjLenAsWritten | src/rgw/rgw_fs.cc:603-606 | the length get_obj reads as written: zero whenever end <= 0, otherwise end - ofs + 1 modulo 2^64 |
| RgwFs.OneByteObjectReadsNothing | src/rgw/rgw_fs.cc:603-606 | a one-byte object is prepared as range 0-0 of length 1, yet the length as written is 0, and the corrected length is 1 |
| RgwFs.GetObjLen | src/rgw/rgw_fs.cc:603-606 | the corrected length: the inclusive range ofs..end, and zero only for a missing (negative) end |
| RgwFs.PreparedRangeReadInFull | src/rgw/rgw_fs.cc:575-582 | the corrected length of every prepared in-bounds range equals its total_size |
| RgwFs.ReadLoop | src/rgw/rgw_fs.cc:609-627 | the read loop as intended ends complete once the position reaches the length, and an abort carries a negative code |
| RgwFs.ReadLoopAsWritten | src/rgw/rgw_fs.cc:609-627 | as written, a failed read only leaves the switch, so the only abort is -EIO at end of file |
| RgwFs.PersistentErrorNeverEnds | src/rgw/rgw_fs.cc:609-627 | a descriptor that keeps failing with EIO keeps the loop as written running for any number of answers, while the intended loop stops at the first with -EIO |
| RgwFs.GetObj | src/rgw/rgw_fs.cc:595-638 | returns the length iff the (corrected) loop completes and the negative code iff it aborts; the read state is released on error, for an empty read, or when the last byte read is the range's end, which always holds for a well-formed range |
| RgwFs.XattrCall | src/rgw/rgw_fs.cc:374-377 | one getxattr call: ENODATA for a missing attribute, ERANGE for a value longer than the buffer, else the value's length with errno unchanged |
| RgwFs.GetAttr | src/rgw/rgw_fs.cc:366-418 | as written: a missing attribute gives -ENODATA, a non-empty value is returned in the first doubled buffer (from 32 bytes) that holds it, an empty value gives minus the stale errno, or loops without end when that errno is ERANGE |
| RgwFs.GetAttrIntended | src/rgw/rgw_fs.cc:366-418 | as intended: the loop always ends, giving -ENODATA or the value (empty included) in the smallest doubled buffer that holds it |
| RgwFs.PrefixIgnored | src/rgw/rgw_fs.cc:120-121 | the prefix test as written passes every entry (it compares the prefix with itself); entry "b" passes prefix "a" although it is not under it |
| RgwFs.Admit | src/rgw/rgw_fs.cc:115-134 | an entry is listed iff it does not start with '.', lies under the prefix, translates into the namespace and passes the filter, under its translated key |
| RgwFs.DirKeys | src/rgw/rgw_fs.cc:111-135 | dir_map holds at most one key per directory entry |
| RgwFs.DirKeysHoldAdmitted | src/rgw/rgw_fs.cc:111-135 | every admitted entry's key is in dir_map |
| RgwFs.DirKeysAdmitted | src/rgw/rgw_fs.cc:111-135 | every key in dir_map comes from an admitted entry |
| RgwFs.ScanDir | src/rgw/rgw_fs.cc:111-135 | the readdir loop builds exactly DirKeys of the entries |
| RgwFs.Ascending | src/rgw/rgw_fs.cc:138-151 | the map's keys in iteration order: each key once |
| RgwFs.AscendingSorted | src/rgw/rgw_fs.cc:138-151 | the map iterates its keys in strictly increasing order |
| RgwFs.From | src/rgw/rgw_fs.cc:140-143 | iteration starts at lower_bound(marker): the keys not below the marker, or all keys for an empty marker |
| RgwFs.EffectiveMax | src/rgw/rgw_fs.cc:146-147 | a negative max means INT_MAX, any other max is kept |
| RgwFs.Entry | src/rgw/rgw_fs.cc:152-166 | a listed entry carries the key, the stat's mtime and size |
| RgwFs.Entries | src/rgw/rgw_fs.cc:151-167 | no more entries than visited keys (a failed stat gives none) |
| RgwFs.EntriesFollowKeys | src/rgw/rgw_fs.cc:151-167 | each entry is a visited key whose stat succeeded, and entries come in strictly increasing name order |
| RgwFs.VisitKeys | src/rgw/rgw_fs.cc:151-169 | the listing loop visits the first min(limit, count) keys in order and reports truncation iff keys remain |
| RgwFs.ListObjects | src/rgw/rgw_fs.cc:99-172 | an opendir failure returns -errno and leaves is_truncated unset; otherwise the result is the entries admitted by the corrected prefix test (Admit, see the rgw_fs.cc:120-121 row under Findings, where the prefix test as written passes every entry) for the first EffectiveMax(max) keys from the marker, the return value is their count and is_truncated says whether keys remain |
| RgwFs.ListingProperties | src/rgw/rgw_fs.cc:99-172 | a listing has at most max entries, each an admitted key at or after the marker, in strictly increasing order, and is truncated iff more than max keys lie from the marker |
| RgwFs.ListedNamesAdmitted | src/rgw/rgw_fs.cc:115-134 | a listed key comes from a directory entry that is not hidden and lies under the prefix |
| RgwFs.SetAttrs | src/rgw/rgw_fs.cc:190-204 | attributes with empty values are skipped; the result is 0 iff every non-empty attribute is set, and a failure ends with the directory removed and a negative code |
| RgwFs.CreateBucket | src/rgw/rgw_fs.cc:175-205 | a mkdir failure is returned as -errno unless it is EEXIST on a non-exclusive create; otherwise the attributes are set as SetAttrs says |
| SfsWriter.FailureOf | src/rgw/driver/sfs/writer.cc:241-248 | a negated EDQUOT or ENOSPC is the quota error, any other failure an internal error |
| SfsWriter.CloseErrorAsWritten | src/rgw/driver/sfs/writer.cc:115-130 | as written, close's switch sees ::close's -1, so every failed close is an internal error |
| SfsWriter.CloseError | src/rgw/driver/sfs/writer.cc:115-130 | as intended, a close failing with EDQUOT or ENOSPC is the quota error and any other an internal error |
| SfsWriter.CloseFullDiskAsWritten | src/rgw/driver/sfs/writer.cc:115-130 | a close failing with ENOSPC gives an internal error as written where the quota error is intended |
| SfsWriter.MkdirError | src/rgw/driver/sfs/writer.cc:74-84 | a failed create_directories is the quota error exactly for ENOSPC, else an internal error |
| SfsWriter.WithDefaultRetention | src/rgw/driver/sfs/writer.cc:292-306 | the bucket's default retention is added only when the object brings none of its own; every other attribute is kept as it is |
| SfsWriter.VersionIdFor | src/rgw/driver/sfs/types.cc:254-260 | the new version's id is the key's instance, or a generated one when the instance is empty |
| SfsWriter.SFSAtomicWriter.constructor | src/rgw/driver/sfs/writer.cc:35-58 | a new writer has written nothing, is not failed and holds no file (fd -1) |
| SfsWriter.SFSAtomicWriter.Open | src/rgw/driver/sfs/writer.cc:72-98 | the version's directory is created, then its file; a failed mkdir is MkdirError, a failed open an internal error, and only a successful open sets fd |
| SfsWriter.SFSAtomicWriter.Close | src/rgw/driver/sfs/writer.cc:100-133 | fsync then close; fd is -1 afterwards; a failed close marks the writer failed and returns CloseError (the corrected switch) |
| SfsWriter.SFSAtomicWriter.Cleanup | src/rgw/driver/sfs/writer.cc:135-175 | the data file is removed, its directory fsynced and the version row deleted; nothing else changes |
| SfsWriter.SFSAtomicWriter.Attach | src/rgw/driver/sfs/writer.cc:204-208 | after the version exists, the file path is data path / storage path and the file is opened as Open says |
| SfsWriter.SFSAtomicWriter.Target | src/rgw/driver/sfs/writer.cc:204 | the writer takes the version and its file and directory paths; no file operation happens |
| SfsWriter.SFSAtomicWriter.Prepare | src/rgw/driver/sfs/writer.cc:177-209 | with free space below the reserve, the quota error and no version is created; otherwise a version is requested under VersionIdFor, a failed creation is an internal error, and a created one gets its file opened |
| SfsWriter.SFSAtomicWriter.Process | src/rgw/driver/sfs/writer.cc:211-253 | a failed writer refuses with an internal error; empty data is the final piece and changes nothing; a successful write adds its length to bytesWritten; a failed one marks the writer failed, closes, cleans up and returns FailureOf |
| SfsWriter.SFSAtomicWriter.Complete | src/rgw/driver/sfs/writer.cc:255-340 | succeeds iff bytesWritten equals the accounted size, close succeeds and metadata_finish succeeds; a size mismatch or failed close cleans up; otherwise the attributes (with the default retention) and metadata are set, mtime is reported, and the object and version rows are stored (deleting other versions when versioning is off) |
| SfsWriter.SFSAtomicWriter.Commit | src/rgw/driver/sfs/writer.cc:290-339 | after a clean close the object takes its attributes and metadata and metadata_finish stores its rows; a failed row store marks the writer failed, cleans up and returns FailureOf |
| SfsWriter.MultipartPart.constructor | src/rgw/driver/sfs/writer.cc:342-382 | a part starts in the given state with an empty file and no recorded write |
| SfsWriter.SFSMultipartWriter.constructor | src/rgw/driver/sfs/writer.cc:384-416 | a new part writer has both counters and the part offset at zero |
| SfsWriter.SFSMultipartWriter.Prepare | src/rgw/driver/sfs/writer.cc:342-382 | with free space below the reserve, the quota error and the part unchanged; otherwise the part's file is truncated and the part is PREPARED |
| SfsWriter.SFSMultipartWriter.Process | src/rgw/driver/sfs/writer.cc:384-416 | the first piece after prepare fixes the part offset; the part becomes INPROGRESS, the data is appended, and both counters grow by its length, keeping them equal to the file's length |
| SfsWriter.SFSMultipartWriter.Complete | src/rgw/driver/sfs/writer.cc:418-434 | the part records its offset, length and etag; nothing else changes |
| GcCascade.StepCosts | src/rgw/driver/sfs/sfs_gc.cc:174-192 | removing one version, or one object's own row, pays exactly one unit of the budget |
| GcCascade.VersionsCost | src/rgw/driver/sfs/sfs_gc.cc:107-121 | removing an object's listed versions pays one unit per version and removes nothing but versions |
| GcCascade.Affordable | src/rgw/driver/sfs/sfs_gc.cc:112-119 | the version loop removes all versions or stops exactly when the budget is spent; none with no budget |
| GcCascade.ObjectRunCost | src/rgw/driver/sfs/sfs_gc.cc:174-184 | an object's removal spends exactly as many units as the rows it removes, and a non-negative budget never goes negative |
| GcCascade.ObjectRunShape | src/rgw/driver/sfs/sfs_gc.cc:174-184 | the object's row goes exactly when the budget exceeds its number of versions, and then after every version |
| GcCascade.ObjectsRunCost | src/rgw/driver/sfs/sfs_gc.cc:94-105 | removing a bucket's objects spends exactly the rows removed and keeps a non-negative budget non-negative |
| GcCascade.ObjectsRunComplete | src/rgw/driver/sfs/sfs_gc.cc:94-105 | when budget is left after a bucket's objects, every object was removed completely, each after its versions |
| GcCascade.BucketRunShape | src/rgw/driver/sfs/sfs_gc.cc:123-134 | a bucket's row goes only after all its objects and only when budget remains; otherwise the run ends with the partial object removals |
| GcCascade.BucketsRunDone | src/rgw/driver/sfs/sfs_gc.cc:85-91 | the bucket loop stops when the buckets or the budget run out |
| GcCascade.BucketsRunCost | src/rgw/driver/sfs/sfs_gc.cc:80-92 | a whole run removes exactly as many rows as it spends, never more than its budget |
| GcCascade.OneRowPerRun | src/rgw/driver/sfs/sfs_gc.cc:37-48 | with rgw_gc_max_objs at 1 a run removes at most one row |
| SfsGc.GcPartPathAsWritten | src/rgw/driver/sfs/sfs_gc.cc:158-160 | the part file the collector checks, as written, is the part path relative to the working directory |
| SfsGc.GcPartPath | src/rgw/driver/sfs/multipart.cc:349-350 | the corrected part file lies under the store's data path |
| SfsGc.PartPathRelative | src/rgw/driver/sfs/multipart_types.h:42-48 | a part path is never absolute |
| SfsGc.GcPartPathMissesStoredPart | src/rgw/driver/sfs/sfs_gc.cc:158-160 | with any non-empty data path the file checked as written is not the one the upload wrote, so it is never removed |
| SfsGc.GcPartPathSuffix | src/rgw/driver/sfs/multipart.cc:349-350 | the corrected path is the data path joined with the part path |
| SfsGc.GcPartPathInjective | src/rgw/driver/sfs/multipart.cc:349-350 | distinct uploads, and distinct part numbers 0..99999 of one upload, get distinct files |
| SfsGc.PartsLogFiles | src/rgw/driver/sfs/sfs_gc.cc:155-164 | clearing one upload's parts removes part files only |
| SfsGc.UploadsLogParts | src/rgw/driver/sfs/sfs_gc.cc:154-168 | clearing the uploads removes only part files and part rows |
| SfsGc.MultipartLogShape | src/rgw/driver/sfs/sfs_gc.cc:136-172 | delete_multiparts first aborts the bucket's uploads, ends by removing their rows when any were listed, and does nothing else when none were |
| SfsGc.MultipartLogFree | src/rgw/driver/sfs/sfs_gc.cc:136-172 | delete_multiparts costs no budget |
| SfsGc.SourceOf | src/rgw/driver/sfs/sfs_gc.cc:123-192 | the driver's cascade removes data files too, uses the database's listings of objects and versions, and cleans up multipart part files at the corrected GcPartPath (under the data path) |
| SfsGc.SourceMultipart | src/rgw/driver/sfs/sfs_gc.cc:123-127 | each bucket's removal starts with delete_multiparts over its listed uploads, at no cost |
| SfsGc.SourceUnpaid | src/rgw/driver/sfs/sfs_gc.cc:136-172 | none of the driver's multipart clean-up is paid from the budget |
| SfsGc.DriverRunCost | src/rgw/driver/sfs/sfs_gc.cc:37-92 | a run of the driver's collector removes exactly as many rows as its budget drops by, never more than the budget, and at most one with a budget of one |
| SfsGc.DriverStep | src/rgw/driver/sfs/sfs_gc.cc:85-91 | after bucket i's removals, what remains of the run starts at bucket i + 1 |
| SfsGc.DriverDone | src/rgw/driver/sfs/sfs_gc.cc:85-91 | when the buckets or the budget run out, the whole run has been made |
| SfsGc.SFSGC.constructor | src/rgw/driver/sfs/sfs_gc.cc:25-27 | a new collector is going down until initialized, not suspended, with nothing removed |
| SfsGc.SFSGC.Initialize | src/rgw/driver/sfs/sfs_gc.cc:59-62 | the worker is started and the collector is up |
| SfsGc.SFSGC.Shutdown | src/rgw/driver/sfs/sfs_gc.cc:29-35 | the collector goes down and a started worker is stopped |
| SfsGc.SFSGC.Suspended | src/rgw/driver/sfs/sfs_gc.cc:64-66 | reports the suspend flag |
| SfsGc.SFSGC.GoingDown | src/rgw/driver/sfs/sfs_gc.cc:50-52 | reports the down flag |
| SfsGc.SFSGC.Suspend | src/rgw/driver/sfs/sfs_gc.cc:68-70 | sets the suspend flag; nothing else changes |
| SfsGc.SFSGC.Resume | src/rgw/driver/sfs/sfs_gc.cc:72-74 | clears the suspend flag; nothing else changes |
| SfsGc.SFSGC.DeleteVersionedObject | src/rgw/driver/sfs/sfs_gc.cc:186-192 | the version's row and file go and one unit is spent |
| SfsGc.SFSGC.DeleteVersionedObjects | src/rgw/driver/sfs/sfs_gc.cc:107-121 | the object's versions go in order while budget remains, one unit each |
| SfsGc.SFSGC.DeleteObject | src/rgw/driver/sfs/sfs_gc.cc:174-184 | the versions first, then the object's row and directory if budget remains, as ObjectRun says |
| SfsGc.SFSGC.DeleteObjects | src/rgw/driver/sfs/sfs_gc.cc:94-105 | the bucket's objects in order while budget remains, as ObjectsRun says |
| SfsGc.SFSGC.DeletePartFiles | src/rgw/driver/sfs/sfs_gc.cc:155-164 | the existing part files of one upload are removed, in order; the budget is untouched |
| SfsGc.SFSGC.DeleteMultiparts | src/rgw/driver/sfs/sfs_gc.cc:136-172 | the removals are exactly MultipartLog's, whose part files are looked for at the corrected GcPartPath (under the data path), and the budget is untouched |
| SfsGc.SFSGC.DeleteBucket | src/rgw/driver/sfs/sfs_gc.cc:123-134 | the multipart clean-up, the objects, then the bucket row if budget remains, as BucketRun says |
| SfsGc.SFSGC.DeleteBucketAt | src/rgw/driver/sfs/sfs_gc.cc:85-91 | one loop turn: after bucket i is deleted, the rest of the run starts at bucket i + 1 |
| SfsGc.SFSGC.ProcessDeletedBuckets | src/rgw/driver/sfs/sfs_gc.cc:80-92 | the deleted buckets in order while budget remains, as BucketsRun says |
| SfsGc.SFSGC.Process | src/rgw/driver/sfs/sfs_gc.cc:37-48 | the budget is reset to rgw_gc_max_objs, the deleted buckets are processed, and 0 is returned |
| SfsGc.SFSGC.WorkerRound | src/rgw/driver/sfs/sfs_gc.cc:199-232 | a suspended collector removes nothing; otherwise a full run; the worker goes round again iff the collector is not going down |
| StoreSfsGc.SourceOf | src/rgw/store/sfs/sfs_gc.cc:116-152 | the older collector's cascade records each object, version and bucket removal it asks for, with no data-file step of its own and no multipart clean-up |
| StoreSfsGc.StoreRunCost | src/rgw/store/sfs/sfs_gc.cc:35-89 | a run removes exactly as many rows as its budget drops by, never more than the budget, and at most one with a budget of one |
| StoreSfsGc.SFSGC.constructor | src/rgw/store/sfs/sfs_gc.h:25-45 | a new collector is not going down, has no worker and has removed nothing |
| StoreSfsGc.SFSGC.GoingDown | src/rgw/store/sfs/sfs_gc.cc:48-50 | reports the down flag |
| StoreSfsGc.SFSGC.StartProcessor | src/rgw/store/sfs/sfs_gc.cc:52-55 | a worker is created and started |
| StoreSfsGc.SFSGC.StopProcessor | src/rgw/store/sfs/sfs_gc.cc:57-65 | the collector goes down and no worker is left |
| StoreSfsGc.SFSGC.DeleteVersionedObject | src/rgw/store/sfs/sfs_gc.cc:141-152 | the version's row goes and one unit is spent |
| StoreSfsGc.SFSGC.DeleteVersionedObjects | src/rgw/store/sfs/sfs_gc.cc:105-114 | the object's versions in order while budget remains |
| StoreSfsGc.SFSGC.DeleteObject | src/rgw/store/sfs/sfs_gc.cc:129-139 | the versions first, then the object's row if budget remains |
| StoreSfsGc.SFSGC.DeleteObjects | src/rgw/store/sfs/sfs_gc.cc:91-103 | the bucket's objects in order while budget remains |
| StoreSfsGc.SFSGC.DeleteBucket | src/rgw/store/sfs/sfs_gc.cc:116-127 | the objects, then the bucket row if budget remains |
| StoreSfsGc.SFSGC.ProcessDeletedBuckets | src/rgw/store/sfs/sfs_gc.cc:77-89 | the deleted buckets in order while budget remains |
| StoreSfsGc.SFSGC.Process | src/rgw/store/sfs/sfs_gc.cc:35-46 | the budget is reset to rgw_gc_max_objs, the deleted buckets are processed, and 0 is returned |
| StoreSfsGc.SFSGC.WorkerRound | src/rgw/store/sfs/sfs_gc.cc:160-190 | every round is a full run; the worker goes round again iff the collector is not going down |
| UuidPath.Hex | src/rgw/store/sfs/uuid_path.h:32 | two hex digits per byte |
| UuidPath.HexChars | src/rgw/store/sfs/uuid_path.h:32 | the hex form holds lower-case hex digits only |
| UuidPath.UnhexHex | src/rgw/store/sfs/uuid_path.h:32 | reading the hex form back gives the bytes: the encoding round-trips |
| UuidPath.HexAppend | src/rgw/store/sfs/uuid_path.h:32 | the hex form of a concatenation is the concatenation of the hex forms |
| UuidPath.UuidString | src/rgw/store/sfs/uuid_path.h:32 | uuid_d::to_string is 36 characters long |
| UuidPath.UuidStringGroups | src/rgw/store/sfs/uuid_path.h:32 | the text form is the 8-4-4-4-12 grouping of the bytes' hex digits with dashes between the groups |
| UuidPath.UuidStringDigits | src/rgw/store/sfs/uuid_path.h:32 | dropping the four dashes leaves the hex digits of all sixteen bytes |
| UuidPath.UuidStringInjective | src/rgw/store/sfs/uuid_path.h:32 | distinct UUIDs have distinct text forms |
| UuidPath.UuidStringHasNoSeparator | src/rgw/store/sfs/uuid_path.h:32-43 | the text form holds no '/', so the path's components are exactly its three pieces |
| UuidPath.Nil | src/rgw/store/sfs/uuid_path.h:39 | the nil UUID is a valid UUID and is nil |
| UuidPath.ParseUuid | src/rgw/store/sfs/sqlite/objects/object_conversions.cc:21 | uuid_d::parse gives a valid UUID, and the nil UUID for any text boost's string_generator refuses |
| UuidPath.ParseUuidString | src/rgw/store/sfs/sqlite/objects/object_conversions.cc:21-36 | parsing the text form to_string writes gives back the UUID |
| UuidPath.ParseUuidUndashed | src/rgw/store/sfs/sqlite/objects/object_conversions.cc:21 | the 32 digits without dashes parse to the same UUID |
| UuidPath.ParseUuidBraced | src/rgw/store/sfs/sqlite/objects/object_conversions.cc:21 | the text form inside braces parses to the same UUID |
| UuidPath.ParseUuidUpper | src/rgw/store/sfs/sqlite/objects/object_conversions.cc:21 | upper-case digits parse to the same UUID as lower-case ones |
| UuidPath.MakeUuidPath | src/rgw/store/sfs/uuid_path.h:31-36 | the path keeps the UUID and splits its text form into 2, 2 and 32 characters |
| UuidPath.MakeUuidPathSplits | src/rgw/store/sfs/uuid_path.h:31-36 | the three pieces put back together are the text form |
| UuidPath.ToPath | src/rgw/store/sfs/uuid_path.h:38-44 | to_path is first/second/fname, for a UUID that is not nil |
| UuidPath.ToPathInjective | src/rgw/store/sfs/uuid_path.h:38-44 | two UUIDs share a directory path only if they are equal |
| UuidPath.ToPathParts | src/rgw/store/sfs/uuid_path.h:38-44 | the path is 38 characters and dropping its two separators gives the text form |
| UuidPath.Match | src/rgw/store/sfs/uuid_path.h:46-48 | two paths match iff their UUIDs are equal |
| UuidPath.MatchIffSameString | src/rgw/store/sfs/uuid_path.h:46-48 | paths built from UUIDs match iff their text forms agree |
| UuidPath.GetUuid | src/rgw/store/sfs/uuid_path.h:50-52 | get_uuid returns the UUID the path holds |
| UuidPath.GetUuidOfMake | src/rgw/store/sfs/uuid_path.h:31-52 | get_uuid returns the UUID the path was built from |
| MultipartTypes.StateValue | src/rgw/driver/sfs/multipart_types.h:27-36 | each state's enumerator value is at most 6, and 6 exactly for LAST_VALUE (ABORTED) |
| MultipartTypes.StateOrder | src/rgw/driver/sfs/multipart_types.h:27-36 | the value conversion is one-to-one, LAST_VALUE is the greatest, and the states follow their declaration order |
| MultipartTypes.Snprintf | src/rgw/driver/sfs/multipart_types.h:43-44 | snprintf into an n-byte buffer keeps the first n - 1 characters at most, the whole text when it fits |
| MultipartTypes.PartSuffix | src/rgw/driver/sfs/multipart_types.h:21-44 | the "-%d" suffix in the 7-byte buffer is '-' and at most five more characters |
| MultipartTypes.PartSuffixWhole | src/rgw/driver/sfs/multipart_types.h:21-44 | part numbers up to 99999 are written whole |
| MultipartTypes.PartSuffixTruncates | src/rgw/driver/sfs/multipart_types.h:21-44 | part 100000's suffix is cut to part 10000's |
| MultipartTypes.PartPath | src/rgw/driver/sfs/multipart_types.h:42-48 | a part's path is its upload's UUID path with the suffix appended to the last component |
| MultipartTypes.PartPathInjective | src/rgw/driver/sfs/multipart_types.h:42-48 | distinct part numbers 0..99999 of one upload get distinct files |
| MultipartTypes.PartPathSeparatesUploads | src/rgw/driver/sfs/multipart_types.h:42-48 | parts of different uploads never share a file |
| SfsMultipartUpload.MetaStr | src/rgw/driver/sfs/multipart.cc:47 | the meta string is "_meta", the object name, "." and the upload id, ending with the upload id |
| SfsMultipartUpload.LexLessCommonPrefix | src/rgw/driver/sfs/multipart.cc:47 | strings sharing a prefix compare as their remainders do |
| SfsMultipartUpload.MetaStrOrder | src/rgw/driver/sfs/multipart.cc:47 | one object's uploads order by meta string as by upload id, and two uploads never share a meta string |
| SfsMultipartUpload.EtagDigest | src/rgw/driver/sfs/multipart.cc:286-290 | hex_to_buf of a part etag gives 16 bytes; for a shorter etag the bytes it does not reach, uninitialised in the source, are zero in the model |
| SfsMultipartUpload.DigestOfHexEtag | src/rgw/driver/sfs/multipart.cc:286-290 | a part etag that is the hex form of a digest reads back as that digest |
| SfsMultipartUpload.FinalEtag | src/rgw/driver/sfs/multipart.cc:310-323 | the final etag is the hex digest followed by "-<count>" as the 7-byte tail of the buffer holds it |
| SfsMultipartUpload.FinalEtagCount | src/rgw/driver/sfs/multipart.cc:310-323 | up to 10000 parts the final etag carries the part count in full |
| SfsMultipartUpload.Nums | src/rgw/driver/sfs/multipart.cc:223-226 | one part number per stored part |
| SfsMultipartUpload.Keys | src/rgw/driver/sfs/multipart.cc:179 | one key per client entry |
| SfsMultipartUpload.WalkAccepts | src/rgw/driver/sfs/multipart.cc:244-293 | the validation loop succeeds from a position exactly when every position from there on passes the checks |
| SfsMultipartUpload.WalkTotals | src/rgw/driver/sfs/multipart.cc:244-293 | a successful loop adds every remaining part's size and etag digest, each part having an etag |
| SfsMultipartUpload.WalkParts | src/rgw/driver/sfs/multipart.cc:238-293 | the loop as the driver runs it computes exactly Walk from position 0 |
| SfsMultipartUpload.CheckListed | src/rgw/driver/sfs/multipart.cc:228-236 | the check passes iff every client-listed part number is a stored part |
| SfsMultipartUpload.CompleteAccepts | src/rgw/driver/sfs/multipart.cc:206-323 | a completion is accepted iff the counts agree and stay within 10000, every listed part exists, every part is finished, numbered and etagged as listed and (but the last) at least 5 MiB, and the parts fit the free space; then the size is the parts' sum and the etag the hex MD5 of their digests followed by "-<count>" |
| SfsMultipartUpload.WalkWhole | src/rgw/driver/sfs/multipart.cc:244-293 | over equally long lists the loop succeeds iff every position passes, with the sum of sizes and all digests |
| SfsMultipartUpload.IncreasingCard | src/rgw/driver/sfs/multipart.cc:223-226 | a strictly increasing sequence of part numbers has as many distinct numbers as entries |
| SfsMultipartUpload.SameNumbers | src/rgw/driver/sfs/multipart.cc:228-263 | two equally long strictly increasing number lists, one contained in the other, are equal |
| SfsMultipartUpload.WalkNoOrderError | src/rgw/driver/sfs/multipart.cc:256-263 | when numbers agree position by position the loop never gives ERR_INVALID_PART_ORDER |
| SfsMultipartUpload.PartOrderCheckUnreachable | src/rgw/driver/sfs/multipart.cc:256-263 | for the parts the database stores and a client map (ordered by key), ERR_INVALID_PART_ORDER can never be returned |
| SfsMultipartUpload.RecordContains | src/rgw/driver/sfs/multipart.cc:153-159 | after recording finished parts each is found under its number, the map holds the old numbers plus theirs, and the others keep their parts |
| SfsMultipartUpload.MultipartUpload.constructor | src/rgw/driver/sfs/multipart.cc:35-54 | the meta string is built from the object name and upload id, and the placement is the stored upload's, empty when none is stored |
| SfsMultipartUpload.MultipartUpload.Init | src/rgw/driver/sfs/multipart.cc:72-136 | an upload already stored gives ERR_INTERNAL_ERROR and changes nothing; otherwise it is inserted in state INIT with the object name, meta string, UUID, owner, placement, attributes and times, and the placement is kept; other uploads are untouched |
| SfsMultipartUpload.MultipartUpload.ListParts | src/rgw/driver/sfs/multipart.cc:138-161 | the page's finished parts are recorded under their numbers; when more parts exist truncation is set and the next marker is the first part left out, otherwise the caller's truncated flag and marker are left as they were |
| SfsMultipartUpload.MultipartUpload.Abort | src/rgw/driver/sfs/multipart.cc:163-175 | succeeds iff the upload was open, and it is then ABORTED; otherwise ERR_NO_SUCH_UPLOAD and nothing changes |
| SfsMultipartUpload.MultipartUpload.Complete | src/rgw/driver/sfs/multipart.cc:177-499 | an upload that is not open gives ERR_NO_SUCH_UPLOAD; an open one is marked COMPLETE, validated by CompleteCheck (a rejection leaves it COMPLETE), then AGGREGATING, and DONE once the object is built |
| SfsMultipartUpload.MultipartUpload.GetInfo | src/rgw/driver/sfs/multipart.cc:501-542 | ERR_NO_SUCH_UPLOAD unless the upload is stored and INIT or INPROGRESS; otherwise the placement (none when empty) and the stored attributes |
| SfsMultipartUpload.ListMultipartUploads | src/rgw/driver/sfs/multipart.cc:562-608 | ERR_NO_SUCH_BUCKET iff the bucket is unknown; otherwise one upload per listed row, in order, and truncation set when more rows remain (never cleared) |
| SfsMultipartUpload.AbortMultipartUploads | src/rgw/driver/sfs/multipart.cc:610-637 | ERR_NO_SUCH_BUCKET iff the bucket is unknown; otherwise exactly the bucket's open uploads become ABORTED |
| SqliteMultipart.OpenStatesRange | src/rgw/driver/sfs/sqlite/sqlite_multipart.cc:286-287 | the open states are exactly those in [INIT, COMPLETE), which is [INIT, INPROGRESS] |
| SqliteMultipart.SetState | src/rgw/driver/sfs/sqlite/sqlite_multipart.cc:281-289 | an UPDATE keeps every row and its upload id |
| SqliteMultipart.Changes | src/rgw/driver/sfs/sqlite/sqlite_multipart.cc:290 | the change count is at most the number of rows |
| SqliteMultipart.FindUpload | src/rgw/driver/sfs/sqlite/sqlite_multipart.cc:100-117 | a found row is in the table under that id; none found means no row has it |
| SqliteMultipart.FindAt | src/rgw/driver/sfs/sqlite/sqlite_multipart.cc:108-111 | with unique upload ids every row is the one its id finds |
| SqliteMultipart.ChangesByUpload | src/rgw/driver/sfs/sqlite/sqlite_multipart.cc:290-294 | an UPDATE on one upload id changes one row exactly when that upload is stored in a selected state, else none |
| SqliteMultipart.SetStateFind | src/rgw/driver/sfs/sqlite/sqlite_multipart.cc:281-299 | after an UPDATE on one upload id, that upload moves to the new state (with the new change time) when its state was selected, and every other upload is unchanged |
| SqliteMultipart.StepForward | src/rgw/driver/sfs/sqlite/sqlite_multipart.cc:278-400 | every state change (abort, mark_complete, mark_aggregating, mark_done) moves an upload forward in state order, and never out of DONE or ABORTED |
| SqliteMultipart.PartIndex | src/rgw/driver/sfs/sqlite/sqlite_multipart.cc:168-181 | finds the position of the upload's part with that number, or shows none exists |
| SqliteMultipart.PartIndexAt | src/rgw/driver/sfs/sqlite/sqlite_multipart.cc:172-179 | with unique (upload, number) pairs every part is the one its pair finds |
| SqliteMultipart.RewritePartOthers | src/rgw/driver/sfs/sqlite/sqlite_multipart.cc:219-233 | rewriting a part in place keeps the table well formed and every other part as it was |
| SqliteMultipart.AppendPart | src/rgw/driver/sfs/sqlite/sqlite_multipart.cc:234-245 | inserting a part under a fresh id and pair keeps the table well formed and every other part as it was |
| SqliteMultipart.FilterIncreasing | src/rgw/driver/sfs/sqlite/sqlite_multipart.cc:131-138 | a filter of an id-ordered table is id-ordered |
| SqliteMultipart.RaiseMarker | src/rgw/driver/sfs/sqlite/sqlite_multipart.cc:131-138 | listing from a later marker reads exactly the earlier listing's parts from that marker on |
| SqliteMultipart.SuffixFromId | src/rgw/driver/sfs/sqlite/sqlite_multipart.cc:131-138 | in an id-ordered sequence the rows with id at least the n-th one's are the rows from n on |
| SqliteMultipart.NextPageContinues | src/rgw/driver/sfs/sqlite/sqlite_multipart.cc:125-155 | listing again from the next marker of a truncated page yields exactly the parts not yet returned |
| SqliteMultipart.PartNumLeTotal | src/rgw/driver/sfs/sqlite/sqlite_multipart.cc:163 | ORDER BY part_num is a total preorder |
| SqliteMultipart.PartsOfUploadOrdered | src/rgw/driver/sfs/sqlite/sqlite_multipart.cc:157-166 | get_parts returns the upload's parts only, all of them, in strictly increasing number |
| SqliteMultipart.PartsOfUploadPair | src/rgw/driver/sfs/sqlite/sqlite_multipart.cc:157-166 | two positions of get_parts' answer hold different numbers, the earlier the smaller |
| SqliteMultipart.CountOnce | src/rgw/driver/sfs/sqlite/sqlite_multipart.cc:131-138 | a row of an id-ordered table occurs once in it |
| SqliteMultipart.FilterAtMostOnce | src/rgw/driver/sfs/sqlite/sqlite_multipart.cc:131-138 | a row occurs at most once in any filter of an id-ordered table |
| SqliteMultipart.FindBucket | src/rgw/driver/sfs/sqlite/sqlite_multipart.cc:35-42 | a found bucket row has that name; none found means no row has it |
| SqliteMultipart.LikeAnyMatches | src/rgw/driver/sfs/sqlite/sqlite_multipart.cc:50 | the pattern "%" matches every object name |
| SqliteMultipart.LikePrefixMatch | src/rgw/driver/sfs/sqlite/sqlite_multipart.cc:50 | for a prefix without wildcards, prefix + "%" selects exactly the names that start with the prefix up to the case of ASCII letters |
| SqliteMultipart.LikeExactPrefix | src/rgw/driver/sfs/sqlite/sqlite_multipart.cc:50 | every name starting with the prefix exactly is listed under it |
| SqliteMultipart.PrefixIsPattern | src/rgw/driver/sfs/sqlite/sqlite_multipart.cc:50 | the prefix is a LIKE pattern: "a_" lists "ABC", which does not start with "a_" |
| SqliteMultipart.MetaLeTotal | src/rgw/driver/sfs/sqlite/sqlite_multipart.cc:52 | ORDER BY meta_str is a total preorder |
| SqliteMultipart.UploadsQueryListing | src/rgw/driver/sfs/sqlite/sqlite_multipart.cc:44-62 | the rows read are exactly the bucket's open uploads from the marker whose name is LIKE the prefix, in meta-string order; a page of n holds at most n, each sorting before every row left out |
| SqliteMultipart.ConvertAll | src/rgw/driver/sfs/sqlite/sqlite_multipart.cc:64-66 | each row read is converted, in order |
| SqliteMultipart.SQLiteMultipart.constructor | src/rgw/driver/sfs/sqlite/sqlite_multipart.cc:24 | a store over the given buckets with no uploads and no parts |
| SqliteMultipart.SQLiteMultipart.ListMultiparts | src/rgw/driver/sfs/sqlite/sqlite_multipart.cc:26-69 | None iff the bucket is unknown; otherwise the first maxUploads selected rows, converted, and the truncation flag set iff more exist (otherwise left as it was) |
| SqliteMultipart.SQLiteMultipart.Transition | src/rgw/driver/sfs/sqlite/sqlite_multipart.cc:281-290 | one conditional UPDATE: the uploads become SetState's, the change count is Changes' |
| SqliteMultipart.SQLiteMultipart.AbortMultiparts | src/rgw/driver/sfs/sqlite/sqlite_multipart.cc:71-98 | ERR_NO_SUCH_BUCKET for an unknown bucket; otherwise the bucket's open uploads become ABORTED and their number is returned |
| SqliteMultipart.SQLiteMultipart.GetMultipart | src/rgw/driver/sfs/sqlite/sqlite_multipart.cc:100-117 | None for an empty or unknown upload id, otherwise the converted row |
| SqliteMultipart.SQLiteMultipart.Insert | src/rgw/driver/sfs/sqlite/sqlite_multipart.cc:119-123 | a new upload is appended under a fresh row id, which is returned; an upload id already stored makes the insert fail and changes nothing |
| SqliteMultipart.SQLiteMultipart.ListParts | src/rgw/driver/sfs/sqlite/sqlite_multipart.cc:125-155 | at most numParts finished parts of the upload with id from the marker on, by id; when more exist truncated is set and the next marker is the first part left out, otherwise the caller's truncated flag and next marker are returned unchanged |
| SqliteMultipart.SQLiteMultipart.GetParts | src/rgw/driver/sfs/sqlite/sqlite_multipart.cc:157-166 | every part of the upload, by part number |
| SqliteMultipart.SQLiteMultipart.GetPart | src/rgw/driver/sfs/sqlite/sqlite_multipart.cc:168-181 | the upload's part with that number, if any |
| SqliteMultipart.SQLiteMultipart.CreateOrResetPart | src/rgw/driver/sfs/sqlite/sqlite_multipart.cc:183-252 | refused with "could not find upload" unless the upload is INIT or INPROGRESS; a refused write rolls everything back and hands its error text back; otherwise an INIT upload becomes INPROGRESS and the part is reset (or inserted) with size 0, no etag and no mtime, every other part unchanged |
| SqliteMultipart.SQLiteMultipart.WritePart | src/rgw/driver/sfs/sqlite/sqlite_multipart.cc:212-248 | the part is reset or inserted with size 0, no etag and no mtime; no other part changes |
| SqliteMultipart.SQLiteMultipart.FinishPart | src/rgw/driver/sfs/sqlite/sqlite_multipart.cc:254-276 | true iff the part exists with no etag yet; it then takes the etag, mtime and size; otherwise nothing changes |
| SqliteMultipart.SQLiteMultipart.MarkFrom | src/rgw/driver/sfs/sqlite/sqlite_multipart.cc:278-400 | one conditional UPDATE on the upload id: true iff the upload was in one of the given states, and then only it moved |
| SqliteMultipart.SQLiteMultipart.Abort | src/rgw/driver/sfs/sqlite/sqlite_multipart.cc:278-299 | true iff the upload was open, and it is then ABORTED; nothing else changes |
| SqliteMultipart.SQLiteMultipart.MarkComplete | src/rgw/driver/sfs/sqlite/sqlite_multipart.cc:301-328 | true iff the upload was INIT or INPROGRESS, and it is then COMPLETE |
| SqliteMultipart.SQLiteMultipart.MarkCompleteDuplicate | src/rgw/driver/sfs/sqlite/sqlite_multipart.cc:330-357 | a DONE upload sets duplicate and counts as success with nothing changed; otherwise the caller's duplicate flag is untouched, an open upload becomes COMPLETE and any other fails with the table unchanged |
| SqliteMultipart.SQLiteMultipart.MarkAggregating | src/rgw/driver/sfs/sqlite/sqlite_multipart.cc:359-379 | true iff the upload was COMPLETE, and it is then AGGREGATING |
| SqliteMultipart.SQLiteMultipart.MarkDone | src/rgw/driver/sfs/sqlite/sqlite_multipart.cc:381-400 | true iff the upload was AGGREGATING, and it is then DONE |
| StoreMultipart.TrimSpec | src/rgw/store/sfs/multipart.cc:53 | boost::trim keeps a slice of the id with no white space at either end and drops only white space around it |
| StoreMultipart.TrimIdempotent | src/rgw/store/sfs/multipart.cc:53 | trimming an already trimmed id changes nothing |
| StoreMultipart.UploadIdOf | src/rgw/store/sfs/multipart.cc:53-56 | the kept id is the trimmed id, or the generated one when trimming leaves nothing |
| StoreMultipart.MetaName | src/rgw/store/sfs/multipart.cc:61 | meta is "_meta." then the object name, a dot, then the upload id |
| StoreMultipart.MetaNameInjective | src/rgw/store/sfs/multipart.cc:61 | for one object name, different upload ids give different meta names |
| StoreMultipart.RawUploadId | src/rgw/store/sfs/multipart.cc:39 | a missing optional id reads as "" |
| StoreMultipart.MultipartObject.constructor | src/rgw/store/sfs/multipart.cc:25-41 | the object keeps its name, the trimmed (or generated) id and the meta name derived from them; a missing id reads as "" |
| StoreMultipart.MultipartObject.Init | src/rgw/store/sfs/multipart.cc:48-62 | init sets the name, the trimmed (or generated) id and meta from them |
| MultipartConversions.GetDbMultipart | src/rgw/driver/sfs/sqlite/buckets/multipart_conversions.cc:21-41 | the row keeps every scalar field, flattens owner and placement into their columns (of the owner's user only the id) and encodes the attributes |
| MultipartConversions.GetRgwMultipart | src/rgw/driver/sfs/sqlite/buckets/multipart_conversions.cc:43-64 | the upload keeps every scalar column, rebuilds owner and placement from theirs (the owner's tenant and namespace empty) and decodes the attributes |
| MultipartConversions.MultipartRoundTrip | src/rgw/driver/sfs/sqlite/buckets/multipart_conversions.cc:21-64 | storing an upload whose owner has an empty tenant and namespace and reading it back gives the same upload, whenever attribute decoding inverts encoding |
| MultipartConversions.OwnerTenantAndNamespaceLost | src/rgw/driver/sfs/sqlite/buckets/multipart_conversions.cc:30-56 | an upload reads back with its owner's tenant and namespace empty, so the owner survives exactly when both were empty |
| MultipartConversions.RowRoundTrip | src/rgw/driver/sfs/sqlite/buckets/multipart_conversions.cc:21-64 | reading a row and storing it again gives the same row, whenever its attribute blob re-encodes to itself |
| SfsTypes.MetadataDb.constructor | src/rgw/driver/sfs/types.cc:191-252 | the database request log starts empty |
| SfsTypes.MetadataDb.Send | src/rgw/driver/sfs/types.cc:191-252 | a request is appended to the log and nothing else changes |
| SfsTypes.ObjectDir | src/rgw/driver/sfs/types.cc:150-152 | the object's directory is its 38-character UUID path |
| SfsTypes.StoragePathLayout | src/rgw/driver/sfs/types.cc:150-152 | the storage path is the UUID path, a separator, then the version's row id in decimal |
| SfsTypes.StoragePathsDistinct | src/rgw/driver/sfs/types.cc:150-152 | different objects, or different versions of one object, get different storage paths |
| SfsTypes.MarkDeleted | src/rgw/driver/sfs/types.cc:388-399 | a deleted version is DELETED with delete time and mtime now, every other field as before |
| SfsTypes.Object.FromKey | src/rgw/driver/sfs/types.h:63-67 | an object for a key: its name and instance, a new UUID, not deleted, version 0, default metadata and no attributes |
| SfsTypes.Object.ForQuery | src/rgw/driver/sfs/types.cc:47-54 | an object with the given name, UUID, deleted flag and row id, and an empty instance |
| SfsTypes.Object.ForImmediateDeletion | src/rgw/driver/sfs/types.cc:41-45 | an object with the row's name and UUID, flagged deleted |
| SfsTypes.Object.FromDbVersion | src/rgw/driver/sfs/types.cc:66-81 | the version's id becomes the instance and its row id the version id; deleted exactly for a delete marker; size, etag, mtime, delete time and attributes come from the row |
| SfsTypes.Object.StoragePath | src/rgw/driver/sfs/types.cc:150-152 | the object's storage path is the one StoragePathOf gives for its UUID and row id |
| SfsTypes.Object.UpdateMeta | src/rgw/driver/sfs/types.cc:162-164 | the metadata is replaced wholesale and nothing else changes |
| SfsTypes.Object.GetAttr | src/rgw/driver/sfs/types.cc:166-173 | true iff the name is an attribute, and then its value |
| SfsTypes.Object.SetAttr | src/rgw/driver/sfs/types.cc:175-177 | the value is stored under the name, replacing any old one; nothing else changes |
| SfsTypes.Object.DelAttr | src/rgw/driver/sfs/types.cc:179-181 | the attribute is gone and the count erased is 1 if it was present, else 0 |
| SfsTypes.Object.UpdateAttrs | src/rgw/driver/sfs/types.cc:187-189 | the attributes are replaced wholesale and nothing else changes |
| SfsTypes.Object.MetadataFlushAttrs | src/rgw/driver/sfs/types.cc:191-197 | the object's version row is stored back with the object's attributes |
| SfsTypes.Object.MetadataFinish | src/rgw/driver/sfs/types.cc:199-229 | the object row takes the object's name; its version row takes size, times, etag and attributes and becomes COMMITTED, stored alone on a versioned bucket and with the other versions deleted otherwise |
| SfsTypes.Object.DeleteObjectVersion | src/rgw/driver/sfs/types.cc:231-236 | the version row is removed and 0 returned |
| SfsTypes.Object.DeleteObjectMetadata | src/rgw/driver/sfs/types.cc:238-242 | the object row is removed |
| SfsTypes.Object.DataPathToRemove | src/rgw/driver/sfs/types.cc:244-252 | all removes the object's directory, otherwise only this version's file inside it |
| SfsTypes.FinishedVersion | src/rgw/driver/sfs/types.cc:206-220 | the finished version is COMMITTED at now with the object's size, etag, times and attributes and keeps its ids and type |
| SfsTypes.MarkerRow | src/rgw/driver/sfs/types.cc:341-347 | a new object's delete marker is a COMMITTED DELETE_MARKER version of that UUID, with the generated id and delete time now |
| SfsTypes.Bucket.constructor | src/rgw/driver/sfs/types.h:164-173 | a bucket holds its name, id, versioning flag and attributes |
| SfsTypes.Bucket.CreateVersion | src/rgw/driver/sfs/types.cc:254-273 | the version id is the key's instance, or a generated one when empty; one create-version transaction; an object iff it succeeds, built from the new row: the key's name, the row's version id as instance, its row id, its object's UUID as path (so the storage path is that UUID's directory and the row id), deleted exactly for a delete marker, and the row's size, etag, mtime, delete time and attributes |
| SfsTypes.Bucket.Get | src/rgw/driver/sfs/types.cc:123-148 | UnknownObject iff the database finds no non-deleted version; otherwise the object built from that version: its version id as instance, its row id, its object's UUID as path and storage path, deleted exactly for a delete marker, and its size, etag, mtime, delete time and attributes |
| SfsTypes.Bucket.GetAll | src/rgw/driver/sfs/types.cc:287-302 | one object per COMMITTED last version, in the order listed, each built from it: name, instance, row id, UUID path, deleted flag, size, etag, mtime, delete time and attributes |
| SfsTypes.Bucket.DeleteObject | src/rgw/driver/sfs/types.cc:304-332 | unversioned: the last version is marked DELETED; versioned with no instance: a delete marker is added; a named delete marker undeletes; a named other version is marked DELETED; a missing one changes nothing; the marker id is returned only when one was added |
| SfsTypes.Bucket.Undelete | src/rgw/driver/sfs/types.cc:355-377 | only a delete marker with an id that the key names is removed; the object then shows the previous version, if any |
| SfsTypes.Bucket.DeleteVersion | src/rgw/driver/sfs/types.cc:388-399 | the version is stored DELETED at now and the object flagged deleted |
| SfsTypes.Bucket.AddMarker | src/rgw/driver/sfs/types.cc:401-418 | when the marker is added the object is deleted and takes its ids and the id is returned; otherwise "" and the object unchanged |
| SfsTypes.Bucket.CreateNonExistingObjectDeleteMarker | src/rgw/driver/sfs/types.cc:334-353 | a new object row under a fresh UUID, then a COMMITTED delete-marker version with a generated id, which is returned |
| SfsTypes.FromItem | src/rgw/driver/sfs/types.cc:83-100 | the object built from a listed item carries its name, version id as instance, row id, UUID as path, deleted flag (exactly for a delete marker), size, etag, mtime, delete time and attributes |
| StoreSfsTypes.LastBelow | src/rgw/store/sfs/types.cc:187-189 | the object's row with the highest id below n, or a proof that it has none there |
| StoreSfsTypes.LastOf | src/rgw/store/sfs/types.cc:187-189 | get_last_versioned_object: a row of the object, or none when the object has no row |
| StoreSfsTypes.LastIsHighest | src/rgw/store/sfs/types.cc:187-189 | in a valid table the last row's id is at least that of every row of the object |
| StoreSfsTypes.StoreKeepsLast | src/rgw/store/sfs/types.cc:205-207 | storing the last row back over itself keeps it the last row |
| StoreSfsTypes.InsertBecomesLast | src/rgw/store/sfs/types.cc:199-204 | a row inserted under the next id becomes the object's last row |
| StoreSfsTypes.RemoveLastGivesPrevious | src/rgw/store/sfs/types.cc:244-247 | removing the last row makes the highest row below it the last |
| StoreSfsTypes.BelowAgrees | src/rgw/store/sfs/types.cc:244-247 | below row k, removing row k changes no object's last row |
| StoreSfsTypes.MetadataDb.constructor | src/rgw/store/sfs/types.cc:28-52 | an empty database that hands out row ids from 1 |
| StoreSfsTypes.MetadataDb.LastVersion | src/rgw/store/sfs/types.cc:187-189 | the last version of an object is the one LastOf gives |
| StoreSfsTypes.MetadataDb.StoreObject | src/rgw/store/sfs/types.cc:39-42 | the object row replaces any with its UUID; versions untouched; the table stays valid |
| StoreSfsTypes.MetadataDb.InsertVersion | src/rgw/store/sfs/types.cc:44-51 | the row is stored under the next id, which is returned and then advanced |
| StoreSfsTypes.MetadataDb.StoreVersion | src/rgw/store/sfs/types.cc:63 | the row replaces the one with its id; the table stays valid |
| StoreSfsTypes.MetadataDb.RemoveVersion | src/rgw/store/sfs/types.cc:244 | the row with that id is gone and nothing else changes |
| StoreSfsTypes.Object.FromKey | src/rgw/store/sfs/types.h:63-64 | an object for a key: its name and instance, a new UUID, version 0, empty metadata, not deleted |
| StoreSfsTypes.Object.FromRow | src/rgw/store/sfs/types.h:60-61 | an object with the given name, UUID and deleted flag, and an empty instance |
| StoreSfsTypes.Object.StoragePath | src/rgw/store/sfs/types.cc:24-26 | the UUID path, a separator, then the version's row id in decimal |
| StoreSfsTypes.Object.MetadataInit | src/rgw/store/sfs/types.cc:28-52 | with new_object the object row is stored; with new_version an OPEN row for the instance is inserted and its id becomes the object's version id; otherwise nothing changes |
| StoreSfsTypes.Object.MetadataChangeVersionState | src/rgw/store/sfs/types.cc:54-64 | the version row takes the state; DELETED also marks the object deleted and sets the row's deletion time to now |
| StoreSfsTypes.Object.MetadataFinish | src/rgw/store/sfs/types.cc:66-87 | the object row takes the metadata; the version row takes size, etag, mtime as creation time and becomes COMMITTED |
| StoreSfsTypes.Load | src/rgw/store/sfs/types.cc:270-285 | the object a refresh builds shows the row's metadata and the last version's id, instance and deleted flag |
| StoreSfsTypes.Refreshed | src/rgw/store/sfs/types.cc:267-288 | the row a refresh keeps for a name has that name and a version row |
| StoreSfsTypes.RefreshedSnoc | src/rgw/store/sfs/types.cc:270-286 | one more listed row changes only its own name's refresh, and only when it has a version |
| StoreSfsTypes.RefreshLoadStep | src/rgw/store/sfs/types.cc:272-285 | a row with a version puts the loaded object under its name and keeps the loop's invariant |
| StoreSfsTypes.RefreshSkipStep | src/rgw/store/sfs/types.cc:272-273 | a row without a version changes nothing and keeps the loop's invariant |
| StoreSfsTypes.Bucket.constructor | src/rgw/store/sfs/types.h:100-111 | the bucket loads its object map by the refresh |
| StoreSfsTypes.Bucket.SetDeletedFlag | src/rgw/store/sfs/types.h:173 | the flag is set and the object map is unchanged |
| StoreSfsTypes.Bucket.Get | src/rgw/store/sfs/types.h:159-165 | the object of a known name, otherwise UnknownObjectException |
| StoreSfsTypes.Bucket.GetOrCreate | src/rgw/store/sfs/types.cc:135-156 | a new name gets a new object, object row and OPEN version; a known name keeps its object, and only a non-empty, different instance replaces the instance and adds a version row |
| StoreSfsTypes.Bucket.Finish | src/rgw/store/sfs/types.cc:158-182 | the object's row is stored with its name and current metadata; versions untouched |
| StoreSfsTypes.Bucket.DeleteObject | src/rgw/store/sfs/types.cc:184-211 | an already DELETED last version is undeleted; otherwise it becomes DELETED at now, as a new row under a new random id (which becomes the instance) when versioned and in place when not, and the object is deleted; the object's name, row id and metadata are unchanged |
| StoreSfsTypes.Bucket.UndeleteObject | src/rgw/store/sfs/types.cc:238-265 | versioned: only the request naming the last row removes it, the object taking the previous row's instance or leaving the map when none is left; unversioned: the row becomes COMMITTED and the object undeleted; the object's name, row id and metadata are unchanged |
| StoreSfsTypes.Bucket.CreateNonExistingObjectDeleteMarker | src/rgw/store/sfs/types.cc:213-236 | a new deleted object enters the map with an object row and a DELETED row under a new random id, which is returned |
| StoreSfsTypes.Bucket.RefreshObjects | src/rgw/store/sfs/types.cc:267-288 | over the bucket's object rows as get_objects lists them (every row of the bucket id, in some order), every listed row with a version is loaded under its name, the last such row winning; other names keep their objects |
| StoreSfsTypes.Bucket.RefreshRow | src/rgw/store/sfs/types.cc:270-286 | one listed row of the refresh keeps the loop's invariant |
| SfsBucket.Find | src/rgw/driver/sfs/bucket.cc:172 | std::string::find from a position: the first occurrence at or after it, or none |
| SfsBucket.CommonPrefix | src/rgw/driver/sfs/bucket.cc:167-186 | a name rolls up iff a delimiter is set and occurs at or after the prefix's length; the common prefix is the name up to and including its first such occurrence |
| SfsBucket.Views | src/rgw/driver/sfs/bucket.cc:86 | the objects' views, one per object, in order |
| SfsBucket.PlainEntry | src/rgw/driver/sfs/bucket.cc:92-99 | a list entry carries the object's name, instance, size, mtime and etag and the bucket owner, with no flags |
| SfsBucket.Listing | src/rgw/driver/sfs/bucket.cc:75-108 | list gives at most one entry per object |
| SfsBucket.ListingSpec | src/rgw/driver/sfs/bucket.cc:75-108 | every entry has the prefix and is not rolled up; every live object with the prefix has its entry or its common prefix; every common prefix starts with the prefix and ends with the delimiter |
| SfsBucket.ListStepSound | src/rgw/driver/sfs/bucket.cc:86-101 | one more object of list's loop keeps what list promises |
| SfsBucket.VersionEntry | src/rgw/driver/sfs/bucket.cc:131-146 | a version entry has the version's id, size, creation time and etag, FLAG_VER, FLAG_CURRENT iff it is the object's current version, FLAG_DELETE_MARKER iff it is a delete marker, and no other flag |
| SfsBucket.VersionEntries | src/rgw/driver/sfs/bucket.cc:127-148 | one entry per COMMITTED version, all under the object's name and flagged VER |
| SfsBucket.UnversionedEntry | src/rgw/driver/sfs/bucket.cc:149-161 | on a non-versioned bucket an object's entry has no instance, FLAG_VER and FLAG_CURRENT, and the object's size, mtime and etag |
| SfsBucket.VersionsListingSpec | src/rgw/driver/sfs/bucket.cc:110-165 | every entry has the prefix, is not rolled up and is flagged VER; a non-versioned bucket gives each shown object its one current entry; a versioned one gives every COMMITTED version its entry; rolled-up objects give their common prefix |
| SfsBucket.VersionsStepSound | src/rgw/driver/sfs/bucket.cc:117-163 | one more object of list_versions' loop keeps what list_versions promises |
| SfsBucket.VersionsListingSnoc | src/rgw/driver/sfs/bucket.cc:117-163 | list_versions over one more object is one more step of its loop |
| SfsBucket.CheckEmpty | src/rgw/driver/sfs/bucket.cc:269-281 | ENOTEMPTY iff some object's last version is not a delete marker, otherwise success |
| SfsBucket.SFSBucket.CheckEmptyAsWritten | src/rgw/driver/sfs/bucket.cc:269-281 | as written: ENOTEMPTY iff some last version listed under the bucket's name is not a delete marker |
| SfsBucket.SFSBucket.CheckEmptyById | src/rgw/driver/sfs/bucket.cc:269-281 | corrected: ENOTEMPTY iff some last version listed under the bucket's id, where its objects are stored, is not a delete marker |
| SfsBucket.CheckEmptyByNameMissesObjects | src/rgw/driver/sfs/bucket.cc:273-273 | a bucket's id differs from its name, so a bucket with a live object stored under its id and nothing under its name passes the check by name and fails the check by id |
| SfsBucket.MultipartUploadId | src/rgw/driver/sfs/bucket.cc:310-323 | the upload id is the one supplied, or a generated one when it is missing or empty |
| SfsBucket.SFSBucket.constructor | src/rgw/driver/sfs/bucket.cc:30-39 | the bucket takes its record's attributes, and the ACL from the ACL attribute when present |
| SfsBucket.SFSBucket.GetObject | src/rgw/driver/sfs/bucket.cc:50-73 | the object handed out has the requested key whether or not the database finds it |
| SfsBucket.SFSBucket.List | src/rgw/driver/sfs/bucket.cc:75-84 | list dispatches to list_versions when versions are asked for, otherwise gives Listing |
| SfsBucket.SFSBucket.ListVersions | src/rgw/driver/sfs/bucket.cc:110-165 | list_versions gives VersionsListing over the bucket's objects |
| SfsBucket.SFSBucket.ListVersionsStep | src/rgw/driver/sfs/bucket.cc:117-163 | one object of list_versions' loop is VersionsStep |
| SfsBucket.SFSBucket.RemoveBucket | src/rgw/driver/sfs/bucket.cc:188-223 | without delete_children a bucket with a live object (looked up under its id) is refused with ENOENT; an abort failure gives ENOENT for an unknown bucket and -1 otherwise; a missing record gives ENOENT; on success the record is flagged deleted and the bucket leaves the store's map, and on failure nothing changes |
| SfsBucket.SFSBucket.MergeAndStoreAttrs | src/rgw/driver/sfs/bucket.cc:283-308 | the attributes become new_attrs, a supplied ACL attribute becomes the ACL, the record is stored with them and the bucket map rebuilt from the stored records |
| SfsBucket.SFSBucket.MergeAttrs | src/rgw/driver/sfs/bucket.cc:286-300 | the merged attributes are exactly new_attrs, and a supplied ACL attribute becomes the ACL |
| SfsBucket.ListObjectVersions | src/rgw/driver/sfs/bucket.cc:127-148 | the inner loop of list_versions gives VersionEntries |
| SfsObject.Chunks | src/rgw/driver/sfs/object.cc:118-143 | iterate reads no chunk exactly when there is nothing to read |
| SfsObject.ChunksTotal | src/rgw/driver/sfs/object.cc:118-143 | the chunks iterate reads add up to the requested length |
| SfsObject.ChunksShape | src/rgw/driver/sfs/object.cc:118-143 | every chunk is at most 10 MiB and non-empty, all but the last are exactly 10 MiB, and each starts where the previous one ended |
| SfsObject.RangeLen | src/rgw/driver/sfs/object.cc:86 | len = end + 1 - ofs in int64: exact when it fits, otherwise wrapped modulo 2^64 |
| SfsObject.RangeLenWidths | src/rgw/driver/sfs/object.cc:86 | a length that fits in int64 keeps its value as uint64 and one that fits in int32 as int; otherwise the int result is congruent modulo 2^32 |
| SfsObject.Read | src/rgw/driver/sfs/object.cc:81-104 | EIO iff the file read fails; otherwise the length, narrowed to int |
| SfsObject.Iterate | src/rgw/driver/sfs/object.cc:106-145 | the callback gets a prefix of the 10 MiB chunks of the range; success iff every chunk is read and accepted, then all of them, adding up to the length; any failure is EIO |
| SfsObject.ReadChunks | src/rgw/driver/sfs/object.cc:118-143 | the loop hands the callback a prefix of the chunks, and all of them exactly when every read and every callback succeeds |
| SfsObject.ChunksStep | src/rgw/driver/sfs/object.cc:119-142 | one turn of the loop reads a chunk of min(missing, 10 MiB) and leaves the rest of the range |
| SfsObject.ApplyAttrChanges | src/rgw/driver/sfs/object.cc:311-335 | after set_obj_attrs a name is present iff it is set, or was present and not deleted; a set name has the new value and any other keeps its old one |
| SfsObject.SetOf | src/rgw/driver/sfs/object.cc:323 | a missing set of attributes sets nothing |
| SfsObject.DelOf | src/rgw/driver/sfs/object.cc:318 | a missing set of attributes deletes nothing, otherwise exactly its names |
| SfsObject.SfsObject.constructor | src/rgw/driver/sfs/object.cc:28-40 | the object keeps its key and (possibly missing) object ref, with no cached attributes and no delete marker |
| SfsObject.SfsObject.Prepare | src/rgw/driver/sfs/object.cc:42-65 | ENOENT iff there is no object, it is deleted, or its data file is missing; otherwise the storage path |
| SfsObject.SfsObject.ReadAttr | src/rgw/driver/sfs/object.cc:67-79 | ENOENT for a missing or deleted object, ENODATA for a missing attribute, otherwise its value |
| SfsObject.SfsObject.DeleteObj | src/rgw/driver/sfs/object.cc:152-195 | a versioned bucket always answers delete marker, with the new marker's id, the generated id of a marker made for a missing object, or the key's instance; an unversioned bucket answers neither and marks an existing object deleted; a marker is made for a missing object only on a versioned bucket with no instance |
| SfsObject.SfsObject.SetObjAttrs | src/rgw/driver/sfs/object.cc:311-335 | the attributes become ApplyAttrChanges of the deletions then the sets, the cache takes them and the version row is flushed |
| SfsObject.SfsObject.ModifyObjAttrs | src/rgw/driver/sfs/object.cc:341-357 | with no name nothing changes; otherwise the attribute is set, the cache takes the attributes and the row is flushed; always 0 |
| SfsObject.SfsObject.DeleteObjAttrs | src/rgw/driver/sfs/object.cc:359-374 | with no name nothing changes; otherwise the attribute is gone, and only when it was present are the cache refreshed and the row flushed; always 0 |
| SfsObject.DeleteAll | src/rgw/driver/sfs/object.cc:318-322 | every named attribute is erased and nothing else changes |
| SfsObject.SetAll | src/rgw/driver/sfs/object.cc:323-327 | every given attribute is stored over the old ones and nothing else changes |
| SfsStore.BucketId | src/rgw/rgw_sal_sfs.h:374-381 | the bucket id is the name, a dot, then the creation time's seconds and nanoseconds in decimal |
| SfsStore.BucketIdTimeInjective | src/rgw/rgw_sal_sfs.h:374-381 | for one name and seconds of the same width, different creation times give different bucket ids |
| SfsStore.LastNamed | src/rgw/rgw_sal_sfs.h:405-417 | the record a rebuild keeps for a name is one with that name, and there is none iff no record has it |
| SfsStore.LastNamedSnoc | src/rgw/rgw_sal_sfs.h:410-416 | one more record replaces its own name's entry and no other |
| SfsStore.SFStore.constructor | src/rgw/rgw_sal_sfs.h:335-337 | a store with no buckets and no records |
| SfsStore.SFStore.BucketExists | src/rgw/rgw_sal_sfs.h:339-347 | true iff the name is in the bucket map |
| SfsStore.SFStore.GetBucketRef | src/rgw/rgw_sal_sfs.h:431-438 | the bucket of the name, or null when there is none |
| SfsStore.SFStore.StoreBucket | src/rgw/rgw_sal_sfs.h:391-392 | the record replaces any with its id; the bucket map is unchanged |
| SfsStore.SFStore.BucketCreate | src/rgw/rgw_sal_sfs.h:349-398 | null and no change for an existing name; otherwise a fresh unversioned bucket under the new id enters the map and its record is stored |
| SfsStore.SFStore.RefreshBuckets | src/rgw/rgw_sal_sfs.h:405-417 | over the table's records as get_buckets lists them (every record, in some order), the map is cleared and rebuilt: exactly the names of the stored records, each holding the last record of its name |
| SfsStore.SFStore.AddBuilt | src/rgw/rgw_sal_sfs.h:410-416 | one record of the rebuild loop keeps the map equal to the rebuild of the records so far |
| SfsStore.SFStore.BucketList | src/rgw/rgw_sal_sfs.h:419-429 | after a rebuild, one bucket per name in ascending name order |
| SfsStore.SFStore.DeleteBucket | src/rgw/driver/sfs/bucket.cc:221 | the name leaves the bucket map and the records are unchanged |
| SfsStore.VisitLeast | src/rgw/rgw_sal_sfs.h:425-427 | visiting the least remaining name continues the ascending order |
| SfsStore.ValuesInOrder | src/rgw/rgw_sal_sfs.h:425-427 | a std::map walk: one value per key, in ascending key order |
| SimpleFileBucketDriver.InitThenAddAborts | src/rgw/driver/simplefile/bucket.cc:32-50 | as written, a fresh bucket's init writes map version 1 without advancing the in-memory version, so the first object added writes version 1 again and hits the assertion |
| SimpleFileBucketDriver.ListedKeys | src/rgw/driver/simplefile/bucket.cc:132-146 | list names every object of the map and nothing else |
| SimpleFileBucketDriver.ListedAscending | src/rgw/driver/simplefile/bucket.cc:132-146 | list's entries come in strictly ascending name order |
| SimpleFileBucketDriver.ListEntries | src/rgw/driver/simplefile/bucket.cc:132-146 | one entry per map key, in ascending key order, each reporting the object's size and mtime |
| SimpleFileBucketDriver.Bucket.constructor | src/rgw/driver/simplefile/bucket.cc:25-30 | a bucket at its path with version 0 and an empty object map |
| SimpleFileBucketDriver.Bucket.BucketMetadataPath | src/rgw/driver/simplefile/bucket.cc:366-369 | the metadata file is the bucket path joined with "_meta.json" |
| SimpleFileBucketDriver.Bucket.ObjectsPath | src/rgw/driver/simplefile/bucket.cc:371-374 | the objects directory is the bucket path joined with "objects" |
| SimpleFileBucketDriver.Bucket.WriteObjectMapAsWritten | src/rgw/driver/simplefile/bucket.cc:72-89 | as written: version+1 and the map are written and linked unless that version's file exists, which aborts; the in-memory version does not move |
| SimpleFileBucketDriver.Bucket.WriteObjectMap | src/rgw/driver/simplefile/bucket.cc:72-89 | corrected: the same write, and the in-memory version advances with it; from a disk with no later version it never aborts and leaves memory and disk in step |
| SimpleFileBucketDriver.Bucket.LoadObjectMap | src/rgw/driver/simplefile/bucket.cc:91-109 | aborts iff the linked map cannot be read; otherwise version and map are those read |
| SimpleFileBucketDriver.Bucket.Init | src/rgw/driver/simplefile/bucket.cc:32-50 | aborts if the metadata file or objects directory exists; otherwise creates both, sets name, placement "default" and class "STANDARD", and writes the map through the corrected WriteObjectMap (version advanced after the write) |
| SimpleFileBucketDriver.Bucket.MaybeAddObject | src/rgw/driver/simplefile/bucket.cc:344-360 | always true; a known name changes nothing; a new name is mapped to its hash and the map written through the corrected WriteObjectMap (version advanced after the write); in step stays in step |
| SimpleFileBucketDriver.Bucket.List | src/rgw/driver/simplefile/bucket.cc:120-150 | aborts (the source's assertion) exactly when some object's data file is missing or not a regular file; otherwise exactly one entry per map entry, in strictly ascending name order, each reporting the object's size and mtime |
| ObjectMapFiles.MapFileName | src/rgw/store/simplefile/bucket_mgr.cc:65 | a map file's name is longer than the link's name |
| ObjectMapFiles.MapFileNames | src/rgw/store/simplefile/bucket_mgr.cc:64-65 | different versions have different map file names, and none is the link's name |
| ObjectMapFiles.WriteVersion | src/rgw/store/simplefile/bucket_mgr.cc:63-74 | the write aborts iff that version's file exists; otherwise the file holds the version and map and the link names it |
| ObjectMapFiles.ReadLinked | src/rgw/store/simplefile/bucket_mgr.cc:81-100 | the map is read iff the link names an existing file, and it is that file's content |
| ObjectMapFiles.WriteNext | src/rgw/store/simplefile/bucket_mgr.cc:63-74 | writing the version after the newest never aborts, keeps every older file and makes the new map the linked one |
| BucketMgrStore.InsertNew | src/rgw/store/simplefile/bucket_mgr.cc:47-51 | std::map::insert of the new objects: a present name keeps its hash and a new one gets its own |
| BucketMgrStore.EraseAll | src/rgw/store/simplefile/bucket_mgr.cc:53-57 | the removed names are gone and every other entry stays |
| BucketMgrStore.NextMap | src/rgw/store/simplefile/bucket_mgr.cc:42-57 | the written map holds the old and added names minus the removed ones, old names keeping their hash |
| BucketMgrStore.RemoveThenReAddAsWritten | src/rgw/store/simplefile/bucket_mgr.cc:53-75 | as written (rm_objects never cleared), add, remove, then add again leaves the name out of the map |
| BucketMgrStore.RemoveThenReAdd | src/rgw/store/simplefile/bucket_mgr.cc:42-76 | with the removal list cleared after each write, the same sequence leaves the name in the map |
| BucketMgrStore.BucketMgr.constructor | src/rgw/store/simplefile/bucket_mgr.h:40-52 | the manager starts with version 0, an empty map and nothing queued; the load it then runs is Load |
| BucketMgrStore.BucketMgr.WriteObjectMapAsWritten | src/rgw/store/simplefile/bucket_mgr.cc:42-76 | as written: version+1 with the merged map is written unless that file exists (abort); memory keeps map and version, the added list is cleared and the removal list kept |
| BucketMgrStore.BucketMgr.WriteObjectMap | src/rgw/store/simplefile/bucket_mgr.cc:42-76 | corrected: the same write, and both queues are cleared after it; from a disk with no later version it never aborts |
| BucketMgrStore.BucketMgr.Load | src/rgw/store/simplefile/bucket_mgr.cc:78-104 | no link changes nothing; an unreadable one aborts; otherwise version and map are those read |
| BucketMgrStore.BucketMgr.Commit | src/rgw/store/simplefile/bucket_mgr.h:56-68 | write then load: from a disk with no later version the manager ends in step with the disk at version+1 holding the merged map, with nothing queued |
| BucketMgrStore.BucketMgr.AddObject | src/rgw/store/simplefile/bucket_mgr.h:56-61 | from a synced, idle manager the map gains the name with its hash at the next version, still synced and idle |
| BucketMgrStore.BucketMgr.RemoveObject | src/rgw/store/simplefile/bucket_mgr.h:63-68 | from a synced, idle manager the map loses the name at the next version, still synced and idle |
| BucketMgrStore.BucketMgr.NewBucket | src/rgw/store/simplefile/bucket_mgr.cc:26-34 | another bucket's name aborts with nothing changed; its own rewrites the same map at the next version |
| BucketMgrStore.BucketMgr.GetObjects | src/rgw/store/simplefile/bucket_mgr.cc:36-40 | a copy of the current map |
| BucketMgrStore.BucketMgr.Size | src/rgw/store/simplefile/bucket_mgr.h:72-74 | the number of objects in the map |
| SfsPaths.BucketsPath | src/rgw/store/simplefile/sfs_paths.cc:24-26 | buckets_path is data_path/"buckets" |
| SfsPaths.UsersPath | src/rgw/store/simplefile/sfs_paths.cc:29-31 | users_path is data_path/"users" |
| SfsPaths.BucketPath | src/rgw/store/simplefile/sfs_paths.cc:34-37 | bucket_path is buckets_path/name |
| SfsPaths.BucketMetadataPath | src/rgw/store/simplefile/sfs_paths.cc:40-43 | a bucket metadata file is bucket_path/metadata_fn |
| SfsPaths.ObjectsPath | src/rgw/store/simplefile/sfs_paths.cc:46-48 | objects_path is bucket_path/"objects" |
| SfsPaths.ObjectPath | src/rgw/store/simplefile/sfs_paths.cc:50-60 | object_path is objects_path/hash(name) |
| SfsPaths.ObjectDataPath | src/rgw/store/simplefile/sfs_paths.cc:63-66 | object_data_path is object_path/"data" |
| SfsPaths.ObjectMetadataPath | src/rgw/store/simplefile/sfs_paths.cc:70-74 | object_metadata_path is object_path/metadata_fn |
| SfsPaths.ObjectPathsDistinct | src/rgw/store/simplefile/sfs_paths.cc:50-60 | objects whose names hash differently get different directories |
| SfsPaths.BucketPathsDistinct | src/rgw/store/simplefile/sfs_paths.cc:34-37 | different bucket names get different directories |
| SfsPaths.DataApartFromMetadata | src/rgw/store/simplefile/sfs_paths.cc:63-74 | an object's metadata file coincides with its data file exactly when the metadata file name is "data" |
| SfsPaths.BucketObjectsPath | src/rgw/store/simplefile/sfs_paths.cc:85-87 | a bucket's own objects_path is its path/"objects" |
| SfsPaths.BucketFilePath | src/rgw/store/simplefile/sfs_paths.cc:78-81 | a bucket's own metadata file is its path/metadata_fn |
| SfsPaths.BucketObjectsAgree | src/rgw/store/simplefile/sfs_paths.cc:34-87 | the store's objects_path and the bucket's own agree for a bucket at bucket_path |
| SimpleFileStorePaths.MetaPath | src/rgw/rgw_sal_simplefile.h:331-333 | meta_path is data_path/"meta" |
| SimpleFileStorePaths.BucketsPath | src/rgw/rgw_sal_simplefile.h:337-339 | buckets_path is data_path/"buckets" |
| SimpleFileStorePaths.UsersPath | src/rgw/rgw_sal_simplefile.h:343-345 | users_path is data_path/"users" |
| SimpleFileStorePaths.TopLevelDistinct | src/rgw/rgw_sal_simplefile.h:331-345 | the meta, buckets and users directories are three different paths |
| SimpleFileStorePaths.BucketPath | src/rgw/rgw_sal_simplefile.h:349-357 | bucket_path is buckets_path/name, a path with a file name |
| SimpleFileStorePaths.BucketMetadataPath | src/rgw/rgw_sal_simplefile.h:361-363 | a bucket's metadata file is bucket_path/"_meta.json" |
| SimpleFileStorePaths.ObjectsPath | src/rgw/rgw_sal_simplefile.h:367-369 | objects_path is bucket_path/"objects" |
| SimpleFileStorePaths.ObjectPath | src/rgw/rgw_sal_simplefile.h:374-389 | object_path is objects_path/name, and an absolute name replaces the whole path |
| SimpleFileStorePaths.ObjectMetadataPath | src/rgw/rgw_sal_simplefile.h:394-400 | an object's metadata file is objects_path/"_meta." + name |
| SimpleFileStorePaths.ObjectPathInjective | src/rgw/rgw_sal_simplefile.h:374-379 | different plain object names give different object paths |
| SimpleFileStorePaths.MetadataSharesNamespace | src/rgw/rgw_sal_simplefile.h:394-400 | the metadata file of n is the object path of the name "_meta." + n, so an object of that name collides with it |
| SimpleFileStorePaths.AbsoluteNameEscapes | src/rgw/rgw_sal_simplefile.h:374-379 | an absolute object name escapes the bucket: the path is the name itself |
| SfsUserConversions.EmptyRow | src/rgw/store/sfs/sqlite/users/users_conversions.cc:51-53 | a row with only the user id set |
| SfsUserConversions.GetRgwUser | src/rgw/store/sfs/sqlite/users/users_conversions.cc:19-49 | the user id is the row's; every other field is the row's column when present and the default otherwise |
| SfsUserConversions.GetDbUserAsWritten | src/rgw/store/sfs/sqlite/users/users_conversions.cc:51-81 | as written: every field goes to its column, and the version goes to a 32-bit int column |
| SfsUserConversions.GetDbUser | src/rgw/store/sfs/sqlite/users/users_conversions.cc:51-81 | corrected: the same row with the version kept in a 64-bit column |
| SfsUserConversions.AbsentColumnsKeepDefaults | src/rgw/store/sfs/sqlite/users/users_conversions.cc:19-49 | a row with no optional column reads as the default user with that id |
| SfsUserConversions.UserRoundTrip | src/rgw/store/sfs/sqlite/users/users_conversions.cc:19-81 | with sound blob codecs, storing a user and reading it back gives the same user |
| SfsUserConversions.VersionLostAsWritten | src/rgw/store/sfs/sqlite/users/users_conversions.cc:45-77 | as written, a user of version 2^31 reads back with a different version |
| SfsUserConversions.SmallVersionSurvivesAsWritten | src/rgw/store/sfs/sqlite/users/users_conversions.cc:19-81 | as written, versions below 2^31 survive the round trip |
| SimpleFileUserConversions.FirstAccessKey | src/rgw/store/simplefile/sqlite/users_conversions.cc:109-111 | the key std::map::begin gives: the one under the least name |
| SimpleFileUserConversions.GetDbUser | src/rgw/store/simplefile/sqlite/users_conversions.cc:102-138 | the SFS row plus two lookup columns, empty when the user has no access key and otherwise the first key's id and secret |
| SimpleFileUserConversions.GetDbUserAsWritten | src/rgw/store/simplefile/sqlite/users_conversions.cc:102-138 | as written: the same lookup columns over the row with the 32-bit version |
| SimpleFileUserConversions.VersionLostAsWritten | src/rgw/store/simplefile/sqlite/users_conversions.cc:96-134 | as written, a user of version 2^31 reads back with a different version |
| SimpleFileUserConversions.GetRgwUser | src/rgw/store/simplefile/sqlite/users_conversions.cc:70-100 | the user id is the row's, the rest read as in the SFS store |
| SimpleFileUserConversions.LookupColumnsIgnored | src/rgw/store/simplefile/sqlite/users_conversions.cc:70-100 | reading a user does not look at the lookup columns |
| SimpleFileUserConversions.UserRoundTrip | src/rgw/store/simplefile/sqlite/users_conversions.cc:70-138 | with sound blob codecs, storing a user and reading it back gives the same user |
| SimpleFileUserConversions.LookupIdIsFirstKey | src/rgw/store/simplefile/sqlite/users_conversions.cc:108-113 | the lookup id column holds the id of the access key under the least name |
| SfsBucketConversions.GetRgwBucket | src/rgw/store/sfs/sqlite/buckets/bucket_conversions.cc:19-37 | name, owner id and deleted flag come from the row (the owner's tenant and namespace stay the default's); every optional column, when present, sets its field (blobs decoded) and otherwise the default stays |
| SfsBucketConversions.GetDbBucket | src/rgw/store/sfs/sqlite/buckets/bucket_conversions.cc:39-57 | name, owner id and deleted go to their columns; an empty tenant is stored as absent; flags, quota, attributes and creation time are stored (blobs encoded) |
| SfsBucketConversions.EmptyRow | src/rgw/store/sfs/sqlite/buckets/bucket_conversions.cc:39-42 | a row with only name, owner and deleted set |
| SfsBucketConversions.AbsentColumnsKeepDefaults | src/rgw/store/sfs/sqlite/buckets/bucket_conversions.cc:19-37 | a row with no optional column reads as the default bucket with that name, owner id and flag |
| SfsBucketConversions.BucketRoundTrip | src/rgw/store/sfs/sqlite/buckets/bucket_conversions.cc:19-57 | with sound codecs and a default whose text fields and owner are empty, storing bucket information whose owner has an empty tenant and namespace and reading it back gives the same information |
| SfsBucketConversions.OwnerTenantAndNamespaceLost | src/rgw/store/sfs/sqlite/buckets/bucket_conversions.cc:24-44 | over empty defaults a bucket reads back with its owner's tenant and namespace empty, so the owner survives exactly when both were empty |
| SfsBucketConversions.EmptyTenantReadsDefault | src/rgw/store/sfs/sqlite/buckets/bucket_conversions.cc:22-43 | an empty tenant is not stored, so it reads back as the default's tenant |
| VersionedObjectConversions.StateValue | src/rgw/store/sfs/sqlite/versioned_object/versioned_object_conversions.cc:26-28 | the numeric values of the object states are 0 to 4 |
| VersionedObjectConversions.GetObjectState | src/rgw/store/sfs/sqlite/versioned_object/versioned_object_conversions.cc:19-24 | a number up to LAST_VALUE is the state with that value; any larger one is refused with "incorrect state found (n)" |
| VersionedObjectConversions.GetUintObjectState | src/rgw/store/sfs/sqlite/versioned_object/versioned_object_conversions.cc:26-28 | a state is stored as its numeric value |
| VersionedObjectConversions.StateRoundTrip | src/rgw/store/sfs/sqlite/versioned_object/versioned_object_conversions.cc:19-28 | storing a state and reading it back gives the state, and every number up to 4 reads back to itself |
| VersionedObjectConversions.ErrorNamesTheNumber | src/rgw/store/sfs/sqlite/versioned_object/versioned_object_conversions.cc:21 | the error message names the offending number, so different numbers give different messages |
| VersionedObjectConversions.GetRgwVersionedObject | src/rgw/store/sfs/sqlite/versioned_object/versioned_object_conversions.cc:30-41 | an out-of-range state is refused with get_object_state's message; otherwise id, parsed UUID, checksum, size, version id and state come from the row and the times are decoded |
| VersionedObjectConversions.GetDbVersionedObject | src/rgw/store/sfs/sqlite/versioned_object/versioned_object_conversions.cc:43-54 | id, checksum, size and version id are copied, the UUID written as text, the times encoded and the state stored as a valid number |
| VersionedObjectConversions.VersionedObjectRoundTrip | src/rgw/store/sfs/sqlite/versioned_object/versioned_object_conversions.cc:30-54 | with a sound time codec, storing a version and reading it back gives the same version |
| VersionedObjectConversions.MalformedUuidReadsNil | src/rgw/store/sfs/sqlite/versioned_object/versioned_object_conversions.cc:33 | a malformed UUID text reads as the nil UUID, not as an error |
| ConversionUtils.BlobRoundTrip | src/rgw/store/sfs/sqlite/conversion_utils.h:18-31 | decode_blob inverts encode_blob |
| ConversionUtils.AssignOptionalValue | src/rgw/store/sfs/sqlite/conversion_utils.h:69-74 | an absent column leaves the field as it was; a present one sets it, decoded when it is a blob |
| ConversionUtils.AssignDbString | src/rgw/store/sfs/sqlite/conversion_utils.h:82-85 | an empty string leaves the column as it was; any other is stored |
| ConversionUtils.AssignDbBlob | src/rgw/store/sfs/sqlite/conversion_utils.h:88-92 | an encodable value is stored as its encoding |
| ConversionUtils.StringFieldRoundTrip | src/rgw/store/sfs/sqlite/conversion_utils.h:69-85 | a string stored and read back over an empty default is the same string, the empty string included |
| ConversionUtils.BlobFieldRoundTrip | src/rgw/store/sfs/sqlite/conversion_utils.h:69-92 | a value stored as a blob and read back is the same value |
| SqliteDbConn.DbConn.constructor | src/rgw/driver/sfs/sqlite/dbconn.cc:11-13 | the connection holds the database's user_version |
| SqliteDbConn.DbConn.CheckMetadataIsCompatible | src/rgw/driver/sfs/sqlite/dbconn.cc:10-33 | version 0 is stamped with the current metadata version; an older one is refused as too old and a newer one as too far ahead, unchanged; the current one passes |
| SqliteDbConn.MetadataGate | src/rgw/driver/sfs/sqlite/dbconn.cc:21-32 | the gate passes exactly versions 0 and current, leaving the current version, and otherwise leaves the version as it was |
| SqliteDbConn.GateIsIdempotent | src/rgw/driver/sfs/sqlite/dbconn.cc:21-32 | a database the gate passed passes it again, unchanged |
| SqliteErrors.CriticalError | src/rgw/driver/sfs/sqlite/errors.cc:19-43 | fatal iff the code is one of the eighteen listed primary codes, all between SQLITE_ERROR and SQLITE_NOTADB |
| SqliteErrors.NonCriticalCodes | src/rgw/driver/sfs/sqlite/errors.cc:40-41 | OK, ABORT, BUSY, LOCKED, INTERRUPT, EMPTY, SCHEMA, CONSTRAINT, FORMAT and codes outside 1..26 are retried |
| SqliteRetry.FirstDecisive | src/rgw/driver/sfs/sqlite/retry.h:59-79 | the attempt that ends the loop: every earlier one failed with a non-critical code, and it succeeded or failed critically, or none did within ten |
| SqliteRetry.RetrySqlite.constructor | src/rgw/driver/sfs/sqlite/retry.h:40-45 | not successful, no retries and no error |
| SqliteRetry.RetrySqlite.Run | src/rgw/driver/sfs/sqlite/retry.h:55-85 | the first success is returned with its retry count and no error; a critical failure is rethrown with its code; ten non-critical failures give no result, not successful, the last error and 9 retries |
| SqliteRetry.SuccessAfterBusy | src/rgw/driver/sfs/sqlite/retry.h:59-79 | a busy attempt followed by a success ends on the second attempt |
| SqliteRetry.AlwaysBusyExhausts | src/rgw/driver/sfs/sqlite/retry.h:59-84 | ten busy attempts exhaust the retries |
| SqliteRetry.CriticalStopsAtOnce | src/rgw/driver/sfs/sqlite/retry.h:67-71 | a critical failure ends the loop on that attempt |

## Left out

**Outside the modelled core**

- Consensus, messaging and subscriptions, including the Paxos proposal and `wait_for_finished_proposal` continuations. The model covers what a handler stages, not how the incremental is proposed.
- CRUSH mapping and placement computation, `PastIntervals`, and erasure-code plugin loading. Where a handler consults CRUSH or a plugin, the answer arrives as a parameter: `crushErr`, `featureErr`, the erasure-code `k`, or the set of OSDs in a CRUSH subtree.
- OSD map encoding, CRC checks, and `OSDMap::apply_incremental`. `OSDMap.h` is not part of this model. The map queries the handlers use (`exists`, `is_up`, `is_in`, `is_destroyed`, `get_max_osd`, pool lookup) are written from the way `OSDMonitor.cc`, `osd_cmds.cc`, `osds.cc` and `pg_cmds.cc` use them.
- Floating-point heuristics: failure grace decay, laggy blending and pool priorities. The ratio gates of `can_mark_down/out/up/in` and the full ratios are compared as rationals, so rounding of `double` is not modelled.
- Cluster log and debug output.
- Command argument parsing (`cmd_getval`) and its failures. Handlers take already-parsed arguments.
- `osd new`. Only `validate_osd_create`, `prepare_command_osd_create` and `do_osd_create` are modelled.
- MD5, SHA-256, random UUID and version-id generation, and the `ceph::encode` blob codec. These are uninterpreted function parameters. `UUIDPath::create` (random generation) is therefore not modelled.
- Real filesystem and SQLite I/O: file bodies, `copy_file_range`, `fsync`, `rename`, directory walks and the `sqlite_orm` schemas. Each store is an in-memory map in a class. Results of system calls (`open`, `mkdir`, `write`, `fstat`, `getxattr`, `read`) arrive as parameters or as answer functions. Failures of `fsync`, and the directory descriptor the writer leaks on one error path, are not modelled.
- The garbage collectors' worker thread and its condition-variable wait. One round is modelled (`SfsGc.SFSGC.WorkerRound`, `StoreSfsGc.SFSGC.WorkerRound`). The wait period and the timing between rounds are not.
- The V2 writer declarations in `writer.h` that no modelled code uses.
- Bucket and object ACLs and policies. The ACL is an opaque blob. The only decoding modelled is the decision, in `SfsBucket.SFSBucket.MergeAndStoreAttrs`, that a supplied ACL attribute replaces the bucket's ACL.
- The `-ENOTSUP` stubs and pass-throughs of the SFS driver: copy, chown, set ACL, transition, `get_multipart_upload`'s meta object and writer, the `store/sfs` `SFSMultipartUpload` stubs (`init`, `write_metadata`, `list_parts`, `abort`, `complete`, `get_info`, `get_writer`). Only `SFSMultipartObject` is modelled from `store/sfs/multipart.cc`.
- `store/sfs/types.cc` `MultipartObject`/`MultipartUpload` abort (lines 89-133). These are not modelled.
- `rgw_sal_sfs.cc`'s `_delete_bucket` is not part of this model. `SfsStore.SFStore.DeleteBucket` states only what its caller in `bucket.cc` relies on: the record is flagged deleted and the map entry goes.
- `RGWFS` pass-throughs with no decision beyond the system call's result are not modelled: `list_buckets_init/next`, `obj_stat`, `put_obj_meta`, `put_obj_data`, `copy_obj`, `delete_bucket`, `delete_obj`, `read`, `finish_get_obj`, `get_bucket_info` and `put_bucket_info`.
- Multipart aggregation (the concatenation of part files into the object's data file) is the `aggregate` parameter of `SfsMultipartUpload.MultipartUpload.Complete`. Its error code is passed through.

**Deliberate narrowings**

- MonitorDBStore.Store.ApplyTransaction: the key-value backend's `submit_transaction_sync` result is the `submitResult` parameter. The model states that a failed submit leaves the store unchanged. The source does not say what RocksDB leaves behind on failure.
- OsdMonitorChecks.CheckPgNum: `pg_num * size` and the running sum are unbounded integers. In the source they are `int`/`uint64_t`, which can overflow for absurd `pg_num` values.
- PoolRules.PreparePoolSet: `pg_num`, `size` and their products are unbounded integers. The source's `u32` fields and `int` products would wrap for values near 2^31.
- PgCommands.PgUpmapCommand: the pg-upmap id list is kept as the command gives it, at 64 bits. In the source (`pg_cmds.cc:421-432`) the CRUSH_ITEM_NONE test and the duplicate search use the `int64_t` id, while `exists` and the stored `int32_t` vector use its conversion to `int`. So for ids outside the int32 range the model does not capture the aliasing: 2^32 + k passes as osd.k, and is stored as k even beside an earlier k. pg-temp, primary-temp and pg-upmap-items do apply the conversion (`OsdTypes.AsInt`).
- PgCommands.PgUpmapCommand: requires `featureErr <= 0`. The feature check it stands for returns 0 or a negative errno.
- OsdLifecycle.PrepareCommandOsdPurge: requires the OSD not to be up. The source asserts this (`ceph_assert`) after the caller's check. It also requires `crushErr <= 0`, which is what the CRUSH removal returns.
- PoolRules.PrepareNewPool: the CRUSH rule smoke test, the erasure-code stripe width, `fast_read`, `pg_num_min`, `target_size_*` and the unsigned width of `pg_num` are not modelled. The validation order and the remaining checks are.
- SfsObject.Iterate: offsets are `Int64` and the length is computed as the source's `uint64_t`. The exact chunk total is stated for ranges up to 2^63. For an inverted range the length wraps, as in the source, and the model states only the wrapped count.
- SfsObject.Read: the `int` return of a read longer than 2^31 bytes is stated modulo 2^32, not as a particular negative number.
- SfsTypes.Object.GetAttr: the attribute's `size_t` length is not bounded, so a length wrap cannot occur in the model.
- UuidPath.ParseUuid: `boost::uuids::string_generator` is modelled for the four forms it accepts: dashed, undashed, braced, and either letter case. A string with an embedded NUL, which the C string API would cut short, is not modelled.
- SqliteMultipart.SQLiteMultipart.CreateOrResetPart: a failing write inside the transaction is the `writeError` parameter. The transaction then rolls back and the model leaves the tables unchanged.
- SqliteMultipart.SQLiteMultipart.ListMultiparts: the `delim` argument is accepted and ignored, as in the source.
- OsdCommands.SetGroup: the source tells OSD ids, crush nodes and device classes apart by looking each name up. Here the targets arrive already resolved, and a name that resolves to nothing is `Unresolved`.
- SfsBucket.SFSBucket.List: `max` and `is_truncated` are ignored, as in the source. The source appends to the caller's `results`; the model returns the entries the call appends.
- SfsBucket.SFSBucket.ListVersions: the same as `List` above.
- SfsBucket.SFSBucket.MergeAttrs: the source erases from the attribute map while range-iterating it (`driver/sfs/bucket.cc:293-300`). That is undefined behaviour in C++. The model computes the merge the loop evidently intends: the result equals the new attributes.
- SfsMultipartUpload.FinalEtag: models the etag of `multipart.cc:310-323`, whose hex buffer has room for the digest, the `-`, the part count and the NUL. `ETagBuilder` in `multipart_types.h:51-77` is not used by any modelled code. Its 32-byte buffer, which `buf_to_hex` overruns by the terminating NUL, is not modelled.
- SfsStore.BucketId: `tv_sec` and `tv_nsec` are printed one after the other without zero padding. So two clock values can give the same id, for example (1, 23) and (12, 3). `SfsStore.BucketIdTimeInjective` proves injectivity only for clock values whose seconds have the same number of digits.
- SfsTypes.Bucket.CreateVersion: `version_id` is a 32-bit unsigned value in `types.h`. Here it is a `nat`, so its wrap-around is not modelled.
- SfsUserConversions.GetDbUser and SimpleFileUserConversions.GetDbUser: the blob codecs for access keys, caps and the other serialised fields are function parameters, assumed to round-trip.
- SfsBucketConversions.GetDbBucket: the same as the user conversions above.
- RgwFs.GetObj: `off_t` offsets are unbounded integers, and `r = len` keeps the whole length where the source narrows it to `int`.
- RgwFs.PrepareGetObj: when `fstat` fails (`rgw_fs.cc:503-505`), the source returns -errno without closing the opened descriptor or freeing the `GetObjState`. The model gives the same -errno but does not model descriptors or memory, so the leak is not captured.
- RgwFs.PrepareGetObj: the stored etag is compared as a whole string, with no NUL truncation. The `lastmod` output is not modelled.
- OsdMapPrune.EncodeManifest: `osdmap_manifest_t::encode` and the `ENCODE_START`/`ENCODE_FINISH` macros are not part of this model. The byte form (version 1, compat 1, a 32-bit payload length, then the pinned set as a 32-bit count and 64-bit pins, little-endian) is Ceph's versioned encoding as assumed here. Nothing in the modelled files fixes it.
- MultipartConversions.MultipartRoundTrip: holds only for an owner whose tenant and namespace are empty. The row stores only the user id and display name, so both are lost, as `MultipartConversions.OwnerTenantAndNamespaceLost` states.
- SfsBucketConversions.BucketRoundTrip: holds only for an owner whose tenant and namespace are empty. The row stores only the owner's id, so both are lost, as `SfsBucketConversions.OwnerTenantAndNamespaceLost` states.
- OsdTypes.OsdStatAdd and OsdTypes.OsdStatSub: the counters are unbounded integers. In the source `kb`, `kb_used` and `kb_avail` are `int64_t` and the two snap-trim counters `int32_t`; their overflow is undefined behaviour in C++ and is not modelled.
- SfsStore.SFStore.RefreshBuckets: `users.get_user(owner)` is dereferenced without a check (`rgw_sal_sfs.h:411-413`), so a record whose owner has no user record is undefined behaviour in the source. The model does not look owners up: every record gives a bucket.
- SfsMultipartUpload.EtagDigest: `part_etag` is an uninitialised stack buffer. For an etag with fewer than 32 hex digits the source hashes whatever bytes `hex_to_buf` did not reach; the model hashes zeros there.
- OsdMapPrune.GetTrimTo: epochs and mon_min_osdmap_epochs are unbounded integers. In the source `floor` is a 32-bit `epoch_t` and `min` an `unsigned`, so `floor + min` wraps modulo 2^32: with mon_min_osdmap_epochs near 2^32 the hold-back test can fail and the trim go ahead. The `(int)` cast of last_committed in the force test, and the narrowing of `last_committed - min` back to `epoch_t`, are not modelled either.

## Findings

| source | as written | input that shows it | evidently intended | confidence | as-written member | corrected member |
|---|---|---|---|---|---|---|
| src/rgw/driver/sfs/writer.cc:114-130 | `close` switches on the return of `::close`, which is -1 on failure, never `-EDQUOT` or `-ENOSPC`. So a failed close always gives `-ERR_INTERNAL_ERROR`. | `::close` fails with errno `ENOSPC` on a full disk | switch on `errno`: `-ERR_QUOTA_EXCEEDED` for `EDQUOT`/`ENOSPC`, `-ERR_INTERNAL_ERROR` otherwise | high; not executed | SfsWriter.CloseErrorAsWritten, SfsWriter.CloseFullDiskAsWritten | SfsWriter.CloseError |
| src/rgw/driver/sfs/sfs_gc.cc:158-160 | the collector looks for a part file at the relative path `MultipartPartPath(...).to_path()`. The writer stores parts under the data path (`multipart.cc:349-350`). The collector's existence check fails and the part file is left behind. | any part of an upload of a deleted bucket, with a data path other than the working directory | look under `store->get_data_path() / to_path()` | medium; not executed | SfsGc.GcPartPathAsWritten, SfsGc.GcPartPathMissesStoredPart | SfsGc.GcPartPath, SfsGc.GcPartPathInjective |
| src/rgw/driver/simplefile/bucket.cc:72-89 | `write_object_map` writes version `object_map_version + 1` but never advances the in-memory version. A second write targets the same file and trips the assertion that it does not exist. | `init` (writes version 1), then `maybe_add_object` of a new name (writes version 1 again) | advance `object_map_version` after each write | high; not executed | SimpleFileBucketDriver.Bucket.WriteObjectMapAsWritten, SimpleFileBucketDriver.InitThenAddAborts | SimpleFileBucketDriver.Bucket.WriteObjectMap |
| src/rgw/store/simplefile/bucket_mgr.cc:53-75 | after a write, `new_objects` is cleared but `rm_objects` is not. A name removed once is erased again from every later map, even after it is added back. | `add_object(x)`, then `remove_object(x)`, then `add_object(x)`: `x` is missing from the map after the last call | clear `rm_objects` together with `new_objects` | medium; not executed | BucketMgrStore.BucketMgr.WriteObjectMapAsWritten, BucketMgrStore.RemoveThenReAddAsWritten | BucketMgrStore.BucketMgr.WriteObjectMap, BucketMgrStore.RemoveThenReAdd |
| src/rgw/store/sfs/sqlite/users/users_conversions.cc:45-77 | the `uint64` object version is stored in an `optional<int>` column (`users_definitions.h:53`), so it is narrowed to 32 bits | a user whose version is 2^31 | a 64-bit column, so that every version round-trips | medium; not executed | SfsUserConversions.GetDbUserAsWritten, SfsUserConversions.VersionLostAsWritten | SfsUserConversions.GetDbUser, SfsUserConversions.UserRoundTrip |
| src/rgw/store/simplefile/sqlite/users_conversions.cc:96-134 | the same narrowing: `UserVersion` is `optional<int>` (`users_definitions.h:42`) | a user whose version is 2^31 | a 64-bit column | medium; not executed | SimpleFileUserConversions.GetDbUserAsWritten, SimpleFileUserConversions.VersionLostAsWritten | SimpleFileUserConversions.GetDbUser, SimpleFileUserConversions.UserRoundTrip |
| src/rgw/rgw_fs.cc:603-606 | `get_obj` reads nothing when `end <= 0`. `prepare_get_obj` gives end 0 for a one-byte object, so that byte is never read. | a one-byte object, read in full (range 0-0) | read nothing only for `end < 0` | high; not executed | RgwFs.GetObjLenAsWritten, RgwFs.OneByteObjectReadsNothing | RgwFs.GetObjLen, RgwFs.PreparedRangeReadInFull |
| src/rgw/rgw_fs.cc:609-627 | the `break` after a failed `read` leaves only the `switch`, not the loop. So any error other than end of file is retried for ever. | a descriptor whose `read` keeps failing with `EIO` | leave the loop and return `-errno` | high; not executed | RgwFs.ReadLoopAsWritten, RgwFs.PersistentErrorNeverEnds | RgwFs.ReadLoop, RgwFs.GetObj |
| src/rgw/rgw_fs.cc:120-121 | the prefix test compares `prefix` with itself, so it always passes and `list_objects` ignores the prefix | prefix "a", directory entry "b" | compare the entry's name with the prefix | high; not executed | RgwFs.PrefixIgnored | RgwFs.Admit |
| src/rgw/rgw_fs.cc:366-418 | `get_attr` counts only a positive length as success. An empty attribute makes `getxattr` return 0, which is read as failure with a stale `errno`. When that errno is `ERANGE`, the buffer is doubled for ever. | an attribute stored with an empty value, `errno` left at `ERANGE` by an earlier call | treat a zero length as an empty value | medium; not executed | RgwFs.GetAttr | RgwFs.GetAttrIntended |
| src/rgw/driver/sfs/bucket.cc:273-273 | `check_empty` asks `list_last_versioned_objects` for the bucket's name. `get_all` (`types.cc:293`) asks the same query for `info.bucket.bucket_id`, and a bucket's id is its name, a dot and its creation time (`rgw_sal_sfs.h:379-381`), never the name itself. So the check finds none of the bucket's objects. | a bucket holding one object whose last version is regular, removed without `delete_children` | look the last versions up under the bucket's id | medium; not executed (the query itself is not part of this model) | SfsBucket.SFSBucket.CheckEmptyAsWritten, SfsBucket.CheckEmptyByNameMissesObjects | SfsBucket.SFSBucket.CheckEmptyById |
