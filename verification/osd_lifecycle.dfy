/**
 * Creating, destroying, purging and removing OSDs (src/mon/osd/osds.cc):
 * the validation of an id/uuid pair, the choice of the id a new OSD gets,
 * and the pending state each command stages.
 */
module OsdLifecycle {
  import opened Wrappers
  import opened Collections
  import opened OsdMapModel
  import OsdMonitorChecks

  /** The OSD `i` exists in the committed map and carries uuid `u`. */
  predicate HasUuid(m: OsdMap, i: int, u: Uuid)
  {
    Exists(m, i) && GetUuid(m, i) == u
  }

  /** OSDMap::identify_osd searching from `i`: the lowest id at or above
   *  `i` with that uuid, or -1. */
  function IdentifyFrom(m: OsdMap, u: Uuid, i: nat): (r: int)
    ensures r == -1 || (i <= r && HasUuid(m, r, u))
    ensures r == -1 <==> forall j :: i <= j ==> !HasUuid(m, j, u)
    ensures r >= 0 ==> forall j :: i <= j < r ==> !HasUuid(m, j, u)
    decreases m.maxOsd - i
  {
    if i >= m.maxOsd then -1
    else if HasUuid(m, i, u) then i
    else IdentifyFrom(m, u, i + 1)
  }

  /** OSDMap::identify_osd: the lowest existing OSD with that uuid, or -1. */
  function IdentifyOsd(m: OsdMap, u: Uuid): (r: int)
    ensures r == -1 <==> !UuidIn(m, u)
    ensures r >= 0 ==> HasUuid(m, r, u) && forall j :: 0 <= j < r ==> !HasUuid(m, j, u)
    ensures r >= -1
  {
    var r := IdentifyFrom(m, u, 0);
    assert r == -1 ==> !UuidIn(m, u) by {
      if r == -1 && UuidIn(m, u) {
        var i :| 0 <= i < m.maxOsd && Exists(m, i) && GetUuid(m, i) == u;
        assert HasUuid(m, i, u);
      }
    }
    r
  }

  /** Incremental::identify_osd finds the uuid among the pending ones. */
  predicate PendingUuid(inc: Incremental, u: Uuid)
  {
    exists o :: o in inc.newUuid && o >= 0 && inc.newUuid[o] == u
  }

  /**
   * validate_osd_create.  The second component is what the call leaves in
   * `existing_id`: -1 when there is nothing to validate, the OSD already
   * carrying the uuid for the positive EEXIST that marks an idempotent
   * request, and untouched (None) otherwise.
   */
  function ValidateOsdCreate(m: OsdMap, inc: Incremental, id: int, uuid: Uuid, checkExists: bool)
    : (r: (int, Option<int>))
    ensures r.0 in {0, EEXIST, -EEXIST, -EAGAIN, -EINVAL}
    ensures id < 0 && uuid == NIL_UUID ==> r == (0, Some(-1))
    ensures id >= 0 && uuid == NIL_UUID ==> r == (0, None)
    ensures uuid != NIL_UUID && PendingUuid(inc, uuid) ==> r.0 == -EAGAIN
    ensures r.0 == EEXIST ==> r.1.Some? && HasUuid(m, r.1.value, uuid) && (id >= 0 ==> id == r.1.value)
    ensures r.0 == -EEXIST ==> id >= 0 && UuidIn(m, uuid) && IdentifyOsd(m, uuid) != id
    ensures r.0 == 0 && uuid != NIL_UUID ==>
              !UuidIn(m, uuid) && !PendingUuid(inc, uuid)
              && (id >= 0 ==> id !in inc.newState && (checkExists ==> !Exists(m, id)))
    ensures r.0 == -EINVAL ==> checkExists && Exists(m, id)
  {
    if id < 0 && uuid == NIL_UUID then (0, Some(-1))
    else if uuid == NIL_UUID then (0, None)
    else if PendingUuid(inc, uuid) then (-EAGAIN, None)
    else
      var i := IdentifyOsd(m, uuid);
      if i >= 0 then
        if id >= 0 && i != id then (-EEXIST, None) else (EEXIST, Some(i))
      else if id >= 0 && id in inc.newState then (-EAGAIN, None)
      else if id >= 0 && checkExists && Exists(m, id) then (-EINVAL, None)
      else (0, None)
  }

  /** A uuid already used by the OSD the request names makes the request a
   *  repeat: validation answers the positive EEXIST with that OSD. */
  lemma RepeatedCreateIsIdempotent(m: OsdMap, inc: Incremental, id: int, uuid: Uuid, checkExists: bool)
    requires uuid != NIL_UUID && !PendingUuid(inc, uuid)
    requires HasUuid(m, id, uuid)
    requires forall j :: 0 <= j < id ==> !HasUuid(m, j, uuid)
    ensures ValidateOsdCreate(m, inc, id, uuid, checkExists) == (EEXIST, Some(id))
  {
    assert UuidIn(m, uuid);
  }

  /** prepare_command_osd_create: a destroyed id must be recreated with
   *  `osd new`; everything else is validate_osd_create with the existence
   *  check on. */
  function PrepareCommandOsdCreate(m: OsdMap, inc: Incremental, id: int, uuid: Uuid): (r: (int, Option<int>))
    ensures IsDestroyed(m, id) ==> r == (-EINVAL, None)
    ensures !IsDestroyed(m, id) ==> r == ValidateOsdCreate(m, inc, id, uuid, true)
  {
    if IsDestroyed(m, id) then (-EINVAL, None)
    else ValidateOsdCreate(m, inc, id, uuid, true)
  }

  /**
   * do_osd_create: a known uuid keeps its id, a new uuid with an id takes
   * that id, and otherwise the allocator's lowest free slot is reused
   * (staged with weight OUT) or max_osd grows by one.  Then max_osd is
   * raised to cover the id, EXISTS|NEW is or-ed into the pending state and
   * a non-zero uuid is recorded.  The device class goes to the crush map,
   * which is not part of this model.
   */
  method DoOsdCreate(mon: OsdMonitor, id: int, uuid: Uuid) returns (newId: int)
    requires mon.osdmap.maxOsd >= 0
    modifies mon
    ensures newId >= 0
    ensures uuid != NIL_UUID && UuidIn(old(mon.osdmap), uuid) ==> newId == IdentifyOsd(old(mon.osdmap), uuid)
    ensures uuid != NIL_UUID && !UuidIn(old(mon.osdmap), uuid) && id >= 0 ==> newId == id
    ensures (uuid == NIL_UUID || (!UuidIn(old(mon.osdmap), uuid) && id < 0)) ==>
              (newId < old(mon.osdmap.maxOsd) && OsdMonitorChecks.FreeSlot(old(mon.osdmap), old(mon.pending), newId)
               && mon.pending.newWeight == old(mon.pending.newWeight)[newId := OSD_OUT])
              || (newId == (if old(mon.pending.newMaxOsd) < 0 then old(mon.osdmap.maxOsd) else old(mon.pending.newMaxOsd))
                  && mon.pending.newWeight == old(mon.pending.newWeight))
    ensures mon.osdmap.maxOsd > newId || mon.pending.newMaxOsd > newId
    ensures mon.pending.newState == old(mon.pending.newState)[newId := GetOr(old(mon.pending.newState), newId, {}) + {EXISTS, NEW}]
    ensures mon.pending.newUuid == if uuid != NIL_UUID then old(mon.pending.newUuid)[newId := uuid] else old(mon.pending.newUuid)
    ensures mon.pending == old(mon.pending).(newMaxOsd := mon.pending.newMaxOsd, newState := mon.pending.newState,
                                             newUuid := mon.pending.newUuid, newWeight := mon.pending.newWeight)
    ensures mon.pending.newMaxOsd == old(mon.pending.newMaxOsd) || mon.pending.newMaxOsd > newId
    ensures mon.osdmap == old(mon.osdmap) && mon.pendingMetadata == old(mon.pendingMetadata)
    ensures mon.pendingMetadataRm == old(mon.pendingMetadataRm)
  {
    var m := mon.osdmap;
    var chosen := false;
    newId := -1;
    if uuid != NIL_UUID {
      var known := IdentifyOsd(m, uuid);
      if known >= 0 {
        newId := known;
        chosen := true;
      } else if id >= 0 {
        newId := id;
        chosen := true;
      }
    }
    if !chosen {
      var allocatedId, existingId := OsdMonitorChecks.AllocateOsdId(mon);
      if existingId >= 0 {
        mon.pending := mon.pending.(newWeight := mon.pending.newWeight[existingId := OSD_OUT]);
        newId := existingId;
      } else {
        if mon.pending.newMaxOsd < 0 {
          mon.pending := mon.pending.(newMaxOsd := m.maxOsd + 1);
        } else {
          mon.pending := mon.pending.(newMaxOsd := mon.pending.newMaxOsd + 1);
        }
        newId := mon.pending.newMaxOsd - 1;
      }
    }
    if m.maxOsd <= newId && mon.pending.newMaxOsd <= newId {
      mon.pending := mon.pending.(newMaxOsd := newId + 1);
    }
    var st := GetOr(mon.pending.newState, newId, {});
    mon.pending := mon.pending.(newState := mon.pending.newState[newId := st + {EXISTS, NEW}]);
    if uuid != NIL_UUID {
      mon.pending := mon.pending.(newUuid := mon.pending.newUuid[newId := uuid]);
    }
  }

  /** A slot that held no OSD and had no EXISTS toggle pending exists (and
   *  is new) once the creation's toggles apply. */
  lemma CreatedOsdExists(m: OsdMap, inc: Incremental, newId: int)
    requires EXISTS !in GetState(m, newId) && NEW !in GetState(m, newId)
    requires newId !in inc.newState || (EXISTS !in inc.newState[newId] && NEW !in inc.newState[newId])
    ensures var inc2 := inc.(newState := inc.newState[newId := GetOr(inc.newState, newId, {}) + {EXISTS, NEW}]);
            EXISTS in ProjectedState(m, inc2, newId) && NEW in ProjectedState(m, inc2, newId)
  {
  }

  /**
   * prepare_command_osd_destroy: -ENOENT for a missing OSD, 0 with nothing
   * staged for one already destroyed; otherwise (unless the auth check,
   * `authErr`, fails with something other than -ENOENT) the pending state
   * is set to toggle DESTROYED and the uuid is zeroed.
   */
  method PrepareCommandOsdDestroy(mon: OsdMonitor, id: int, authErr: int) returns (r: int)
    modifies mon
    ensures !Exists(old(mon.osdmap), id) ==> r == -ENOENT && unchanged(mon)
    ensures IsDestroyed(old(mon.osdmap), id) ==> r == 0 && unchanged(mon)
    ensures Exists(old(mon.osdmap), id) && !IsDestroyed(old(mon.osdmap), id) && authErr < 0 && authErr != -ENOENT ==>
              r == authErr && unchanged(mon)
    ensures Exists(old(mon.osdmap), id) && !IsDestroyed(old(mon.osdmap), id) && (authErr >= 0 || authErr == -ENOENT) ==>
              r == 0 && mon.pending == old(mon.pending).(newState := old(mon.pending.newState)[id := {DESTROYED}],
                                                       newUuid := old(mon.pending.newUuid)[id := NIL_UUID])
    ensures mon.osdmap == old(mon.osdmap) && mon.pendingMetadata == old(mon.pendingMetadata)
    ensures mon.pendingMetadataRm == old(mon.pendingMetadataRm)
  {
    var m := mon.osdmap;
    if !Exists(m, id) {
      return -ENOENT;
    }
    if IsDestroyed(m, id) {
      return 0;
    }
    if authErr < 0 && authErr != -ENOENT {
      return authErr;
    }
    mon.pending := mon.pending.(newState := mon.pending.newState[id := {DESTROYED}],
                                newUuid := mon.pending.newUuid[id := NIL_UUID]);
    return 0;
  }

  /** A destroyed OSD keeps existing, now marked destroyed. */
  lemma DestroyKeepsOsd(m: OsdMap, inc: Incremental, id: int)
    requires Exists(m, id) && !IsDestroyed(m, id)
    ensures var inc2 := inc.(newState := inc.newState[id := {DESTROYED}]);
            ProjectedState(m, inc2, id) == GetState(m, id) + {DESTROYED}
  {
    var inc2 := inc.(newState := inc.newState[id := {DESTROYED}]);
    assert ProjectedState(m, inc2, id) == Xor(GetState(m, id), {DESTROYED});
  }

  /**
   * prepare_command_osd_remove: an up OSD is -EBUSY; otherwise its whole
   * state is toggled off, its uuid zeroed and its metadata scheduled for
   * removal.
   */
  method PrepareCommandOsdRemove(mon: OsdMonitor, id: int) returns (r: int)
    modifies mon
    ensures IsUp(old(mon.osdmap), id) ==> r == -EBUSY && unchanged(mon)
    ensures !IsUp(old(mon.osdmap), id) ==>
              r == 0
              && mon.pending == old(mon.pending).(newState := old(mon.pending.newState)[id := GetState(old(mon.osdmap), id)],
                                                  newUuid := old(mon.pending.newUuid)[id := NIL_UUID])
              && mon.pendingMetadataRm == old(mon.pendingMetadataRm) + {id}
              && mon.pendingMetadata == old(mon.pendingMetadata) - {id}
    ensures mon.osdmap == old(mon.osdmap)
  {
    var m := mon.osdmap;
    if IsUp(m, id) {
      return -EBUSY;
    }
    mon.pending := mon.pending.(newState := mon.pending.newState[id := GetState(m, id)],
                                newUuid := mon.pending.newUuid[id := NIL_UUID]);
    mon.pendingMetadataRm := mon.pendingMetadataRm + {id};
    mon.pendingMetadata := mon.pendingMetadata - {id};
    return 0;
  }

  /** Toggling an OSD's whole state leaves nothing: a removed OSD no longer
   *  exists once the incremental applies. */
  lemma RemoveClearsState(m: OsdMap, inc: Incremental, id: int)
    ensures var inc2 := inc.(newState := inc.newState[id := GetState(m, id)]);
            ProjectedState(m, inc2, id) == {}
  {
    var inc2 := inc.(newState := inc.newState[id := GetState(m, id)]);
    assert ProjectedState(m, inc2, id) == Xor(GetState(m, id), GetState(m, id));
  }

  /**
   * prepare_command_osd_purge on an OSD that is not up: the crush removal
   * (`crushErr`, -ENOENT meaning already gone) and the destroy step may
   * fail the command; an OSD that is already gone everywhere answers
   * -ENOENT; otherwise the OSD is removed.
   */
  method PrepareCommandOsdPurge(mon: OsdMonitor, id: int, crushErr: int, authErr: int) returns (r: int)
    requires !IsUp(mon.osdmap, id)
    requires crushErr <= 0
    modifies mon
    ensures crushErr < 0 && crushErr != -ENOENT ==> r == crushErr && unchanged(mon)
    ensures r == 0 ==> mon.pending.newState == old(mon.pending.newState)[id := GetState(old(mon.osdmap), id)]
                       && mon.pending.newUuid == old(mon.pending.newUuid)[id := NIL_UUID]
                       && mon.pendingMetadataRm == old(mon.pendingMetadataRm) + {id}
                       && mon.pendingMetadata == old(mon.pendingMetadata) - {id}
    ensures crushErr == 0 || crushErr == -ENOENT ==>
              (r == 0 <==> ((crushErr == 0 || Exists(old(mon.osdmap), id))
                            && !(Exists(old(mon.osdmap), id) && !IsDestroyed(old(mon.osdmap), id)
                                 && authErr < 0 && authErr != -ENOENT)))
    ensures r == -ENOENT ==> crushErr == -ENOENT && !Exists(old(mon.osdmap), id) && unchanged(mon)
    ensures mon.osdmap == old(mon.osdmap)
  {
    var m := mon.osdmap;
    var mayBeIdempotent := false;
    if crushErr == -ENOENT {
      mayBeIdempotent := true;
    } else if crushErr < 0 {
      return crushErr;
    }
    if !IsDestroyed(m, id) {
      var e := PrepareCommandOsdDestroy(mon, id, authErr);
      if e < 0 {
        if e != -ENOENT {
          return e;
        }
      } else {
        mayBeIdempotent := false;
      }
    }
    if mayBeIdempotent && !Exists(m, id) {
      return -ENOENT;
    }
    r := PrepareCommandOsdRemove(mon, id);
  }

  /** A purged OSD no longer exists once the incremental applies. */
  lemma PurgeLeavesNoOsd(m: OsdMap, inc: Incremental, id: int)
    requires id in inc.newState && inc.newState[id] == GetState(m, id)
    ensures !(EXISTS in ProjectedState(m, inc, id))
  {
    assert ProjectedState(m, inc, id) == Xor(GetState(m, id), GetState(m, id));
  }
}
