/**
 * BucketMgr (store/simplefile/bucket_mgr.cc, bucket_mgr.h): the object map
 * of one bucket of the older simplefile store, with the objects added and
 * removed since the last write.
 */
module BucketMgrStore {
  import opened Wrappers
  import opened ObjectMapFiles

  /** Inserting each name in turn, never overwriting an existing entry
    * (std::map::insert). */
  function InsertNew(m: map<string, string>, names: seq<string>, hash: string -> string)
    : (r: map<string, string>)
    ensures forall k :: k in r <==> k in m || k in names
    ensures forall k :: k in m ==> r[k] == m[k]
    ensures forall k :: k in r && k !in m ==> r[k] == hash(k)
    decreases |names|
  {
    if |names| == 0 then m
    else
      var n := names[0];
      InsertNew(if n in m then m else m[n := hash(n)], names[1..], hash)
  }

  /** Erasing each name (std::map::erase by key). */
  function EraseAll(m: map<string, string>, names: seq<string>): (r: map<string, string>)
    ensures forall k :: k in r <==> k in m && k !in names
    ensures forall k :: k in r ==> r[k] == m[k]
  {
    map k | k in m && k !in names :: m[k]
  }

  /** The map write_object_map stores: the old map, plus the new objects, minus the removed ones. */
  function NextMap(m: map<string, string>, added: seq<string>, removed: seq<string>, hash: string -> string)
    : (r: map<string, string>)
    ensures forall k :: k in r <==> (k in m || k in added) && k !in removed
    ensures forall k :: k in r && k in m ==> r[k] == m[k]
    ensures forall k :: k in r && k !in m ==> r[k] == hash(k)
  {
    EraseAll(InsertNew(m, added, hash), removed)
  }

  /**
   * The removal list is never emptied as written: after add(a), remove(a)
   * and add(a) again, the third write still erases a.
   */
  lemma RemoveThenReAddAsWritten(m: map<string, string>, a: string, hash: string -> string)
    ensures var afterAdd := NextMap(m, [a], [], hash);
      var afterRemove := NextMap(afterAdd, [], [a], hash);
      a in afterAdd && a !in afterRemove && a !in NextMap(afterRemove, [a], [a], hash)
  {
  }

  /** With the removal list emptied after each write, the same sequence leaves a in the map. */
  lemma RemoveThenReAdd(m: map<string, string>, a: string, hash: string -> string)
    ensures var afterAdd := NextMap(m, [a], [], hash);
      var afterRemove := NextMap(afterAdd, [], [a], hash);
      a in afterAdd && a !in afterRemove && a in NextMap(afterRemove, [a], [], hash)
  {
  }

  class BucketMgr {
    const bucketName: string
    /** hash_rgw_obj_key: the SHA-256 of an object name, supplied by the store. */
    const hash: string -> string
    var newObjects: seq<string>
    var rmObjects: seq<string>
    var objectsMap: map<string, string>
    var objectMapVersion: nat
    /** The object-map files and link in the bucket directory. */
    var disk: Disk

    /** The field initialisation of the constructor; its call to
      * load_object_map is Load. */
    constructor (name: string, h: string -> string, disk0: Disk)
      ensures bucketName == name && hash == h && disk == disk0
      ensures newObjects == [] && rmObjects == []
      ensures objectsMap == map[] && objectMapVersion == 0
    {
      bucketName := name;
      hash := h;
      disk := disk0;
      newObjects := [];
      rmObjects := [];
      objectsMap := map[];
      objectMapVersion := 0;
    }

    /** The in-memory map is the linked file and no newer file exists. */
    predicate Synced()
      reads this
    {
      ReadLinked(disk) == Some(MapImage(objectMapVersion, objectsMap)) && NoneAfter(disk, objectMapVersion)
    }

    /** Nothing is waiting to be written. */
    predicate Idle()
      reads this
    {
      newObjects == [] && rmObjects == []
    }

    /**
     * write_object_map as the source has it: the in-memory map and version
     * stay as they are and only the added objects are forgotten.
     */
    method WriteObjectMapAsWritten() returns (aborted: bool)
      modifies this
      ensures var next := NextMap(old(objectsMap), old(newObjects), old(rmObjects), hash);
        var w := WriteVersion(old(disk), old(objectMapVersion) + 1, next);
        aborted == w.None? && disk == (if w.Some? then w.value else old(disk))
      ensures objectsMap == old(objectsMap) && objectMapVersion == old(objectMapVersion)
      ensures newObjects == if aborted then old(newObjects) else []
      ensures rmObjects == old(rmObjects)
    {
      var next := NextMap(objectsMap, newObjects, rmObjects, hash);
      var w := WriteVersion(disk, objectMapVersion + 1, next);
      if w.None? {
        return true;
      }
      disk := w.value;
      newObjects := [];
      aborted := false;
    }

    /**
     * write_object_map as corrected: both pending lists emptied once
     * written (WriteObjectMapAsWritten forgets only the added objects).
     */
    method WriteObjectMap() returns (aborted: bool)
      modifies this
      ensures var next := NextMap(old(objectsMap), old(newObjects), old(rmObjects), hash);
        var w := WriteVersion(old(disk), old(objectMapVersion) + 1, next);
        aborted == w.None? && disk == (if w.Some? then w.value else old(disk))
      ensures objectsMap == old(objectsMap) && objectMapVersion == old(objectMapVersion)
      ensures aborted ==> newObjects == old(newObjects) && rmObjects == old(rmObjects)
      ensures !aborted ==> Idle()
      ensures NoneAfter(old(disk), old(objectMapVersion)) ==> !aborted
    {
      var next := NextMap(objectsMap, newObjects, rmObjects, hash);
      var w := WriteVersion(disk, objectMapVersion + 1, next);
      if w.None? {
        return true;
      }
      disk := w.value;
      newObjects := [];
      rmObjects := [];
      aborted := false;
    }

    /**
     * load_object_map: nothing happens without a link; a link to a missing
     * file aborts; otherwise the version and map are restored.
     */
    method Load() returns (aborted: bool)
      modifies this
      ensures aborted <==> disk.link.Some? && ReadLinked(disk).None?
      ensures ReadLinked(disk).Some? ==>
        objectMapVersion == ReadLinked(disk).value.version && objectsMap == ReadLinked(disk).value.objects
      ensures ReadLinked(disk).None? ==> objectMapVersion == old(objectMapVersion) && objectsMap == old(objectsMap)
      ensures disk == old(disk) && newObjects == old(newObjects) && rmObjects == old(rmObjects)
    {
      if disk.link.None? {
        return false;
      }
      var image := ReadLinked(disk);
      if image.None? {
        return true;
      }
      objectMapVersion := image.value.version;
      objectsMap := image.value.objects;
      aborted := false;
    }

    /** Write then load, as add_object, remove_object and new_bucket do. */
    method Commit() returns (aborted: bool)
      modifies this
      ensures var next := NextMap(old(objectsMap), old(newObjects), old(rmObjects), hash);
        NoneAfter(old(disk), old(objectMapVersion)) ==>
          !aborted && Idle() && Synced()
          && objectMapVersion == old(objectMapVersion) + 1 && objectsMap == next
    {
      var d0 := disk;
      var v0 := objectMapVersion;
      var next := NextMap(objectsMap, newObjects, rmObjects, hash);
      aborted := WriteObjectMap();
      if aborted {
        return;
      }
      if NoneAfter(d0, v0) {
        WriteNext(d0, v0, next);
      }
      aborted := Load();
    }

    /** add_object: queue the object and commit; the map then holds it. */
    method AddObject(name: string) returns (aborted: bool)
      modifies this
      ensures old(Synced()) && old(Idle()) ==>
        !aborted && Synced() && Idle()
        && objectsMap == InsertNew(old(objectsMap), [name], hash)
        && objectMapVersion == old(objectMapVersion) + 1
    {
      newObjects := newObjects + [name];
      aborted := Commit();
    }

    /** remove_object: queue the removal and commit; the map then lacks it. */
    method RemoveObject(name: string) returns (aborted: bool)
      modifies this
      ensures old(Synced()) && old(Idle()) ==>
        !aborted && Synced() && Idle()
        && objectsMap == EraseAll(old(objectsMap), [name])
        && objectMapVersion == old(objectMapVersion) + 1
    {
      rmObjects := rmObjects + [name];
      aborted := Commit();
    }

    /** new_bucket: the bucket must be this manager's (assertion), then commit. */
    method NewBucket(name: string) returns (aborted: bool)
      modifies this
      ensures name != bucketName ==> aborted && disk == old(disk) && objectsMap == old(objectsMap)
      ensures name == bucketName && old(Synced()) && old(Idle()) ==>
        !aborted && Synced() && objectsMap == old(objectsMap)
        && objectMapVersion == old(objectMapVersion) + 1
    {
      if name != bucketName {
        return true;
      }
      aborted := Commit();
    }

    /** get_objects: the current map, as a value the caller owns. */
    method GetObjects() returns (r: map<string, string>)
      ensures r == objectsMap
    {
      r := objectsMap;
    }

    function Size(): (n: nat)
      reads this
      ensures n == |objectsMap.Keys|
    {
      |objectsMap|
    }
  }
}
