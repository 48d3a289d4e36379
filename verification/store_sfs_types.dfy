/**
 * Objects and buckets of the older SFS store (store/sfs/types.cc): the
 * in-memory object map of a bucket, the object's metadata rows, and the
 * delete / undelete dispatch on an object's last version.
 *
 * The metadata database is a class holding the object table (by UUID) and
 * the versioned-object table (by row id, ids handed out in increasing
 * order). The store's SQLite layer in this repository does not declare the
 * calls the code makes (get_last_versioned_object, insert_versioned_object):
 * here "last" is the object's row with the highest id, and inserting gives
 * the next id. UUID and version-id generation and the clock are parameters.
 */
module StoreSfsTypes {
  import opened Wrappers
  import opened ConversionUtils
  import Decimal
  import UuidPath
  import SfsTypes
  import opened VOC = VersionedObjectConversions

  type Attrs = map<string, Blob>

  /** rgw_obj_key: the object's name and the requested instance (version id). */
  datatype ObjKey = ObjKey(name: string, instance: string)

  /** Object::Meta. */
  datatype Meta = Meta(size: nat, etag: string, mtime: int, setMtime: int, deleteAt: int, attrs: Attrs)

  const EMPTY_META := Meta(0, "", 0, 0, 0, map[])

  /** DBOPObjectInfo: the object row. */
  datatype ObjectRow = ObjectRow(uuid: UuidPath.Uuid, bucketId: string, name: string, meta: Meta)

  /** DBOPVersionedObjectInfo: one version row. */
  datatype VersionRow = VersionRow(
    id: nat, objectId: UuidPath.Uuid, versionId: string, state: ObjectState,
    deletionTime: int, size: nat, creationTime: int, etag: string)

  /** The highest row id below n that belongs to the object. */
  function LastBelow(versions: map<nat, VersionRow>, u: UuidPath.Uuid, n: nat): (r: Option<nat>)
    ensures r.Some? ==> r.value < n && r.value in versions && versions[r.value].objectId == u
    ensures r.Some? ==> forall id :: r.value < id < n && id in versions ==> versions[id].objectId != u
    ensures r.None? ==> forall id :: id < n && id in versions ==> versions[id].objectId != u
  {
    if n == 0 then None
    else if n - 1 in versions && versions[n - 1].objectId == u then Some(n - 1)
    else LastBelow(versions, u, n - 1)
  }

  /** get_last_versioned_object: the object's row with the highest id, if any. */
  function LastOf(versions: map<nat, VersionRow>, nextId: nat, u: UuidPath.Uuid): (r: Option<VersionRow>)
    ensures r.Some? ==> r.value in versions.Values && r.value.objectId == u
    ensures r.None? ==> forall id :: id < nextId && id in versions ==> versions[id].objectId != u
  {
    match LastBelow(versions, u, nextId)
    case None => None
    case Some(id) => Some(versions[id])
  }

  /** Every row is stored under its own id, and every id is below the next one to hand out. */
  predicate TableValid(versions: map<nat, VersionRow>, nextId: nat)
  {
    forall id :: id in versions ==> id < nextId && versions[id].id == id
  }

  /** In a valid table, the last row has the highest id of all the object's rows. */
  lemma LastIsHighest(versions: map<nat, VersionRow>, nextId: nat, u: UuidPath.Uuid, id: nat)
    requires TableValid(versions, nextId)
    requires id in versions && versions[id].objectId == u
    ensures LastOf(versions, nextId, u).Some?
    ensures LastOf(versions, nextId, u).value.id >= id
  {
  }

  /** A row stored over the last row, for the same object, stays the last row. */
  lemma {:induction false} StoreKeepsLast(versions: map<nat, VersionRow>, u: UuidPath.Uuid, n: nat, row: VersionRow)
    requires LastBelow(versions, u, n) == Some(row.id) && row.objectId == u
    ensures LastBelow(versions[row.id := row], u, n) == Some(row.id)
  {
    if n - 1 != row.id {
      StoreKeepsLast(versions, u, n - 1, row);
    }
  }

  /** A row inserted at the next id, for the object, becomes its last row. */
  lemma InsertBecomesLast(versions: map<nat, VersionRow>, u: UuidPath.Uuid, nextId: nat, row: VersionRow)
    requires row.objectId == u
    ensures LastBelow(versions[nextId := row], u, nextId + 1) == Some(nextId)
  {
  }

  /** Removing the last row makes the object's previous row (the highest one below it) the last. */
  lemma {:induction false} RemoveLastGivesPrevious(versions: map<nat, VersionRow>, u: UuidPath.Uuid, n: nat, k: nat)
    requires LastBelow(versions, u, n) == Some(k)
    ensures LastBelow(versions - {k}, u, n) == LastBelow(versions, u, k)
  {
    if n - 1 != k {
      RemoveLastGivesPrevious(versions, u, n - 1, k);
    } else {
      BelowAgrees(versions, k, u, k);
    }
  }

  /** Below k, removing row k changes nothing. */
  lemma {:induction false} BelowAgrees(versions: map<nat, VersionRow>, k: nat, u: UuidPath.Uuid, n: nat)
    requires n <= k
    ensures LastBelow(versions - {k}, u, n) == LastBelow(versions, u, n)
  {
    if n > 0 {
      BelowAgrees(versions, k, u, n - 1);
    }
  }

  /** The metadata database: the object table and the versioned-object table. */
  class MetadataDb {
    var objects: map<UuidPath.Uuid, ObjectRow>
    var versions: map<nat, VersionRow>
    var nextId: nat

    /** Rows are stored under their own keys, and version ids stay below the next one. */
    predicate Valid()
      reads this
    {
      && TableValid(versions, nextId)
      && forall u :: u in objects ==> objects[u].uuid == u
    }

    /** An empty database; SQLite hands out row ids from 1. */
    constructor ()
      ensures objects == map[] && versions == map[] && nextId == 1 && Valid()
    {
      objects := map[];
      versions := map[];
      nextId := 1;
    }

    function LastVersion(u: UuidPath.Uuid): (r: Option<VersionRow>)
      reads this
      ensures r == LastOf(versions, nextId, u)
    {
      LastOf(versions, nextId, u)
    }

    /** store_object: the row replaces any with the same UUID. */
    method StoreObject(row: ObjectRow)
      modifies this
      ensures objects == old(objects)[row.uuid := row]
      ensures versions == old(versions) && nextId == old(nextId)
      ensures old(Valid()) ==> Valid()
    {
      objects := objects[row.uuid := row];
    }

    /** insert_versioned_object: a new row under the next id, which is returned. */
    method InsertVersion(row: VersionRow) returns (id: nat)
      modifies this
      ensures id == old(nextId) && nextId == old(nextId) + 1
      ensures versions == old(versions)[id := row.(id := id)] && objects == old(objects)
      ensures old(Valid()) ==> Valid()
    {
      id := nextId;
      versions := versions[id := row.(id := id)];
      nextId := nextId + 1;
    }

    /** store_versioned_object: the row replaces the one with its id. */
    method StoreVersion(row: VersionRow)
      modifies this
      ensures versions == old(versions)[row.id := row] && objects == old(objects)
      ensures nextId == if row.id < old(nextId) then old(nextId) else row.id + 1
      ensures old(Valid()) ==> Valid()
    {
      versions := versions[row.id := row];
      if row.id >= nextId {
        nextId := row.id + 1;
      }
    }

    /** remove_versioned_object. */
    method RemoveVersion(id: nat)
      modifies this
      ensures versions == old(versions) - {id} && objects == old(objects) && nextId == old(nextId)
      ensures old(Valid()) ==> Valid()
    {
      versions := versions - {id};
    }
  }

  /** sfs::Object: name, instance, version row id, UUID, metadata and deleted flag. */
  class Object {
    var name: string
    var instance: string
    var versionId: nat
    const uuid: UuidPath.Uuid
    var meta: Meta
    var deleted: bool

    /** Object(key): a new UUID (a parameter), the key's name and instance, not deleted. */
    constructor FromKey(key: ObjKey, created: UuidPath.Uuid)
      ensures name == key.name && instance == key.instance && uuid == created
      ensures versionId == 0 && meta == EMPTY_META && !deleted
    {
      name := key.name;
      instance := key.instance;
      versionId := 0;
      uuid := created;
      meta := EMPTY_META;
      deleted := false;
    }

    /** Object(name, uuid, deleted). */
    constructor FromRow(name0: string, uuid0: UuidPath.Uuid, deleted0: bool)
      ensures name == name0 && instance == "" && uuid == uuid0
      ensures versionId == 0 && meta == EMPTY_META && deleted == deleted0
    {
      name := name0;
      instance := "";
      versionId := 0;
      uuid := uuid0;
      meta := EMPTY_META;
      deleted := deleted0;
    }

    /** get_storage_path: the UUID path, then the version's row id. */
    function StoragePath(): (p: string)
      reads this
      requires SfsTypes.PathUuid(uuid)
      ensures p == SfsTypes.ObjectDir(uuid) + "/" + Decimal.NatToString(versionId)
    {
      SfsTypes.StoragePathLayout(uuid, versionId);
      SfsTypes.StoragePathOf(uuid, versionId)
    }

    /**
     * metadata_init: with newObject an object row (UUID, bucket, name,
     * empty metadata) is stored; with newVersion an OPEN version row for
     * the instance is inserted and its id becomes the object's versionId.
     */
    method MetadataInit(db: MetadataDb, bucketId: string, newObject: bool, newVersion: bool)
      modifies this, db
      ensures name == old(name) && instance == old(instance) && meta == old(meta) && deleted == old(deleted)
      ensures db.objects == if newObject then old(db.objects)[uuid := ObjectRow(uuid, bucketId, name, EMPTY_META)]
                            else old(db.objects)
      ensures newVersion ==>
                && versionId == old(db.nextId) && db.nextId == old(db.nextId) + 1
                && db.versions == old(db.versions)[versionId := VersionRow(versionId, uuid, instance, OPEN, 0, 0, 0, "")]
      ensures !newVersion ==> versionId == old(versionId) && db.versions == old(db.versions) && db.nextId == old(db.nextId)
      ensures old(db.Valid()) ==> db.Valid()
    {
      if newObject {
        db.StoreObject(ObjectRow(uuid, bucketId, name, EMPTY_META));
      }
      if newVersion {
        versionId := db.InsertVersion(VersionRow(0, uuid, instance, OPEN, 0, 0, 0, ""));
      }
    }

    /**
     * metadata_change_version_state: the version row takes the state; for
     * DELETED the object is marked deleted and the row's deletion time is now.
     */
    method MetadataChangeVersionState(db: MetadataDb, state: ObjectState, now: int)
      requires db.Valid() && versionId in db.versions
      modifies this, db
      ensures name == old(name) && instance == old(instance) && versionId == old(versionId) && meta == old(meta)
      ensures deleted == (old(deleted) || state == DELETED)
      ensures db.objects == old(db.objects)
      ensures db.versions == old(db.versions)[versionId :=
                if state == DELETED then old(db.versions[versionId]).(state := state, deletionTime := now)
                else old(db.versions[versionId]).(state := state)]
      ensures db.Valid()
    {
      var row := db.versions[versionId].(state := state);
      if state == DELETED {
        deleted := true;
        row := row.(deletionTime := now);
      }
      db.StoreVersion(row);
    }

    /**
     * metadata_finish: the object row takes the metadata; the version row
     * takes the size and etag, the mtime as creation time, and COMMITTED.
     */
    method MetadataFinish(db: MetadataDb)
      requires uuid in db.objects && versionId in db.versions && db.Valid()
      modifies db
      ensures db.objects == old(db.objects)[uuid := old(db.objects[uuid]).(meta := meta)]
      ensures db.versions == old(db.versions)[versionId :=
                old(db.versions[versionId]).(size := meta.size, creationTime := meta.mtime, state := COMMITTED, etag := meta.etag)]
      ensures db.nextId == old(db.nextId) && db.Valid()
    {
      var row := db.objects[uuid];
      db.StoreObject(row.(meta := meta));
      var v := db.versions[versionId];
      db.StoreVersion(v.(size := meta.size, creationTime := meta.mtime, state := COMMITTED, etag := meta.etag));
    }
  }

  /** The object a refresh loads from an object row and its last version row. */
  predicate Loaded(o: Object, row: ObjectRow, last: VersionRow)
    reads o
  {
    && o.name == row.name && o.uuid == row.uuid && o.meta == row.meta
    && o.versionId == last.id && o.instance == last.versionId && o.deleted == (last.state == DELETED)
  }

  /** One object as a refresh builds it from its row and its last version row. */
  method Load(row: ObjectRow, last: VersionRow) returns (o: Object)
    ensures fresh(o) && Loaded(o, row, last)
  {
    o := new Object.FromRow(row.name, row.uuid, false);
    o.meta := row.meta;
    o.versionId := last.id;
    o.instance := last.versionId;
    o.deleted := last.state == DELETED;
  }

  /** existing is what get_objects answers for the bucket: every object row of the bucket, and only those, in some order. */
  predicate ListsObjects(existing: seq<ObjectRow>, objects: map<UuidPath.Uuid, ObjectRow>, bucketId: string)
  {
    && (forall i :: 0 <= i < |existing| ==>
          existing[i].bucketId == bucketId && existing[i].uuid in objects && objects[existing[i].uuid] == existing[i])
    && (forall u :: u in objects && objects[u].bucketId == bucketId ==> objects[u] in existing)
  }

  /** The last of the rows with the name whose object has a version: the one a refresh keeps. */
  function Refreshed(rows: seq<ObjectRow>, versions: map<nat, VersionRow>, nextId: nat, n: string): (r: Option<ObjectRow>)
    ensures r.Some? ==> r.value in rows && r.value.name == n && LastOf(versions, nextId, r.value.uuid).Some?
  {
    if |rows| == 0 then None
    else
      var row := rows[|rows| - 1];
      if row.name == n && LastOf(versions, nextId, row.uuid).Some? then Some(row)
      else Refreshed(rows[..|rows| - 1], versions, nextId, n)
  }

  /** One more row changes the refresh of its own name only, and only when its object has a version. */
  lemma RefreshedSnoc(rows: seq<ObjectRow>, i: nat, versions: map<nat, VersionRow>, nextId: nat, n: string)
    requires i < |rows|
    ensures Refreshed(rows[..i + 1], versions, nextId, n)
            == if rows[i].name == n && LastOf(versions, nextId, rows[i].uuid).Some? then Some(rows[i])
               else Refreshed(rows[..i], versions, nextId, n)
  {
    assert rows[..i + 1][..i] == rows[..i];
  }

  /** After a refresh over `rows` from `before`: the names are the earlier
   *  ones and those a row refreshed. */
  ghost predicate RefreshedKeys(objs: map<string, Object>, rows: seq<ObjectRow>, before: map<string, Object>,
                          versions: map<nat, VersionRow>, nextId: nat)
  {
    forall n :: n in objs <==> n in before || Refreshed(rows, versions, nextId, n).Some?
  }

  /** A refreshed name holds the object loaded from its last row. */
  ghost predicate RefreshedLoaded(objs: map<string, Object>, rows: seq<ObjectRow>, versions: map<nat, VersionRow>, nextId: nat)
    reads objs.Values
  {
    forall n :: n in objs && Refreshed(rows, versions, nextId, n).Some? ==>
      var row := Refreshed(rows, versions, nextId, n).value;
      Loaded(objs[n], row, LastOf(versions, nextId, row.uuid).value)
  }

  /** Any other name keeps its earlier object. */
  ghost predicate RefreshedKept(objs: map<string, Object>, rows: seq<ObjectRow>, before: map<string, Object>,
                          versions: map<nat, VersionRow>, nextId: nat)
  {
    forall n :: n in objs && Refreshed(rows, versions, nextId, n).None? ==> n in before && objs[n] == before[n]
  }

  /** A row whose object has a version refreshes its name with the object loaded from it. */
  lemma RefreshLoadStep(objs: map<string, Object>, before: map<string, Object>, rows: seq<ObjectRow>, i: nat,
                        versions: map<nat, VersionRow>, nextId: nat, o: Object)
    requires i < |rows| && LastOf(versions, nextId, rows[i].uuid).Some?
    requires RefreshedKeys(objs, rows[..i], before, versions, nextId)
    requires RefreshedLoaded(objs, rows[..i], versions, nextId)
    requires RefreshedKept(objs, rows[..i], before, versions, nextId)
    requires Loaded(o, rows[i], LastOf(versions, nextId, rows[i].uuid).value)
    ensures RefreshedKeys(objs[rows[i].name := o], rows[..i + 1], before, versions, nextId)
    ensures RefreshedLoaded(objs[rows[i].name := o], rows[..i + 1], versions, nextId)
    ensures RefreshedKept(objs[rows[i].name := o], rows[..i + 1], before, versions, nextId)
  {
    LoadStepKeys(objs, before, rows, i, versions, nextId, o);
    LoadStepLoaded(objs, rows, i, versions, nextId, o);
    LoadStepKept(objs, before, rows, i, versions, nextId, o);
  }

  lemma LoadStepKeys(objs: map<string, Object>, before: map<string, Object>, rows: seq<ObjectRow>, i: nat,
                     versions: map<nat, VersionRow>, nextId: nat, o: Object)
    requires i < |rows| && LastOf(versions, nextId, rows[i].uuid).Some?
    requires RefreshedKeys(objs, rows[..i], before, versions, nextId)
    ensures RefreshedKeys(objs[rows[i].name := o], rows[..i + 1], before, versions, nextId)
  {
    forall n {
      RefreshedSnoc(rows, i, versions, nextId, n);
    }
  }

  lemma LoadStepLoaded(objs: map<string, Object>, rows: seq<ObjectRow>, i: nat,
                       versions: map<nat, VersionRow>, nextId: nat, o: Object)
    requires i < |rows| && LastOf(versions, nextId, rows[i].uuid).Some?
    requires RefreshedLoaded(objs, rows[..i], versions, nextId)
    requires Loaded(o, rows[i], LastOf(versions, nextId, rows[i].uuid).value)
    ensures RefreshedLoaded(objs[rows[i].name := o], rows[..i + 1], versions, nextId)
  {
    var objs' := objs[rows[i].name := o];
    forall n | n in objs' && Refreshed(rows[..i + 1], versions, nextId, n).Some?
      ensures var row := Refreshed(rows[..i + 1], versions, nextId, n).value;
              Loaded(objs'[n], row, LastOf(versions, nextId, row.uuid).value)
    {
      RefreshedSnoc(rows, i, versions, nextId, n);
    }
  }

  lemma LoadStepKept(objs: map<string, Object>, before: map<string, Object>, rows: seq<ObjectRow>, i: nat,
                     versions: map<nat, VersionRow>, nextId: nat, o: Object)
    requires i < |rows| && LastOf(versions, nextId, rows[i].uuid).Some?
    requires RefreshedKept(objs, rows[..i], before, versions, nextId)
    ensures RefreshedKept(objs[rows[i].name := o], rows[..i + 1], before, versions, nextId)
  {
    forall n {
      RefreshedSnoc(rows, i, versions, nextId, n);
    }
  }

  /** A row whose object has no version changes nothing. */
  lemma RefreshSkipStep(objs: map<string, Object>, before: map<string, Object>, rows: seq<ObjectRow>, i: nat,
                        versions: map<nat, VersionRow>, nextId: nat)
    requires i < |rows| && LastOf(versions, nextId, rows[i].uuid).None?
    requires RefreshedKeys(objs, rows[..i], before, versions, nextId)
    requires RefreshedLoaded(objs, rows[..i], versions, nextId)
    requires RefreshedKept(objs, rows[..i], before, versions, nextId)
    ensures RefreshedKeys(objs, rows[..i + 1], before, versions, nextId)
    ensures RefreshedLoaded(objs, rows[..i + 1], versions, nextId)
    ensures RefreshedKept(objs, rows[..i + 1], before, versions, nextId)
  {
    forall n {
      RefreshedSnoc(rows, i, versions, nextId, n);
    }
  }

  datatype UnknownObject = UnknownObject

  /** sfs::Bucket: its id, the database, the object map by name, and the deleted flag. */
  class Bucket {
    const bucketId: string
    const db: MetadataDb
    var objects: map<string, Object>
    var deletedFlag: bool

    /** The constructor loads the object map from the database. */
    constructor (bucketId0: string, db0: MetadataDb, existing: seq<ObjectRow>)
      requires ListsObjects(existing, db0.objects, bucketId0)
      ensures bucketId == bucketId0 && db == db0 && !deletedFlag
      ensures forall n :: n in objects <==> Refreshed(existing, db.versions, db.nextId, n).Some?
    {
      bucketId := bucketId0;
      db := db0;
      objects := map[];
      deletedFlag := false;
      new;
      RefreshObjects(existing);
    }

    /** set_deleted_flag. */
    method SetDeletedFlag(flag: bool)
      modifies this
      ensures deletedFlag == flag && objects == old(objects)
    {
      deletedFlag := flag;
    }

    /** get: the object of the name, or UnknownObjectException. */
    method Get(name: string) returns (r: Result<Object, UnknownObject>)
      ensures r.Ok? <==> name in objects
      ensures r.Ok? ==> r.value == objects[name]
    {
      if name !in objects {
        return Err(UnknownObject);
      }
      return Ok(objects[name]);
    }

    /**
     * get_or_create: an unknown name gets a new object (with a new UUID),
     * an object row and a version row. A known name keeps its object; a
     * non-empty instance different from the object's own replaces it and
     * gets a new version row, while an empty or equal instance creates
     * nothing.
     */
    method GetOrCreate(key: ObjKey, created: UuidPath.Uuid) returns (obj: Object)
      modifies this, db, if key.name in objects then {objects[key.name]} else {}
      ensures key.name in old(objects) ==> obj == old(objects[key.name]) && objects == old(objects)
      ensures key.name !in old(objects) ==>
                && fresh(obj) && objects == old(objects)[key.name := obj]
                && obj.name == key.name && obj.uuid == created && !obj.deleted && obj.meta == EMPTY_META
      ensures obj.instance == if key.name in old(objects) && key.instance == "" then old(objects[key.name].instance)
                              else key.instance
      ensures db.objects == if key.name in old(objects) then old(db.objects)
                            else old(db.objects)[created := ObjectRow(created, bucketId, key.name, EMPTY_META)]
      ensures var newVersion := key.name !in old(objects)
                                || (key.instance != "" && key.instance != old(objects[key.name].instance));
              && (newVersion ==>
                    && obj.versionId == old(db.nextId) && db.nextId == old(db.nextId) + 1
                    && db.versions == old(db.versions)[obj.versionId := VersionRow(obj.versionId, obj.uuid, key.instance, OPEN, 0, 0, 0, "")])
              && (!newVersion ==>
                    && obj.versionId == old(objects[key.name].versionId)
                    && db.versions == old(db.versions) && db.nextId == old(db.nextId))
      ensures old(db.Valid()) ==> db.Valid()
    {
      var newObject := true;
      var newVersion := true;
      if key.name in objects {
        obj := objects[key.name];
        newObject := false;
        if key.instance == "" || key.instance == obj.instance {
          newVersion := false;
        } else {
          obj.instance := key.instance;
        }
      } else {
        obj := new Object.FromKey(key, created);
        objects := objects[key.name := obj];
      }
      obj.MetadataInit(db, bucketId, newObject, newVersion);
    }

    /** finish / _finish_object: the object's row is stored with its current metadata. */
    method Finish(objname: string)
      requires objname in objects
      modifies db
      ensures var o := objects[objname];
              db.objects == old(db.objects)[o.uuid := ObjectRow(o.uuid, bucketId, o.name, o.meta)]
      ensures db.versions == old(db.versions) && db.nextId == old(db.nextId)
    {
      var o := objects[objname];
      db.StoreObject(ObjectRow(o.uuid, bucketId, o.name, o.meta));
    }

    /**
     * delete_object: when the object's last version is already DELETED the
     * object is undeleted instead. Otherwise the last version becomes
     * DELETED at now: a versioned row (non-empty version id) is copied to
     * a new row under a new random version id, which the object takes as
     * its instance; a non-versioned row is updated in place. Either way the
     * object is marked deleted.
     */
    method DeleteObject(objref: Object, key: ObjKey, now: int, randomId: string)
      requires db.Valid() && db.LastVersion(objref.uuid).Some?
      requires |randomId| == 32
      modifies this, db, objref
      ensures db.Valid() && db.objects == old(db.objects)
      ensures objref.name == old(objref.name) && objref.versionId == old(objref.versionId) && objref.meta == old(objref.meta)
      ensures old(db.LastVersion(objref.uuid)).value.state != DELETED ==>
                db.LastVersion(objref.uuid).Some? && db.LastVersion(objref.uuid).value.state == DELETED
      ensures var last := old(db.LastVersion(objref.uuid)).value;
              && (last.state == DELETED ==> Undeleted(objref, key, last, now))
              && (last.state != DELETED && last.versionId != "" ==>
                    && objref.deleted && objref.instance == randomId && objects == old(objects)
                    && db.nextId == old(db.nextId) + 1
                    && db.versions == old(db.versions)[old(db.nextId) :=
                         last.(id := old(db.nextId), state := DELETED, deletionTime := now, versionId := randomId)])
              && (last.state != DELETED && last.versionId == "" ==>
                    && objref.deleted && objref.instance == old(objref.instance) && objects == old(objects)
                    && db.nextId == old(db.nextId)
                    && db.versions == old(db.versions)[last.id := last.(state := DELETED, deletionTime := now)])
    {
      var last := db.LastVersion(objref.uuid).value;
      if last.state == DELETED {
        UndeleteObject(objref, key, last, now);
      } else {
        var marked := last.(state := DELETED, deletionTime := now);
        if last.versionId != "" {
          marked := marked.(versionId := randomId);
          objref.instance := randomId;
          InsertBecomesLast(db.versions, objref.uuid, db.nextId, marked.(id := db.nextId));
          var _ := db.InsertVersion(marked);
        } else {
          StoreKeepsLast(db.versions, objref.uuid, db.nextId, marked);
          db.StoreVersion(marked);
        }
        objref.deleted := true;
      }
    }

    /**
     * _undelete_object: for a versioned last row, only a request for that
     * very version removes it; the object then takes the previous row's
     * instance and is no longer deleted, or, with no row left, leaves the
     * map. A non-versioned last row becomes COMMITTED again and the object
     * is no longer deleted.
     */
    method UndeleteObject(objref: Object, key: ObjKey, last: VersionRow, now: int)
      requires db.Valid() && db.LastVersion(objref.uuid) == Some(last)
      modifies this, db, objref
      ensures db.Valid() && db.objects == old(db.objects) && db.nextId == old(db.nextId)
      ensures objref.name == old(objref.name) && objref.versionId == old(objref.versionId) && objref.meta == old(objref.meta)
      ensures Undeleted(objref, key, last, now)
    {
      if last.versionId != "" {
        if key.instance != "" && key.instance == last.versionId {
          RemoveLastGivesPrevious(db.versions, objref.uuid, db.nextId, last.id);
          db.RemoveVersion(last.id);
          var previous := db.LastVersion(objref.uuid);
          if previous.Some? {
            objref.instance := previous.value.versionId;
            objref.deleted := false;
          } else {
            objects := objects - {key.name};
          }
        }
      } else {
        db.StoreVersion(last.(state := COMMITTED, deletionTime := now));
        objref.deleted := false;
      }
    }

    /**
     * The state _undelete_object leaves, for the object's last row: for a
     * versioned row requested by its own version id, the row is gone and
     * the object shows the previous row (the object's highest row below
     * it), or leaves the map when there is none; for a non-versioned row,
     * the row is COMMITTED again and the object not deleted; otherwise
     * nothing changes.
     */
    twostate predicate Undeleted(objref: Object, key: ObjKey, last: VersionRow, now: int)
      reads this, db, objref
    {
      if last.versionId != "" then
        if key.instance != "" && key.instance == last.versionId then
          && db.versions == old(db.versions) - {last.id}
          && match LastBelow(old(db.versions), objref.uuid, last.id)
             case Some(previous) =>
               && objref.instance == old(db.versions)[previous].versionId && !objref.deleted
               && objects == old(objects)
             case None =>
               && objref.instance == old(objref.instance) && objref.deleted == old(objref.deleted)
               && objects == old(objects) - {key.name}
        else
          && db.versions == old(db.versions) && objects == old(objects)
          && objref.instance == old(objref.instance) && objref.deleted == old(objref.deleted)
      else
        && db.versions == old(db.versions)[last.id := last.(state := COMMITTED, deletionTime := now)]
        && objref.instance == old(objref.instance) && !objref.deleted && objects == old(objects)
    }

    /**
     * create_non_existing_object_delete_marker: a new deleted object for
     * the key enters the map with an object row and a DELETED version row
     * under a new random version id, which is returned.
     */
    method CreateNonExistingObjectDeleteMarker(key: ObjKey, created: UuidPath.Uuid, randomId: string, now: int)
      returns (r: string)
      requires |randomId| == 32
      modifies this, db
      ensures r == randomId
      ensures key.name in objects && fresh(objects[key.name]) && objects == old(objects)[key.name := objects[key.name]]
      ensures var o := objects[key.name];
              && o.name == key.name && o.instance == key.instance && o.uuid == created && o.deleted
              && o.versionId == old(db.nextId) && db.nextId == old(db.nextId) + 1
              && db.objects == old(db.objects)[created := ObjectRow(created, bucketId, key.name, EMPTY_META)]
              && db.versions == old(db.versions)[o.versionId := VersionRow(o.versionId, created, randomId, DELETED, now, 0, 0, "")]
      ensures old(db.Valid()) ==> db.Valid()
    {
      var obj := new Object.FromKey(key, created);
      obj.deleted := true;
      objects := objects[key.name := obj];
      obj.MetadataInit(db, bucketId, true, false);
      var id := db.InsertVersion(VersionRow(0, created, randomId, DELETED, now, 0, 0, ""));
      obj.versionId := id;
      r := randomId;
    }

    /**
     * _refresh_objects: every listed row whose object has a version row is
     * loaded (metadata from the row; version id, instance and deleted flag
     * from the last version) into the map under its name, the last such
     * row of a name winning; other names keep their objects.
     */
    method RefreshObjects(existing: seq<ObjectRow>)
      requires ListsObjects(existing, db.objects, bucketId)
      modifies this
      ensures deletedFlag == old(deletedFlag)
      ensures forall n :: n in objects <==> n in old(objects) || Refreshed(existing, db.versions, db.nextId, n).Some?
      ensures forall n :: n in objects && Refreshed(existing, db.versions, db.nextId, n).Some? ==>
                var row := Refreshed(existing, db.versions, db.nextId, n).value;
                Loaded(objects[n], row, db.LastVersion(row.uuid).value)
      ensures forall n :: n in objects && Refreshed(existing, db.versions, db.nextId, n).None? ==> objects[n] == old(objects[n])
    {
      var i := 0;
      while i < |existing|
        invariant i <= |existing|
        invariant RefreshedKeys(objects, existing[..i], old(objects), db.versions, db.nextId)
        invariant RefreshedLoaded(objects, existing[..i], db.versions, db.nextId)
        invariant RefreshedKept(objects, existing[..i], old(objects), db.versions, db.nextId)
        invariant deletedFlag == old(deletedFlag)
      {
        RefreshRow(existing, i, old(objects));
        i := i + 1;
      }
      assert existing[..|existing|] == existing;
    }

    /** One row of the refresh loop. */
    method RefreshRow(existing: seq<ObjectRow>, i: nat, ghost before: map<string, Object>)
      requires i < |existing|
      requires RefreshedKeys(objects, existing[..i], before, db.versions, db.nextId)
      requires RefreshedLoaded(objects, existing[..i], db.versions, db.nextId)
      requires RefreshedKept(objects, existing[..i], before, db.versions, db.nextId)
      modifies this
      ensures RefreshedKeys(objects, existing[..i + 1], before, db.versions, db.nextId)
      ensures RefreshedLoaded(objects, existing[..i + 1], db.versions, db.nextId)
      ensures RefreshedKept(objects, existing[..i + 1], before, db.versions, db.nextId)
      ensures deletedFlag == old(deletedFlag)
    {
      var row := existing[i];
      var last := db.LastVersion(row.uuid);
      if last.Some? {
        var o := Load(row, last.value);
        RefreshLoadStep(objects, before, existing, i, db.versions, db.nextId, o);
        objects := objects[row.name := o];
      } else {
        RefreshSkipStep(objects, before, existing, i, db.versions, db.nextId);
      }
    }
  }
}
