/**
 * Objects and buckets of the SFS driver (driver/sfs/types.cc): an object's
 * metadata, attributes and storage path, and the bucket operations that
 * create, fetch, list and delete object versions.
 *
 * The versioned-object queries live in a file outside this model; their
 * answers are parameters here, and what the driver writes to the metadata
 * database is recorded, in order, as a log of requests.
 */
module SfsTypes {
  import opened Wrappers
  import opened ConversionUtils
  import Decimal
  import FsPath
  import UuidPath
  import Sequences
  import VOC = VersionedObjectConversions

  type ObjectState = VOC.ObjectState
  type Attrs = map<string, Blob>

  /** VersionType: a regular version or a delete marker. */
  datatype VersionType = REGULAR | DELETE_MARKER

  /** rgw_obj_key: the object name and the instance (version id). */
  datatype ObjKey = ObjKey(name: string, instance: string)

  /** Object::Meta; times are clock values. */
  datatype Meta = Meta(size: nat, etag: string, mtime: int, setMtime: int, deleteAt: int)

  const DEFAULT_META: Meta := Meta(0, "", 0, 0, 0)

  /** DBVersionedObject: the fields the driver reads and writes. */
  datatype Version = Version(
    id: nat, objectId: UuidPath.Uuid, versionId: string, state: ObjectState, versionType: VersionType,
    size: nat, etag: string, mtime: int, deleteTime: int, createTime: int, commitTime: int, attrs: Attrs)

  /** DBObject: the object row. */
  datatype DbObject = DbObject(uuid: UuidPath.Uuid, bucketId: string, name: string)

  /** The writes the driver sends to the metadata database. */
  datatype Request =
    | StoreObject(object: DbObject)
    | StoreVersion(version: Version)
    | StoreVersionDeleteRest(version: Version)
    | InsertVersion(version: Version)
    | RemoveVersion(id: nat)
    | RemoveObject(uuid: UuidPath.Uuid)
    | CreateNewVersion(bucketId: string, name: string, versionId: string)
    | AddDeleteMarker(objectId: UuidPath.Uuid, markerId: string)
    | DeleteVersionAndGetPrevious(id: nat)

  /** The metadata database, as the requests made to it. */
  class MetadataDb {
    var requests: seq<Request>

    constructor ()
      ensures requests == []
    {
      requests := [];
    }

    method Send(r: Request)
      modifies this
      ensures requests == old(requests) + [r]
    {
      requests := requests + [r];
    }
  }

  /** A UUID an object path can be built from. */
  predicate PathUuid(u: UuidPath.Uuid)
  {
    u.Valid() && !u.IsNil()
  }

  /** The object's directory: the UUID path. */
  function ObjectDir(u: UuidPath.Uuid): (p: FsPath.Path)
    requires PathUuid(u)
    ensures |p| == 38
  {
    UuidPath.ToPath(UuidPath.MakeUuidPath(u))
  }

  /** get_storage_path: the UUID path, then the version's row id in decimal. */
  function StoragePathOf(u: UuidPath.Uuid, versionId: nat): FsPath.Path
    requires PathUuid(u)
  {
    FsPath.Join(ObjectDir(u), Decimal.NatToString(versionId))
  }

  /** The storage path is the object's directory, a separator, then the version's row id. */
  lemma StoragePathLayout(u: UuidPath.Uuid, versionId: nat)
    requires PathUuid(u)
    ensures StoragePathOf(u, versionId) == ObjectDir(u) + "/" + Decimal.NatToString(versionId)
    ensures StoragePathOf(u, versionId)[..38] == ObjectDir(u)
  {
    var d := ObjectDir(u);
    UuidPath.UuidStringHasNoSeparator(u);
    var m := UuidPath.MakeUuidPath(u);
    assert d[|d| - 1] == m.fname[31];
    assert m.fname == UuidPath.UuidString(u)[4..];
    Decimal.NatToStringDigits(versionId);
  }

  /** Different objects, or different versions of one object, are stored at different paths. */
  lemma StoragePathsDistinct(u: UuidPath.Uuid, a: nat, w: UuidPath.Uuid, b: nat)
    requires PathUuid(u) && PathUuid(w)
    requires StoragePathOf(u, a) == StoragePathOf(w, b)
    ensures u == w && a == b
  {
    StoragePathLayout(u, a);
    StoragePathLayout(w, b);
    var p := StoragePathOf(u, a);
    assert p[..38] == ObjectDir(u);
    assert StoragePathOf(w, b)[..38] == ObjectDir(w);
    UuidPath.ToPathInjective(UuidPath.MakeUuidPath(u), UuidPath.MakeUuidPath(w));
    assert p[39..] == Decimal.NatToString(a);
    assert StoragePathOf(w, b)[39..] == Decimal.NatToString(b);
    Decimal.NatToStringInjective(a, b);
  }

  /** The version a rejected object is marked with: DELETED, deleted and modified now. */
  function MarkDeleted(v: Version, now: int): (r: Version)
    ensures r.state == VOC.DELETED && r.deleteTime == now && r.mtime == now
    ensures r.(state := v.state, deleteTime := v.deleteTime, mtime := v.mtime) == v
  {
    v.(deleteTime := now, mtime := now, state := VOC.DELETED)
  }

  /** sfs::Object: one version of an object, shared by reference. */
  class Object {
    var name: string
    var instance: string
    var versionId: nat
    var path: UuidPath.Uuid
    var deleted: bool
    var meta: Meta
    var attrs: Attrs

    predicate Valid()
      reads this
    {
      PathUuid(path)
    }

    /** Object(key): a fresh UUID (the parameter), not deleted, version 0, default metadata. */
    constructor FromKey(key: ObjKey, uuid: UuidPath.Uuid)
      ensures name == key.name && instance == key.instance && path == uuid
      ensures !deleted && versionId == 0 && meta == DEFAULT_META && attrs == map[]
    {
      name := key.name;
      instance := key.instance;
      versionId := 0;
      path := uuid;
      deleted := false;
      meta := DEFAULT_META;
      attrs := map[];
    }

    /** create_for_query. */
    constructor ForQuery(name0: string, uuid: UuidPath.Uuid, deleted0: bool, versionId0: nat)
      ensures name == name0 && instance == "" && path == uuid && deleted == deleted0 && versionId == versionId0
      ensures meta == DEFAULT_META && attrs == map[]
    {
      name := name0;
      instance := "";
      versionId := versionId0;
      path := uuid;
      deleted := deleted0;
      meta := DEFAULT_META;
      attrs := map[];
    }

    /** create_for_immediate_deletion: the object row's name and UUID, flagged deleted. */
    constructor ForImmediateDeletion(o: DbObject)
      ensures name == o.name && instance == "" && path == o.uuid && deleted && versionId == 0
    {
      name := o.name;
      instance := "";
      versionId := 0;
      path := o.uuid;
      deleted := true;
      meta := DEFAULT_META;
      attrs := map[];
    }

    /**
     * create_from_db_version: the version's id as instance, its row id as
     * version id, deleted exactly for a delete marker, and its metadata and
     * attributes.
     */
    constructor FromDbVersion(objectName: string, v: Version)
      ensures name == objectName && instance == v.versionId && path == v.objectId && versionId == v.id
      ensures deleted <==> v.versionType == DELETE_MARKER
      ensures meta == Meta(v.size, v.etag, v.mtime, 0, v.deleteTime) && attrs == v.attrs
    {
      name := objectName;
      instance := v.versionId;
      versionId := v.id;
      path := v.objectId;
      deleted := v.versionType == DELETE_MARKER;
      meta := Meta(v.size, v.etag, v.mtime, 0, v.deleteTime);
      attrs := v.attrs;
    }

    /** get_storage_path. */
    function StoragePath(): (p: FsPath.Path)
      reads this
      requires Valid()
      ensures p == StoragePathOf(path, versionId)
    {
      StoragePathOf(path, versionId)
    }

    /** update_meta: the metadata is replaced wholesale. */
    method UpdateMeta(update: Meta)
      modifies this
      ensures meta == update
      ensures name == old(name) && instance == old(instance) && versionId == old(versionId)
      ensures path == old(path) && deleted == old(deleted) && attrs == old(attrs)
    {
      meta := update;
    }

    /** get_attr: false for a missing name, otherwise true and the value. */
    method GetAttr(attrName: string) returns (found: bool, value: Blob)
      ensures found <==> attrName in attrs
      ensures found ==> value == attrs[attrName]
    {
      if attrName in attrs {
        return true, attrs[attrName];
      }
      return false, [];
    }

    /** set_attr: the value is stored under the name, replacing any old one. */
    method SetAttr(attrName: string, value: Blob)
      modifies this
      ensures attrs == old(attrs)[attrName := value]
      ensures name == old(name) && instance == old(instance) && versionId == old(versionId)
      ensures path == old(path) && deleted == old(deleted) && meta == old(meta)
    {
      attrs := attrs[attrName := value];
    }

    /** del_attr: the number of attributes erased, 1 when the name was present and 0 otherwise. */
    method DelAttr(attrName: string) returns (erased: nat)
      modifies this
      ensures erased == (if attrName in old(attrs) then 1 else 0)
      ensures attrs == old(attrs) - {attrName}
      ensures name == old(name) && instance == old(instance) && versionId == old(versionId)
      ensures path == old(path) && deleted == old(deleted) && meta == old(meta)
    {
      erased := if attrName in attrs then 1 else 0;
      attrs := attrs - {attrName};
    }

    /** update_attrs: the attributes are replaced wholesale. */
    method UpdateAttrs(update: Attrs)
      modifies this
      ensures attrs == update
      ensures name == old(name) && instance == old(instance) && versionId == old(versionId)
      ensures path == old(path) && deleted == old(deleted) && meta == old(meta)
    {
      attrs := update;
    }

    /**
     * metadata_flush_attrs: the version row with this object's row id (the
     * source asserts it exists) is written back with this object's attributes.
     */
    method MetadataFlushAttrs(db: MetadataDb, stored: Version)
      modifies db
      requires stored.id == versionId
      ensures db.requests == old(db.requests) + [StoreVersion(stored.(attrs := attrs))]
    {
      db.Send(StoreVersion(stored.(attrs := attrs)));
    }

    /**
     * metadata_finish: of the object row with this object's UUID and the
     * version row with its row id (both asserted to exist), the object row
     * takes this object's name; the version row takes its size, times, etag
     * and attributes and becomes COMMITTED.
     * On an unversioned bucket the other versions are deleted with it.
     */
    method MetadataFinish(db: MetadataDb, storedObject: DbObject, stored: Version, versioningEnabled: bool, now: int)
      modifies db
      requires storedObject.uuid == path && stored.id == versionId
      ensures var v := FinishedVersion(stored, meta, attrs, now);
              db.requests == old(db.requests)
                             + [StoreObject(storedObject.(name := name))]
                             + [if versioningEnabled then StoreVersion(v) else StoreVersionDeleteRest(v)]
    {
      db.Send(StoreObject(storedObject.(name := name)));
      var v := FinishedVersion(stored, meta, attrs, now);
      if versioningEnabled {
        db.Send(StoreVersion(v));
      } else {
        db.Send(StoreVersionDeleteRest(v));
      }
    }

    /** delete_object_version: the version row is removed. */
    method DeleteObjectVersion(db: MetadataDb) returns (r: int)
      modifies db
      ensures r == 0 && db.requests == old(db.requests) + [RemoveVersion(versionId)]
    {
      db.Send(RemoveVersion(versionId));
      r := 0;
    }

    /** delete_object_metadata: the object row is removed. */
    method DeleteObjectMetadata(db: MetadataDb)
      modifies db
      ensures db.requests == old(db.requests) + [RemoveObject(path)]
    {
      db.Send(RemoveObject(path));
    }

    /** delete_object_data: the whole object directory, or only this version's file. */
    function DataPathToRemove(all: bool): (p: FsPath.Path)
      reads this
      requires Valid()
      ensures all ==> p == ObjectDir(path)
      ensures !all ==> p == StoragePath() && ObjectDir(path) <= p
    {
      StoragePathLayout(path, versionId);
      if all then ObjectDir(path) else StoragePath()
    }
  }

  /** The committed version row metadata_finish writes. */
  function FinishedVersion(v: Version, m: Meta, a: Attrs, now: int): (r: Version)
    ensures r.state == VOC.COMMITTED && r.commitTime == now
    ensures r.size == m.size && r.etag == m.etag && r.attrs == a
    ensures r.createTime == m.mtime && r.mtime == m.mtime && r.deleteTime == m.deleteAt
    ensures r.id == v.id && r.objectId == v.objectId && r.versionId == v.versionId && r.versionType == v.versionType
  {
    v.(size := m.size, createTime := m.mtime, deleteTime := m.deleteAt, mtime := m.mtime,
       state := VOC.COMMITTED, commitTime := now, etag := m.etag, attrs := a)
  }

  /** DBObjectsListItem: an object's name with its last version. */
  datatype ListItem = ListItem(name: string, version: Version)

  predicate Committed(item: ListItem)
  {
    item.version.state == VOC.COMMITTED
  }

  /** The version a new delete marker for a missing object is stored as. */
  function MarkerRow(uuid: UuidPath.Uuid, markerId: string, now: int): (v: Version)
    ensures v.objectId == uuid && v.versionId == markerId && v.deleteTime == now
    ensures v.state == VOC.COMMITTED && v.versionType == DELETE_MARKER
  {
    Version(0, uuid, markerId, VOC.COMMITTED, DELETE_MARKER, 0, "", 0, now, 0, 0, map[])
  }

  /**
   * The object is what create_from_db_version builds from the version: the
   * given name, the version's id as instance, its row id, its object's UUID
   * as path, deleted exactly for a delete marker, and the version's size,
   * etag, modification and delete-at times and attributes.
   */
  predicate BuiltFrom(o: Object, objectName: string, v: Version)
    reads o
  {
    && o.name == objectName && o.instance == v.versionId && o.versionId == v.id
    && o.path == v.objectId
    && (o.deleted <==> v.versionType == DELETE_MARKER)
    && o.meta == Meta(v.size, v.etag, v.mtime, 0, v.deleteTime) && o.attrs == v.attrs
  }

  /** The object shows the item's version, as create_from_db_version builds it. */
  predicate Shows(o: Object, item: ListItem)
    reads o
  {
    BuiltFrom(o, item.name, item.version)
  }

  /** Unknown object: Bucket::get found no matching version. */
  datatype UnknownObject = UnknownObject

  /** sfs::Bucket: the bucket's identity and versioning, over the metadata database. */
  class Bucket {
    const name: string
    const bucketId: string
    var versioningEnabled: bool
    var attrs: Attrs

    constructor (name0: string, bucketId0: string, versioningEnabled0: bool, attrs0: Attrs)
      ensures name == name0 && bucketId == bucketId0
      ensures versioningEnabled == versioningEnabled0 && attrs == attrs0
    {
      name := name0;
      bucketId := bucketId0;
      versioningEnabled := versioningEnabled0;
      attrs := attrs0;
    }

    /**
     * create_version: the key's instance is the version id, or a generated
     * one when it is empty; the new version is created in one transaction,
     * whose answer (None when it fails) gives the object or none.
     */
    method CreateVersion(db: MetadataDb, key: ObjKey, generated: string, created: string -> Option<Version>)
      returns (versionId: string, r: Option<Object>)
      modifies db
      ensures versionId == if key.instance == "" then generated else key.instance
      ensures db.requests == old(db.requests) + [CreateNewVersion(bucketId, key.name, versionId)]
      ensures r.None? <==> created(versionId).None?
      ensures r.Some? ==>
                && fresh(r.value)
                && BuiltFrom(r.value, key.name, created(versionId).value)
                && (PathUuid(created(versionId).value.objectId) ==>
                      r.value.Valid()
                      && r.value.StoragePath() == StoragePathOf(created(versionId).value.objectId, created(versionId).value.id))
    {
      versionId := if key.instance == "" then generated else key.instance;
      db.Send(CreateNewVersion(bucketId, key.name, versionId));
      var v := created(versionId);
      if v.None? {
        return versionId, None;
      }
      var o := new Object.FromDbVersion(key.name, v.value);
      r := Some(o);
    }

    /**
     * get: the non-deleted version the database finds for the key (its last
     * one when the instance is empty); none found is UnknownObject.
     */
    method Get(key: ObjKey, found: Option<Version>) returns (r: Result<Object, UnknownObject>)
      ensures r.Err? <==> found.None?
      ensures r.Ok? ==>
                && fresh(r.value)
                && BuiltFrom(r.value, key.name, found.value)
                && (PathUuid(found.value.objectId) ==>
                      r.value.Valid() && r.value.StoragePath() == StoragePathOf(found.value.objectId, found.value.id))
    {
      if found.None? {
        return Err(UnknownObject);
      }
      var o := new Object.FromDbVersion(key.name, found.value);
      r := Ok(o);
    }

    /**
     * get_all: of each object's last version, only the COMMITTED ones
     * become objects, in the order listed.
     */
    method GetAll(items: seq<ListItem>) returns (r: seq<Object>)
      ensures var c := Sequences.Filter(items, Committed);
              && |r| == |c|
              && forall i :: 0 <= i < |r| ==> Shows(r[i], c[i])
    {
      r := [];
      ghost var c: seq<ListItem> := [];
      var i := 0;
      while i < |items|
        invariant i <= |items|
        invariant c == Sequences.Filter(items[..i], Committed)
        invariant |r| == |c|
        invariant forall k :: 0 <= k < |r| ==> Shows(r[k], c[k])
      {
        FilterStep(items, i, Committed);
        if Committed(items[i]) {
          var o := FromItem(items[i]);
          assert forall k :: 0 <= k < |r| ==> Shows(r[k], c[k]);
          r, c := r + [o], c + [items[i]];
        }
        i := i + 1;
      }
      assert items[..|items|] == items;
    }

    /**
     * delete_object: on an unversioned bucket the last version is marked
     * DELETED; on a versioned bucket, an empty instance adds a delete
     * marker, and an instance naming a delete marker undeletes the object
     * while one naming any other version marks that version DELETED.
     * The result is the new delete marker's id, or "" when none was added.
     *
     * The database's answers are parameters: lastVersion (the object's last
     * version), byInstance (the version with the key's instance), the row
     * id and success of adding a marker, and the version left once a
     * marker is removed.
     */
    method DeleteObject(db: MetadataDb, objref: Object, key: ObjKey, versionedBucket: bool,
                        markerId: string, markerRowId: nat, markerAdded: bool,
                        lastVersion: Option<Version>, byInstance: Option<Version>, previous: Option<Version>,
                        now: int)
      returns (markerVersionId: string)
      modifies db, objref
      requires !versionedBucket ==> lastVersion.Some?
      ensures objref.name == old(objref.name) && objref.path == old(objref.path)
      ensures objref.meta == old(objref.meta) && objref.attrs == old(objref.attrs)
      ensures !versionedBucket ==>
                && markerVersionId == ""
                && db.requests == old(db.requests) + [StoreVersion(MarkDeleted(lastVersion.value, now))]
                && objref.deleted
                && objref.instance == old(objref.instance) && objref.versionId == old(objref.versionId)
      ensures versionedBucket && key.instance == "" ==>
                && db.requests == old(db.requests) + [AddDeleteMarker(old(objref.path), markerId)]
                && (markerAdded ==> markerVersionId == markerId && objref.deleted
                                    && objref.instance == markerId && objref.versionId == markerRowId)
                && (!markerAdded ==> markerVersionId == "" && objref.deleted == old(objref.deleted)
                                     && objref.instance == old(objref.instance) && objref.versionId == old(objref.versionId))
      ensures versionedBucket && key.instance != "" ==>
                && markerVersionId == ""
                && objref.versionId == old(objref.versionId)
                && match byInstance
                   case None =>
                     db.requests == old(db.requests)
                     && objref.deleted == old(objref.deleted) && objref.instance == old(objref.instance)
                   case Some(v) =>
                     if v.versionType == DELETE_MARKER then
                       if v.versionId != "" && key.instance == v.versionId then
                         && db.requests == old(db.requests) + [DeleteVersionAndGetPrevious(v.id)]
                         && (previous.Some? ==> objref.instance == previous.value.versionId && !objref.deleted)
                         && (previous.None? ==> objref.instance == old(objref.instance) && objref.deleted == old(objref.deleted))
                       else
                         db.requests == old(db.requests)
                         && objref.deleted == old(objref.deleted) && objref.instance == old(objref.instance)
                     else
                       && db.requests == old(db.requests) + [StoreVersion(MarkDeleted(v, now))]
                       && objref.deleted && objref.instance == old(objref.instance)
    {
      markerVersionId := "";
      if !versionedBucket {
        DeleteVersion(db, objref, lastVersion.value, now);
      } else if key.instance == "" {
        markerVersionId := AddMarker(db, objref, markerId, markerRowId, markerAdded);
      } else if byInstance.Some? {
        if byInstance.value.versionType == DELETE_MARKER {
          Undelete(db, objref, key, byInstance.value, previous);
        } else {
          DeleteVersion(db, objref, byInstance.value, now);
        }
      }
    }

    /**
     * _undelete_object: only a marker with a version id that the key names
     * is removed; the object then shows the version before it, if any.
     */
    method Undelete(db: MetadataDb, objref: Object, key: ObjKey, marker: Version, previous: Option<Version>)
      modifies db, objref
      ensures objref.name == old(objref.name) && objref.path == old(objref.path) && objref.versionId == old(objref.versionId)
      ensures objref.meta == old(objref.meta) && objref.attrs == old(objref.attrs)
      ensures marker.versionId != "" && key.instance != "" && key.instance == marker.versionId ==>
                && db.requests == old(db.requests) + [DeleteVersionAndGetPrevious(marker.id)]
                && (previous.Some? ==> objref.instance == previous.value.versionId && !objref.deleted)
                && (previous.None? ==> objref.instance == old(objref.instance) && objref.deleted == old(objref.deleted))
      ensures !(marker.versionId != "" && key.instance != "" && key.instance == marker.versionId) ==>
                db.requests == old(db.requests) && objref.instance == old(objref.instance) && objref.deleted == old(objref.deleted)
    {
      if marker.versionId != "" {
        if key.instance != "" && key.instance == marker.versionId {
          db.Send(DeleteVersionAndGetPrevious(marker.id));
          if previous.Some? {
            objref.instance := previous.value.versionId;
            objref.deleted := false;
          }
        }
      }
    }

    /** _delete_object_version: the version is stored as DELETED and the object flagged deleted. */
    method DeleteVersion(db: MetadataDb, objref: Object, v: Version, now: int)
      modifies db, objref
      ensures db.requests == old(db.requests) + [StoreVersion(MarkDeleted(v, now))]
      ensures objref.deleted
      ensures objref.name == old(objref.name) && objref.path == old(objref.path) && objref.versionId == old(objref.versionId)
      ensures objref.instance == old(objref.instance) && objref.meta == old(objref.meta) && objref.attrs == old(objref.attrs)
    {
      db.Send(StoreVersion(MarkDeleted(v, now)));
      objref.deleted := true;
    }

    /**
     * _add_delete_marker: when the database adds the marker the object is
     * flagged deleted and takes the marker's ids, and the marker's id is
     * returned; otherwise "" and the object is left untouched.
     */
    method AddMarker(db: MetadataDb, objref: Object, markerId: string, markerRowId: nat, added: bool)
      returns (r: string)
      modifies db, objref
      ensures db.requests == old(db.requests) + [AddDeleteMarker(old(objref.path), markerId)]
      ensures added ==> r == markerId && objref.deleted && objref.instance == markerId && objref.versionId == markerRowId
      ensures !added ==> r == "" && objref.deleted == old(objref.deleted)
                         && objref.instance == old(objref.instance) && objref.versionId == old(objref.versionId)
      ensures objref.name == old(objref.name) && objref.path == old(objref.path)
      ensures objref.meta == old(objref.meta) && objref.attrs == old(objref.attrs)
    {
      db.Send(AddDeleteMarker(objref.path, markerId));
      if added {
        objref.deleted := true;
        objref.instance := markerId;
        objref.versionId := markerRowId;
        return markerId;
      }
      return "";
    }

    /**
     * create_non_existing_object_delete_marker: a new object row under a
     * fresh UUID, then a COMMITTED delete-marker version with a generated
     * id, which is returned.
     */
    method CreateNonExistingObjectDeleteMarker(db: MetadataDb, key: ObjKey, uuid: UuidPath.Uuid,
                                               generated: string, now: int)
      returns (versionId: string)
      modifies db
      requires PathUuid(uuid)
      ensures versionId == generated
      ensures db.requests == old(db.requests)
                             + [StoreObject(DbObject(uuid, bucketId, key.name))]
                             + [InsertVersion(MarkerRow(uuid, generated, now))]
    {
      db.Send(StoreObject(DbObject(uuid, bucketId, key.name)));
      db.Send(InsertVersion(MarkerRow(uuid, generated, now)));
      versionId := generated;
    }
  }

  /** create_from_db_version on a listed item. */
  method FromItem(item: ListItem) returns (o: Object)
    ensures fresh(o) && Shows(o, item)
  {
    o := new Object.FromDbVersion(item.name, item.version);
  }

  /** Filtering one more element of a prefix. */
  lemma FilterStep<T>(s: seq<T>, i: nat, p: T -> bool)
    requires i < |s|
    ensures Sequences.Filter(s[..i + 1], p) == Sequences.Filter(s[..i], p) + (if p(s[i]) then [s[i]] else [])
  {
    assert s[..i + 1] == s[..i] + [s[i]];
    FilterSnoc(s[..i], s[i], p);
  }

  /** Filtering a sequence extended by one element. */
  lemma FilterSnoc<T>(s: seq<T>, x: T, p: T -> bool)
    ensures Sequences.Filter(s + [x], p) == Sequences.Filter(s, p) + (if p(x) then [x] else [])
  {
    if |s| == 0 {
      assert s + [x] == [x];
      assert [x][1..] == [];
    } else {
      assert (s + [x])[0] == s[0];
      assert (s + [x])[1..] == s[1..] + [x];
      FilterSnoc(s[1..], x, p);
    }
  }
}
