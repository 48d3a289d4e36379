/**
 * The S3 object of the SFS driver (driver/sfs/object.cc): reading an
 * object's data in chunks, reading and changing its attributes, and
 * deleting it, over the objects and buckets of SfsTypes.
 *
 * The object's data file is outside the model: whether it exists and
 * whether each read of it succeeds are parameters, as is the answer of the
 * callback that receives the data.
 */
module SfsObject {
  import opened Wrappers
  import opened ConversionUtils
  import opened RgwErrors
  import opened SfsTypes
  import Collections
  import FsPath
  import UuidPath

  /** The largest chunk iterate reads and hands on at a time (10 MiB). */
  const MAX_CHUNK_SIZE: nat := 10485760

  /** A chunk: its offset in the object and its size. */
  type Chunk = (int, nat)

  /** The number of bytes in a run of chunks. */
  function Total(cs: seq<Chunk>): nat
  {
    if |cs| == 0 then 0 else cs[0].1 + Total(cs[1..])
  }

  /** The chunks iterate reads for n bytes from ofs; together they are the n bytes. */
  function Chunks(ofs: int, n: nat): (cs: seq<Chunk>)
    ensures n == 0 <==> |cs| == 0
    decreases n
  {
    if n == 0 then []
    else
      var size := if n < MAX_CHUNK_SIZE then n else MAX_CHUNK_SIZE;
      [(ofs, size)] + Chunks(ofs + size, n - size)
  }

  /** Together the chunks are the n bytes. */
  lemma {:induction false} ChunksTotal(ofs: int, n: nat)
    ensures Total(Chunks(ofs, n)) == n
    decreases n
  {
    if n > 0 {
      var size := if n < MAX_CHUNK_SIZE then n else MAX_CHUNK_SIZE;
      var cs := Chunks(ofs, n);
      ChunksTotal(ofs + size, n - size);
      assert cs[1..] == Chunks(ofs + size, n - size);
    }
  }

  /**
   * The shape of the chunks: each is non-empty and at most MAX_CHUNK_SIZE,
   * only the last may be shorter, and each starts where the one before it
   * ends.
   */
  lemma {:induction false} ChunksShape(ofs: int, n: nat)
    ensures forall i :: 0 <= i < |Chunks(ofs, n)| ==> 0 < Chunks(ofs, n)[i].1 <= MAX_CHUNK_SIZE
    ensures forall i :: 0 <= i < |Chunks(ofs, n)| - 1 ==> Chunks(ofs, n)[i].1 == MAX_CHUNK_SIZE
    ensures forall i :: 0 <= i < |Chunks(ofs, n)| ==> Chunks(ofs, n)[i].0 == ofs + i * MAX_CHUNK_SIZE
    decreases n
  {
    if n > 0 {
      var size := if n < MAX_CHUNK_SIZE then n else MAX_CHUNK_SIZE;
      var cs := Chunks(ofs, n);
      var rest := Chunks(ofs + size, n - size);
      ChunksShape(ofs + size, n - size);
      assert cs == [(ofs, size)] + rest;
      forall i | 0 <= i < |cs|
        ensures 0 < cs[i].1 <= MAX_CHUNK_SIZE
        ensures i < |cs| - 1 ==> cs[i].1 == MAX_CHUNK_SIZE
        ensures cs[i].0 == ofs + i * MAX_CHUNK_SIZE
      {
        if i > 0 {
          assert cs[i] == rest[i - 1];
          assert |rest| > 0 && size == MAX_CHUNK_SIZE;
          assert (i - 1) * MAX_CHUNK_SIZE + MAX_CHUNK_SIZE == i * MAX_CHUNK_SIZE;
        } else if |cs| > 1 {
          assert |rest| > 0;
        }
      }
    }
  }

  /**
   * The length iterate and read work out for the inclusive range ofs..end:
   * end + 1 - ofs in 64-bit signed arithmetic.
   */
  function RangeLen(ofs: Int64, end: Int64): (r: Int64)
    ensures -0x8000_0000_0000_0000 <= end + 1 - ofs < 0x8000_0000_0000_0000 ==> r == end + 1 - ofs
    ensures (r - (end + 1 - ofs)) % 0x1_0000_0000_0000_0000 == 0
  {
    ToInt64(end + 1 - ofs)
  }

  /**
   * read: the length of the inclusive range ofs..end, returned through an
   * int, once the data file is read, and EIO when it cannot be. For a
   * range of fewer than 2^31 bytes that is not reversed, it is the number
   * of bytes iterate hands on.
   */
  function Read(ofs: Int64, end: Int64, readOk: bool): (r: Result<Int32, Error>)
    ensures r.Err? <==> !readOk
    ensures r.Err? ==> r.error == EIO
    ensures r.Ok? ==> (r.value - (end + 1 - ofs)) % 0x1_0000_0000 == 0
    ensures r.Ok? && 0 <= end + 1 - ofs < 0x8000_0000 ==> r.value == Total(Chunks(ofs, end + 1 - ofs))
  {
    if !readOk then Err(EIO)
    else
      var len := RangeLen(ofs, end);
      if 0 <= end + 1 - ofs < 0x8000_0000 then
        ChunksTotal(ofs, len);
        Ok(ToInt32(len))
      else
        Ok(ToInt32(len))
  }

  /**
   * iterate: the range ofs..end is read and handed to the callback chunk
   * by chunk, in order. The bytes still missing are counted in an unsigned
   * 64-bit integer, so a reversed range (end + 1 < ofs) wraps to a count
   * near 2^64. It succeeds, with the range's length returned through an
   * int, exactly when every chunk is read and accepted; a failed read or a
   * refused chunk stops it with EIO. handed is what reached the callback,
   * always a prefix of the chunks.
   */
  method Iterate(ofs: Int64, end: Int64, readOk: Chunk -> bool, accepted: Chunk -> bool)
    returns (r: Result<Int32, Error>, handed: seq<Chunk>)
    ensures var all := Chunks(ofs, ToU64(RangeLen(ofs, end)));
            && handed <= all
            && (r.Ok? <==> forall i :: 0 <= i < |all| ==> readOk(all[i]) && accepted(all[i]))
            && (r.Ok? ==> handed == all && Total(handed) == ToU64(RangeLen(ofs, end)))
            && (r.Ok? ==> (r.value - (end + 1 - ofs)) % 0x1_0000_0000 == 0)
            && (r.Err? ==> r.error == EIO)
    ensures 0 <= end + 1 - ofs < 0x8000_0000_0000_0000 ==> Chunks(ofs, ToU64(RangeLen(ofs, end))) == Chunks(ofs, end + 1 - ofs)
    ensures r.Ok? && 0 <= end + 1 - ofs < 0x8000_0000 ==> r.value == end + 1 - ofs == Total(handed)
  {
    var len := RangeLen(ofs, end);
    RangeLenWidths(ofs, end);
    var ok;
    ok, handed := ReadChunks(ofs, ToU64(len), readOk, accepted);
    if !ok {
      return Err(EIO), handed;
    }
    return Ok(ToInt32(len)), handed;
  }

  /**
   * The loop of iterate: missing bytes from pos are read and handed on a
   * chunk at a time, until none is missing, a read fails or the callback
   * refuses a chunk.
   */
  method ReadChunks(ofs: int, n: nat, readOk: Chunk -> bool, accepted: Chunk -> bool)
    returns (ok: bool, handed: seq<Chunk>)
    ensures var all := Chunks(ofs, n);
            && handed <= all
            && (ok <==> forall i :: 0 <= i < |all| ==> readOk(all[i]) && accepted(all[i]))
            && (ok ==> handed == all && Total(handed) == n)
  {
    var missing: nat := n;
    ghost var all := Chunks(ofs, n);
    var pos := ofs;
    handed := [];
    while missing > 0
      invariant all == handed + Chunks(pos, missing)
      invariant forall i :: 0 <= i < |handed| ==> readOk(handed[i]) && accepted(handed[i])
      decreases missing
    {
      var size := if missing < MAX_CHUNK_SIZE then missing else MAX_CHUNK_SIZE;
      IterateAdvance(all, handed, pos, missing, size);
      if !readOk((pos, size)) {
        return false, handed;
      }
      ghost var before := handed;
      missing := missing - size;
      handed := handed + [(pos, size)];
      assert handed[|before|] == (pos, size) && handed[..|before|] == before;
      if !accepted((pos, size)) {
        return false, handed;
      }
      pos := pos + size;
    }
    assert all == handed;
    ChunksTotal(ofs, n);
    return true, handed;
  }

  /**
   * The range length through the unsigned count and through the int
   * result: both are the length itself while it fits, and the int result
   * agrees with it modulo 2^32 always.
   */
  lemma RangeLenWidths(ofs: Int64, end: Int64)
    ensures 0 <= end + 1 - ofs < 0x8000_0000_0000_0000 ==> ToU64(RangeLen(ofs, end)) == end + 1 - ofs
    ensures 0 <= end + 1 - ofs < 0x8000_0000 ==> ToInt32(RangeLen(ofs, end)) == end + 1 - ofs
    ensures (ToInt32(RangeLen(ofs, end)) - (end + 1 - ofs)) % 0x1_0000_0000 == 0
  {
    var len := RangeLen(ofs, end);
    var k := (len - (end + 1 - ofs)) / 0x1_0000_0000_0000_0000;
    assert len - (end + 1 - ofs) == k * 0x1_0000_0000_0000_0000;
    assert k * 0x1_0000_0000_0000_0000 == (k * 0x1_0000_0000) * 0x1_0000_0000;
    var j := (ToInt32(len) - len) / 0x1_0000_0000;
    assert ToInt32(len) - len == j * 0x1_0000_0000;
    assert ToInt32(len) - (end + 1 - ofs) == (j + k * 0x1_0000_0000) * 0x1_0000_0000;
  }

  /** The next chunk iterate reads is the one after those already handed on. */
  lemma IterateAdvance(all: seq<Chunk>, handed: seq<Chunk>, pos: int, missing: nat, size: nat)
    requires all == handed + Chunks(pos, missing)
    requires missing > 0 && size == (if missing < MAX_CHUNK_SIZE then missing else MAX_CHUNK_SIZE)
    ensures all == (handed + [(pos, size)]) + Chunks(pos + size, missing - size)
    ensures |handed| < |all| && all[|handed|] == (pos, size)
    ensures handed <= all && handed + [(pos, size)] <= all
  {
    ChunksStep(pos, missing, size);
    assert all == handed + ([(pos, size)] + Chunks(pos + size, missing - size));
  }

  /** One step of iterate: the first chunk, then the chunks of the rest. */
  lemma ChunksStep(pos: int, missing: nat, size: nat)
    requires missing > 0 && size == (if missing < MAX_CHUNK_SIZE then missing else MAX_CHUNK_SIZE)
    ensures Chunks(pos, missing) == [(pos, size)] + Chunks(pos + size, missing - size)
  {
  }

  /** The attributes after deleting the names in del and then setting those in upd. */
  function ApplyAttrChanges(a: Attrs, upd: Attrs, del: set<string>): (r: Attrs)
    ensures forall n :: n in r <==> n in upd || (n in a && n !in del)
    ensures forall n :: n in upd ==> r[n] == upd[n]
    ensures forall n :: n in r && n !in upd ==> r[n] == a[n]
  {
    (a - del) + upd
  }

  /** The result of delete_obj: the version id reported and the delete-marker flag. */
  datatype DeleteResult = DeleteResult(versionId: string, deleteMarker: bool)

  /** SFSObject: an S3 object of a bucket, with its version (objref) when it has one. */
  class SfsObject {
    const key: ObjKey
    var objref: Object?
    var attrset: Attrs
    var hasAttrs: bool
    var deleteMarker: bool

    constructor (key0: ObjKey, objref0: Object?)
      ensures key == key0 && objref == objref0
      ensures attrset == map[] && !hasAttrs && !deleteMarker
    {
      key := key0;
      objref := objref0;
      attrset := map[];
      hasAttrs := false;
      deleteMarker := false;
    }

    /**
     * SFSReadOp::prepare: a missing or deleted object, or one whose data
     * file does not exist, is ENOENT; otherwise the data file's path.
     */
    method Prepare(dataExists: bool) returns (r: Result<FsPath.Path, Error>)
      requires objref != null ==> objref.Valid()
      ensures r.Err? <==> objref == null || objref.deleted || !dataExists
      ensures r.Err? ==> r.error == ENOENT
      ensures r.Ok? ==> r.value == objref.StoragePath()
    {
      if objref == null || objref.deleted {
        return Err(ENOENT);
      }
      if !dataExists {
        return Err(ENOENT);
      }
      return Ok(objref.StoragePath());
    }

    /**
     * SFSReadOp::get_attr: ENOENT for a missing or deleted object, ENODATA
     * for a missing attribute, otherwise its value.
     */
    method ReadAttr(attrName: string) returns (r: Result<Blob, Error>)
      ensures objref == null || objref.deleted ==> r == Err(ENOENT)
      ensures objref != null && !objref.deleted ==>
                if attrName in objref.attrs then r == Ok(objref.attrs[attrName]) else r == Err(ENODATA)
    {
      if objref == null || objref.deleted {
        return Err(ENOENT);
      }
      var found, value := objref.GetAttr(attrName);
      if !found {
        return Err(ENODATA);
      }
      return Ok(value);
    }

    /**
     * SFSDeleteOp::delete_obj. With a version the bucket's delete_object
     * runs; without one, a versioned bucket and an empty instance create a
     * delete marker for the missing object. On a versioned bucket the
     * result is a delete marker with the new marker's id, or else the key's
     * instance. objref is the version as refresh_meta finds it, and the
     * other parameters are the database's answers, as for
     * SfsTypes.Bucket.DeleteObject.
     */
    method DeleteObj(db: MetadataDb, bucket: Bucket, versionedBucket: bool,
                     markerId: string, markerRowId: nat, markerAdded: bool,
                     lastVersion: Option<Version>, byInstance: Option<Version>, previous: Option<Version>,
                     uuid: UuidPath.Uuid, generated: string, now: int)
      returns (result: DeleteResult)
      modifies this, db, objref
      requires objref != null && !versionedBucket ==> lastVersion.Some?
      requires PathUuid(uuid)
      ensures objref == old(objref) && attrset == old(attrset) && hasAttrs == old(hasAttrs)
      ensures versionedBucket ==>
                && result.deleteMarker && deleteMarker
                && result.versionId == (if objref != null && key.instance == "" && markerAdded then markerId
                                        else if objref == null && key.instance == "" then generated
                                        else key.instance)
      ensures !versionedBucket ==> result == DeleteResult("", false) && deleteMarker == old(deleteMarker)
      ensures objref == null ==>
                if versionedBucket && key.instance == "" then
                  db.requests == old(db.requests)
                                 + [StoreObject(DbObject(uuid, bucket.bucketId, key.name))]
                                 + [InsertVersion(MarkerRow(uuid, generated, now))]
                else db.requests == old(db.requests)
      ensures objref != null && !versionedBucket ==> objref.deleted
    {
      var versionId := key.instance;
      var markerVersionId := "";
      if objref != null {
        markerVersionId := bucket.DeleteObject(db, objref, key, versionedBucket, markerId, markerRowId,
                                               markerAdded, lastVersion, byInstance, previous, now);
      } else if versionedBucket && key.instance == "" {
        versionId := bucket.CreateNonExistingObjectDeleteMarker(db, key, uuid, generated, now);
      }
      result := DeleteResult("", false);
      if versionedBucket {
        result := DeleteResult(versionId, true);
        if markerVersionId != "" {
          result := DeleteResult(markerVersionId, true);
        }
        deleteMarker := true;
      }
    }

    /**
     * set_obj_attrs: the names in delattrs are deleted, then those in
     * setattrs set; the attribute cache takes the result and the version
     * row is flushed.
     */
    method SetObjAttrs(db: MetadataDb, setattrs: Option<Attrs>, delattrs: Option<Attrs>, stored: Version)
      modifies this, objref, db
      requires objref != null && stored.id == objref.versionId
      ensures objref == old(objref)
      ensures objref.attrs == ApplyAttrChanges(old(objref.attrs), SetOf(setattrs), DelOf(delattrs))
      ensures attrset == objref.attrs && hasAttrs && deleteMarker == old(deleteMarker)
      ensures objref.versionId == old(objref.versionId) && objref.deleted == old(objref.deleted)
      ensures db.requests == old(db.requests) + [StoreVersion(stored.(attrs := objref.attrs))]
    {
      var o := objref;
      DeleteAll(o, DelOf(delattrs));
      SetAll(o, SetOf(setattrs));
      attrset := o.attrs;
      hasAttrs := true;
      o.MetadataFlushAttrs(db, stored);
    }

    /**
     * modify_obj_attrs: without a name nothing changes; otherwise the
     * attribute is set, the cache synchronised and the version row flushed.
     */
    method ModifyObjAttrs(db: MetadataDb, attrName: Option<string>, value: Blob, stored: Version)
      returns (r: int)
      modifies this, objref, db
      requires attrName.Some? ==> objref != null && stored.id == objref.versionId
      ensures r == 0 && objref == old(objref)
      ensures attrName.None? ==>
                && db.requests == old(db.requests) && attrset == old(attrset) && hasAttrs == old(hasAttrs)
                && (objref != null ==> objref.attrs == old(objref.attrs))
      ensures attrName.Some? ==>
                && objref.attrs == old(objref.attrs)[attrName.value := value]
                && attrset == objref.attrs && hasAttrs
                && db.requests == old(db.requests) + [StoreVersion(stored.(attrs := objref.attrs))]
    {
      if attrName.None? {
        return 0;
      }
      objref.SetAttr(attrName.value, value);
      attrset := objref.attrs;
      hasAttrs := true;
      objref.MetadataFlushAttrs(db, stored);
      return 0;
    }

    /**
     * delete_obj_attrs: without a name nothing changes; otherwise the
     * attribute is deleted and, only when it was there, the cache is
     * synchronised and the version row flushed.
     */
    method DeleteObjAttrs(db: MetadataDb, attrName: Option<string>, stored: Version)
      returns (r: int)
      modifies this, objref, db
      requires attrName.Some? ==> objref != null && stored.id == objref.versionId
      ensures r == 0 && objref == old(objref)
      ensures attrName.None? ==>
                && db.requests == old(db.requests) && attrset == old(attrset) && hasAttrs == old(hasAttrs)
                && (objref != null ==> objref.attrs == old(objref.attrs))
      ensures attrName.Some? ==> objref.attrs == old(objref.attrs) - {attrName.value}
      ensures attrName.Some? && attrName.value in old(objref.attrs) ==>
                && attrset == objref.attrs && hasAttrs
                && db.requests == old(db.requests) + [StoreVersion(stored.(attrs := objref.attrs))]
      ensures attrName.Some? && attrName.value !in old(objref.attrs) ==>
                db.requests == old(db.requests) && attrset == old(attrset) && hasAttrs == old(hasAttrs)
    {
      if attrName.None? {
        return 0;
      }
      var erased := objref.DelAttr(attrName.value);
      if erased != 0 {
        attrset := objref.attrs;
        hasAttrs := true;
        objref.MetadataFlushAttrs(db, stored);
      }
      return 0;
    }
  }

  /** The attributes to set: none when the argument is absent. */
  function SetOf(setattrs: Option<Attrs>): (r: Attrs)
    ensures setattrs.None? ==> r == map[]
  {
    if setattrs.Some? then setattrs.value else map[]
  }

  /** The names to delete: none when the argument is absent. */
  function DelOf(delattrs: Option<Attrs>): (r: set<string>)
    ensures delattrs.None? ==> r == {}
    ensures delattrs.Some? ==> r == delattrs.value.Keys
  {
    if delattrs.Some? then delattrs.value.Keys else {}
  }

  /** The delattrs loop of set_obj_attrs: del_attr for each name. */
  method DeleteAll(o: Object, names: set<string>)
    modifies o
    ensures o.attrs == old(o.attrs) - names
    ensures o.versionId == old(o.versionId) && o.deleted == old(o.deleted)
  {
    var todo := names;
    while todo != {}
      invariant todo <= names
      invariant o.attrs == old(o.attrs) - (names - todo)
      invariant o.versionId == old(o.versionId) && o.deleted == old(o.deleted)
      decreases |todo|
    {
      var n := Collections.Pick(todo);
      var _ := o.DelAttr(n);
      todo := todo - {n};
    }
  }

  /** The setattrs loop of set_obj_attrs: set_attr for each name. */
  method SetAll(o: Object, update: Attrs)
    modifies o
    ensures o.attrs == old(o.attrs) + update
    ensures o.versionId == old(o.versionId) && o.deleted == old(o.deleted)
  {
    var todo := update.Keys;
    while todo != {}
      invariant todo <= update.Keys
      invariant o.attrs == old(o.attrs) + Restrict(update, update.Keys - todo)
      invariant o.versionId == old(o.versionId) && o.deleted == old(o.deleted)
      decreases |todo|
    {
      var n := Collections.Pick(todo);
      RestrictGrows(old(o.attrs), update, update.Keys - todo, n);
      assert update.Keys - todo + {n} == update.Keys - (todo - {n});
      o.SetAttr(n, update[n]);
      todo := todo - {n};
    }
    assert Restrict(update, update.Keys) == update;
  }

  /** Setting one more name of the update extends the part of it already merged. */
  lemma RestrictGrows(base: Attrs, update: Attrs, done: set<string>, n: string)
    requires n in update
    ensures (base + Restrict(update, done))[n := update[n]] == base + Restrict(update, done + {n})
  {
  }

  /** The entries of m whose names are in ks. */
  function Restrict(m: Attrs, ks: set<string>): (r: Attrs)
    ensures r.Keys == m.Keys * ks
    ensures forall n :: n in r ==> r[n] == m[n]
  {
    map n | n in m.Keys * ks :: m[n]
  }
}
