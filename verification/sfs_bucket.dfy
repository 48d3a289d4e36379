/**
 * The S3 bucket of the SFS driver (driver/sfs/bucket.cc, SFSBucket):
 * listing objects and object versions with prefix and delimiter, the
 * emptiness check and bucket removal, attribute merging, and the objects
 * and multipart uploads it hands out.
 */
module SfsBucket {
  import opened Wrappers
  import opened ConversionUtils
  import opened RgwErrors
  import opened SfsTypes
  import opened SfsStore
  import SO = SfsObject
  import UuidPath
  import Collections
  import VOC = VersionedObjectConversions
  import MC = MultipartConversions

  /** The attribute holding the bucket's access control policy. */
  const RGW_ATTR_ACL: string := "user.rgw.acl"

  predicate HasPrefix(s: string, p: string)
  {
    |p| <= |s| && s[..|p|] == p
  }

  predicate HasSuffix(s: string, p: string)
  {
    |p| <= |s| && s[|s| - |p|..] == p
  }

  /** pat occurs in s at position k. */
  predicate OccursAt(s: string, pat: string, k: int)
  {
    0 <= k && k + |pat| <= |s| && s[k..k + |pat|] == pat
  }

  /** std::string::find(pat, from): the first occurrence at or after from, if any. */
  function Find(s: string, pat: string, from: nat): (r: Option<nat>)
    ensures r.Some? ==> from <= r.value && OccursAt(s, pat, r.value)
    ensures r.Some? ==> forall k :: from <= k < r.value ==> !OccursAt(s, pat, k)
    ensures r.None? ==> forall k :: from <= k ==> !OccursAt(s, pat, k)
    decreases |s| + 1 - from
  {
    if from + |pat| > |s| then None
    else if s[from..from + |pat|] == pat then Some(from)
    else Find(s, pat, from + 1)
  }

  /** ListParams: the requested prefix and delimiter, and whether versions are listed. */
  datatype ListParams = ListParams(prefix: string, delim: string, listVersions: bool)

  /**
   * The common prefix check_add_common_prefix rolls a name into: with a
   * delimiter that occurs in the name at or after the prefix's length, the
   * name up to and including its first such occurrence.
   */
  function CommonPrefix(name: string, params: ListParams): (r: Option<string>)
    ensures r.None? <==> params.delim == "" || forall k :: |params.prefix| <= k ==> !OccursAt(name, params.delim, k)
    ensures r.Some? ==>
              && HasPrefix(name, r.value) && HasSuffix(r.value, params.delim)
              && |params.prefix| + |params.delim| <= |r.value|
              && forall k :: |params.prefix| <= k < |r.value| - |params.delim| ==> !OccursAt(name, params.delim, k)
    ensures r.Some? && HasPrefix(name, params.prefix) ==> HasPrefix(r.value, params.prefix)
  {
    if params.delim == "" then None
    else
      match Find(name, params.delim, |params.prefix|)
      case None => None
      case Some(pos) => Some(name[..pos + |params.delim|])
  }

  /** rgw_bucket_dir_entry flags. */
  datatype Flag = FLAG_VER | FLAG_CURRENT | FLAG_DELETE_MARKER

  /** rgw_bucket_dir_entry: the key, the listed metadata and the flags. */
  datatype DirEntry = DirEntry(
    name: string, instance: string, size: nat, mtime: int, etag: string, owner: MC.Owner, flags: set<Flag>)

  /** ListResults: the entries in order and the common prefixes. */
  datatype ListResults = ListResults(objs: seq<DirEntry>, commonPrefixes: set<string>)

  const EMPTY_RESULTS: ListResults := ListResults([], {})

  /** What a listing reads of an object handed out by get_all. */
  datatype ObjView = ObjView(name: string, instance: string, deleted: bool, versionId: nat,
                             uuid: UuidPath.Uuid, meta: Meta)

  function ViewOf(o: Object): ObjView
    reads o
  {
    ObjView(o.name, o.instance, o.deleted, o.versionId, o.path, o.meta)
  }

  function Views(os: seq<Object>): (vs: seq<ObjView>)
    reads set o | o in os
    ensures |vs| == |os|
    ensures forall i :: 0 <= i < |os| ==> vs[i] == ViewOf(os[i])
  {
    if |os| == 0 then [] else Views(os[..|os| - 1]) + [ViewOf(os[|os| - 1])]
  }

  /** One more object extends the views by that object's view. */
  lemma ViewsSnoc(os: seq<Object>, i: nat)
    requires i < |os|
    ensures Views(os[..i + 1]) == Views(os[..i]) + [ViewOf(os[i])]
  {
    assert os[..i + 1][..i] == os[..i];
  }

  /** The entry list gives an object version: name, instance, size, mtime, etag, owner. */
  function PlainEntry(v: ObjView, owner: MC.Owner): (e: DirEntry)
    ensures e.name == v.name && e.instance == v.instance && e.size == v.meta.size
    ensures e.mtime == v.meta.mtime && e.etag == v.meta.etag && e.owner == owner && e.flags == {}
  {
    DirEntry(v.name, v.instance, v.meta.size, v.meta.mtime, v.meta.etag, owner, {})
  }

  /** list shows the object as an entry: it has the prefix, is not deleted and is not rolled up. */
  predicate Listed(v: ObjView, params: ListParams)
  {
    HasPrefix(v.name, params.prefix) && !v.deleted && CommonPrefix(v.name, params).None?
  }

  /** list rolls the object into a common prefix. */
  predicate Grouped(v: ObjView, params: ListParams)
  {
    HasPrefix(v.name, params.prefix) && !v.deleted && CommonPrefix(v.name, params).Some?
  }

  /** One object of list's loop. */
  function ListStep(acc: ListResults, v: ObjView, params: ListParams, owner: MC.Owner): ListResults
  {
    if !HasPrefix(v.name, params.prefix) || v.deleted then acc
    else match CommonPrefix(v.name, params)
      case Some(p) => acc.(commonPrefixes := acc.commonPrefixes + {p})
      case None => acc.(objs := acc.objs + [PlainEntry(v, owner)])
  }

  /**
   * What list gives for the objects in order, one ListStep each; ListingSpec
   * states what that promises.
   */
  function Listing(vs: seq<ObjView>, params: ListParams, owner: MC.Owner): (r: ListResults)
    ensures |r.objs| <= |vs|
  {
    if |vs| == 0 then EMPTY_RESULTS
    else ListStep(Listing(vs[..|vs| - 1], params, owner), vs[|vs| - 1], params, owner)
  }

  /** What list promises of its results for the objects vs, in order. */
  predicate ListingSound(vs: seq<ObjView>, params: ListParams, owner: MC.Owner, r: ListResults)
  {
    && (forall i :: 0 <= i < |r.objs| ==>
          HasPrefix(r.objs[i].name, params.prefix) && CommonPrefix(r.objs[i].name, params).None?)
    && (forall i :: 0 <= i < |vs| && Listed(vs[i], params) ==> PlainEntry(vs[i], owner) in r.objs)
    && (forall i :: 0 <= i < |vs| && Grouped(vs[i], params) ==>
          CommonPrefix(vs[i].name, params).value in r.commonPrefixes)
    && (forall p :: p in r.commonPrefixes ==> HasPrefix(p, params.prefix) && HasSuffix(p, params.delim))
  }

  /**
   * Every entry has the prefix and is not rolled up; every listed object
   * has its entry and every rolled-up one its common prefix; every common
   * prefix starts with the prefix and ends with the delimiter.
   */
  lemma {:induction false} ListingSpec(vs: seq<ObjView>, params: ListParams, owner: MC.Owner)
    ensures ListingSound(vs, params, owner, Listing(vs, params, owner))
  {
    if |vs| > 0 {
      var init := vs[..|vs| - 1];
      ListingSpec(init, params, owner);
      assert init + [vs[|vs| - 1]] == vs;
      ListStepSound(init, vs[|vs| - 1], params, owner, Listing(init, params, owner));
    }
  }

  /** One step of list keeps its promises for the objects seen so far. */
  lemma ListStepSound(vs: seq<ObjView>, v: ObjView, params: ListParams, owner: MC.Owner, acc: ListResults)
    requires ListingSound(vs, params, owner, acc)
    ensures ListingSound(vs + [v], params, owner, ListStep(acc, v, params, owner))
  {
    var r := ListStep(acc, v, params, owner);
    var ws := vs + [v];
    assert forall i :: 0 <= i < |acc.objs| ==> r.objs[i] == acc.objs[i];
    assert forall i :: 0 <= i < |vs| ==> ws[i] == vs[i];
    assert ws[|vs|] == v;
  }

  /** A version's entry in list_versions on a versioned bucket. */
  function VersionEntry(name: string, current: nat, v: Version, owner: MC.Owner): (e: DirEntry)
    ensures e.name == name && e.instance == v.versionId && e.size == v.size && e.mtime == v.createTime
    ensures e.etag == v.etag && e.owner == owner
    ensures FLAG_VER in e.flags
    ensures FLAG_CURRENT in e.flags <==> v.id == current
    ensures FLAG_DELETE_MARKER in e.flags <==> v.versionType == DELETE_MARKER
    ensures e.flags <= {FLAG_VER, FLAG_CURRENT, FLAG_DELETE_MARKER}
  {
    DirEntry(name, v.versionId, v.size, v.createTime, v.etag, owner,
             {FLAG_VER} + (if v.id == current then {FLAG_CURRENT} else {})
             + (if v.versionType == DELETE_MARKER then {FLAG_DELETE_MARKER} else {}))
  }

  /** The entries of an object's versions: the COMMITTED ones, in order. */
  function VersionEntries(name: string, current: nat, vers: seq<Version>, owner: MC.Owner): (r: seq<DirEntry>)
    ensures |r| <= |vers|
    ensures forall i :: 0 <= i < |r| ==> r[i].name == name && FLAG_VER in r[i].flags
    ensures forall i :: 0 <= i < |vers| && vers[i].state == VOC.COMMITTED ==>
              VersionEntry(name, current, vers[i], owner) in r
  {
    if |vers| == 0 then []
    else
      var last := vers[|vers| - 1];
      VersionEntries(name, current, vers[..|vers| - 1], owner)
      + (if last.state == VOC.COMMITTED then [VersionEntry(name, current, last, owner)] else [])
  }

  /** A non-versioned bucket lists an object once, without instance, as current. */
  function UnversionedEntry(v: ObjView, owner: MC.Owner): (e: DirEntry)
    ensures e.name == v.name && e.instance == "" && e.flags == {FLAG_VER, FLAG_CURRENT}
    ensures e.size == v.meta.size && e.mtime == v.meta.mtime && e.etag == v.meta.etag && e.owner == owner
  {
    DirEntry(v.name, "", v.meta.size, v.meta.mtime, v.meta.etag, owner, {FLAG_VER, FLAG_CURRENT})
  }

  /** list_versions shows the object's versions: it has the prefix and is not rolled up. */
  predicate VersionsListed(v: ObjView, params: ListParams)
  {
    HasPrefix(v.name, params.prefix) && CommonPrefix(v.name, params).None?
  }

  /** One object of list_versions' loop; versionsOf answers get_versioned_objects. */
  function VersionsStep(acc: ListResults, v: ObjView, params: ListParams, versioned: bool,
                        versionsOf: UuidPath.Uuid -> seq<Version>, owner: MC.Owner): ListResults
  {
    if !HasPrefix(v.name, params.prefix) then acc
    else match CommonPrefix(v.name, params)
      case Some(p) => acc.(commonPrefixes := acc.commonPrefixes + {p})
      case None =>
        if versioned then acc.(objs := acc.objs + VersionEntries(v.name, v.versionId, versionsOf(v.uuid), owner))
        else acc.(objs := acc.objs + [UnversionedEntry(v, owner)])
  }

  /**
   * What list_versions gives for the objects in order, one VersionsStep
   * each; deleted objects are not skipped. VersionsListingSpec states what
   * that promises.
   */
  function VersionsListing(vs: seq<ObjView>, params: ListParams, versioned: bool,
                           versionsOf: UuidPath.Uuid -> seq<Version>, owner: MC.Owner): ListResults
  {
    if |vs| == 0 then EMPTY_RESULTS
    else
      var acc := VersionsListing(vs[..|vs| - 1], params, versioned, versionsOf, owner);
      var v := vs[|vs| - 1];
      VersionsStep(acc, v, params, versioned, versionsOf, owner)
  }

  /** What list_versions promises of its results for the objects vs, in order. */
  predicate VersionsListingSound(vs: seq<ObjView>, params: ListParams, versioned: bool,
                                 versionsOf: UuidPath.Uuid -> seq<Version>, owner: MC.Owner, r: ListResults)
  {
    && (forall i :: 0 <= i < |r.objs| ==>
          && HasPrefix(r.objs[i].name, params.prefix) && CommonPrefix(r.objs[i].name, params).None?
          && FLAG_VER in r.objs[i].flags)
    && (!versioned ==> forall i :: 0 <= i < |r.objs| ==> r.objs[i].instance == "" && FLAG_CURRENT in r.objs[i].flags)
    && (!versioned ==> forall i :: 0 <= i < |vs| && VersionsListed(vs[i], params) ==> UnversionedEntry(vs[i], owner) in r.objs)
    && (versioned ==> forall i, j :: 0 <= i < |vs| && VersionsListed(vs[i], params)
                                     && 0 <= j < |versionsOf(vs[i].uuid)| && versionsOf(vs[i].uuid)[j].state == VOC.COMMITTED ==>
                                     VersionEntry(vs[i].name, vs[i].versionId, versionsOf(vs[i].uuid)[j], owner) in r.objs)
    && (forall i :: 0 <= i < |vs| && HasPrefix(vs[i].name, params.prefix) && CommonPrefix(vs[i].name, params).Some? ==>
          CommonPrefix(vs[i].name, params).value in r.commonPrefixes)
  }

  /**
   * Every entry has the prefix, is not rolled up and is flagged VER; on a
   * non-versioned bucket each shown object has exactly its one current
   * entry without instance, and on a versioned one every COMMITTED
   * version has its entry; every rolled-up object has its common prefix.
   */
  lemma {:induction false} VersionsListingSpec(vs: seq<ObjView>, params: ListParams, versioned: bool,
                                               versionsOf: UuidPath.Uuid -> seq<Version>, owner: MC.Owner)
    ensures VersionsListingSound(vs, params, versioned, versionsOf, owner, VersionsListing(vs, params, versioned, versionsOf, owner))
  {
    if |vs| > 0 {
      var init := vs[..|vs| - 1];
      VersionsListingSpec(init, params, versioned, versionsOf, owner);
      assert init + [vs[|vs| - 1]] == vs;
      VersionsStepSound(init, vs[|vs| - 1], params, versioned, versionsOf, owner,
                        VersionsListing(init, params, versioned, versionsOf, owner));
    }
  }

  /** One step of list_versions keeps its promises for the objects seen so far. */
  lemma VersionsStepSound(vs: seq<ObjView>, v: ObjView, params: ListParams, versioned: bool,
                          versionsOf: UuidPath.Uuid -> seq<Version>, owner: MC.Owner, acc: ListResults)
    requires VersionsListingSound(vs, params, versioned, versionsOf, owner, acc)
    ensures VersionsListingSound(vs + [v], params, versioned, versionsOf, owner,
                                 VersionsStep(acc, v, params, versioned, versionsOf, owner))
  {
    var r := VersionsStep(acc, v, params, versioned, versionsOf, owner);
    var ws := vs + [v];
    assert forall i :: 0 <= i < |acc.objs| ==> r.objs[i] == acc.objs[i];
    assert forall i :: 0 <= i < |vs| ==> ws[i] == vs[i];
    assert ws[|vs|] == v;
  }

  /** VersionsListing takes one more object by one more step. */
  lemma VersionsListingSnoc(vs: seq<ObjView>, v: ObjView, params: ListParams, versioned: bool,
                            versionsOf: UuidPath.Uuid -> seq<Version>, owner: MC.Owner)
    ensures VersionsListing(vs + [v], params, versioned, versionsOf, owner)
            == VersionsStep(VersionsListing(vs, params, versioned, versionsOf, owner), v, params, versioned, versionsOf, owner)
  {
    assert (vs + [v])[..|vs|] == vs;
  }

  /** VersionsListing over the first i + 1 views is one VersionsStep past the first i. */
  lemma VersionsListingPrefix(vs: seq<ObjView>, i: nat, params: ListParams, versioned: bool,
                              versionsOf: UuidPath.Uuid -> seq<Version>, owner: MC.Owner)
    requires i < |vs|
    ensures VersionsListing(vs[..i + 1], params, versioned, versionsOf, owner)
            == VersionsStep(VersionsListing(vs[..i], params, versioned, versionsOf, owner), vs[i], params, versioned, versionsOf, owner)
  {
    assert vs[..i + 1] == vs[..i] + [vs[i]];
    VersionsListingSnoc(vs[..i], vs[i], params, versioned, versionsOf, owner);
  }

  /** Some object's last version is not a delete marker. */
  predicate HasLiveObject(lastTypes: seq<VersionType>)
  {
    exists i :: 0 <= i < |lastTypes| && lastTypes[i] != DELETE_MARKER
  }

  /**
   * The scan of check_empty: ENOTEMPTY exactly when some object's last
   * version is not a delete marker. lastTypes answers
   * list_last_versioned_objects.
   */
  method CheckEmpty(lastTypes: seq<VersionType>) returns (r: Result<(), Error>)
    ensures r.Err? <==> HasLiveObject(lastTypes)
    ensures r.Err? ==> r.error == ENOTEMPTY
  {
    var i := 0;
    while i < |lastTypes|
      invariant i <= |lastTypes|
      invariant forall k :: 0 <= k < i ==> lastTypes[k] == DELETE_MARKER
    {
      if lastTypes[i] != DELETE_MARKER {
        return Err(ENOTEMPTY);
      }
      i := i + 1;
    }
    return Ok(());
  }

  /**
   * check_empty looks the last versions up under the bucket's name, while
   * objects are stored under the bucket's id (get_all lists them by id),
   * and a bucket's id is its name followed by a dot and the creation time.
   * So a bucket holding a live object, with nothing stored under its name,
   * passes the check as written, and fails the check by id.
   */
  lemma CheckEmptyByNameMissesObjects(name: string, ts: Timespec)
    ensures var id := BucketId(name, ts);
            var lastTypesOf := (k: string) => if k == id then [REGULAR] else [];
            && id != name
            && HasLiveObject(lastTypesOf(id))
            && !HasLiveObject(lastTypesOf(name))
  {
    var id := BucketId(name, ts);
    assert |id| > |name|;
    var lastTypesOf := (k: string) => if k == id then [REGULAR] else [];
    assert lastTypesOf(id)[0] != DELETE_MARKER;
  }

  /** get_multipart_upload: the given upload id, or a generated one when none or an empty one is given. */
  function MultipartUploadId(uploadId: Option<string>, generated: string): (id: string)
    ensures uploadId.Some? && uploadId.value != "" ==> id == uploadId.value
    ensures uploadId.None? || uploadId.value == "" ==> id == generated
  {
    var id := if uploadId.Some? then uploadId.value else "";
    if id == "" then generated else id
  }

  /** SFSBucket: the S3 bucket over the store's bucket and its record. */
  class SFSBucket {
    const store: SFStore
    const bucket: Bucket
    const owner: MC.Owner
    var info: BucketRecord
    var attrs: Attrs
    var acls: Blob

    constructor (store0: SFStore, bucket0: Bucket, owner0: MC.Owner, info0: BucketRecord)
      ensures store == store0 && bucket == bucket0 && owner == owner0 && info == info0
      ensures attrs == info0.attrs
      ensures RGW_ATTR_ACL in info0.attrs ==> acls == info0.attrs[RGW_ATTR_ACL]
      ensures RGW_ATTR_ACL !in info0.attrs ==> acls == []
    {
      store := store0;
      bucket := bucket0;
      owner := owner0;
      info := info0;
      attrs := info0.attrs;
      acls := if RGW_ATTR_ACL in info0.attrs then info0.attrs[RGW_ATTR_ACL] else [];
    }

    /**
     * get_object: the object of the key, keeping the requested instance
     * (so a delete stays a delete-marker request), or a placeholder for an
     * unknown key; found is the database's answer for the key.
     */
    method GetObject(key: ObjKey, found: Option<Version>) returns (r: SO.SfsObject)
      requires found.Some? ==> PathUuid(found.value.objectId)
      ensures fresh(r) && r.key == key && r.objref == null
    {
      var got := bucket.Get(key, found);
      if got.Ok? {
        var objref := got.value;
        objref.instance := key.instance;
        r := new SO.SfsObject(ObjKey(objref.name, objref.instance), null);
      } else {
        r := new SO.SfsObject(key, null);
      }
    }

    /**
     * list: with list_versions set, list_versions; otherwise one pass over
     * the objects get_all hands out, as Listing states.
     */
    method List(objs: seq<Object>, params: ListParams, versionsOf: UuidPath.Uuid -> seq<Version>)
      returns (r: ListResults)
      ensures params.listVersions ==> r == VersionsListing(Views(objs), params, info.versioningEnabled, versionsOf, owner)
      ensures !params.listVersions ==> r == Listing(Views(objs), params, owner)
    {
      if params.listVersions {
        r := ListVersions(objs, params, versionsOf);
        return;
      }
      r := EMPTY_RESULTS;
      var i := 0;
      while i < |objs|
        invariant i <= |objs|
        invariant r == Listing(Views(objs[..i]), params, owner)
      {
        ViewsSnoc(objs, i);
        r := ListStep(r, ViewOf(objs[i]), params, owner);
        i := i + 1;
      }
      assert objs[..|objs|] == objs;
    }

    /** list_versions: one pass over the views of the objects get_all hands
     *  out, as VersionsListing states. */
    method ListVersions(objs: seq<Object>, params: ListParams, versionsOf: UuidPath.Uuid -> seq<Version>)
      returns (r: ListResults)
      ensures r == VersionsListing(Views(objs), params, info.versioningEnabled, versionsOf, owner)
    {
      var vs, versioned, own := Views(objs), info.versioningEnabled, owner;
      r := EMPTY_RESULTS;
      var i := 0;
      while i < |vs|
        invariant i <= |vs|
        invariant r == VersionsListing(vs[..i], params, versioned, versionsOf, own)
      {
        VersionsListingPrefix(vs, i, params, versioned, versionsOf, own);
        r := ListVersionsStep(r, vs[i], params, versioned, versionsOf, own);
        i := i + 1;
      }
      assert vs[..|vs|] == vs;
    }

    /** One object of list_versions' loop, as VersionsStep states: v is
     *  the object's view, versioned the bucket's versioning flag and own
     *  the bucket's owner. */
    method ListVersionsStep(acc: ListResults, v: ObjView, params: ListParams, versioned: bool,
                            versionsOf: UuidPath.Uuid -> seq<Version>, own: MC.Owner)
      returns (r: ListResults)
      ensures r == VersionsStep(acc, v, params, versioned, versionsOf, own)
    {
      r := acc;
      if HasPrefix(v.name, params.prefix) {
        var cp := CommonPrefix(v.name, params);
        if cp.Some? {
          r := r.(commonPrefixes := r.commonPrefixes + {cp.value});
        } else if versioned {
          var entries := ListObjectVersions(v.name, v.versionId, versionsOf(v.uuid), own);
          r := r.(objs := r.objs + entries);
        } else {
          r := r.(objs := r.objs + [UnversionedEntry(v, own)]);
        }
      }
    }

    /**
     * check_empty as written: the last versions are looked up under the
     * bucket's name. lastTypesOf answers list_last_versioned_objects for a
     * bucket id.
     */
    method CheckEmptyAsWritten(lastTypesOf: string -> seq<VersionType>) returns (r: Result<(), Error>)
      ensures r.Err? <==> HasLiveObject(lastTypesOf(bucket.name))
      ensures r.Err? ==> r.error == ENOTEMPTY
    {
      r := CheckEmpty(lastTypesOf(bucket.name));
    }

    /**
     * check_empty as intended: the last versions are looked up under the
     * bucket's id, where its objects are stored, so ENOTEMPTY is given
     * exactly when one of the bucket's own objects is live.
     */
    method CheckEmptyById(lastTypesOf: string -> seq<VersionType>) returns (r: Result<(), Error>)
      ensures r.Err? <==> HasLiveObject(lastTypesOf(bucket.bucketId))
      ensures r.Err? ==> r.error == ENOTEMPTY
    {
      r := CheckEmpty(lastTypesOf(bucket.bucketId));
    }

    /**
     * remove_bucket: without delete_children a bucket that is not empty
     * gives ENOENT. Otherwise the multipart uploads are aborted (a missing
     * bucket there is ENOENT and any other failure -1), and the bucket's
     * record, when the table has it, is stored flagged deleted and the
     * bucket leaves the map; a missing record is ENOENT. lastTypesOf and
     * abortResult are the answers of the queries; the emptiness check looks
     * under the bucket's id (CheckEmptyById).
     */
    method RemoveBucket(deleteChildren: bool, lastTypesOf: string -> seq<VersionType>, abortResult: Option<Error>)
      returns (r: Result<(), Error>)
      modifies store
      requires store.Keyed()
      ensures store.Keyed()
      ensures !deleteChildren && HasLiveObject(lastTypesOf(bucket.bucketId)) ==>
                r == Err(ENOENT) && store.records == old(store.records) && store.buckets == old(store.buckets)
      ensures r.Ok? <==>
                && (deleteChildren || !HasLiveObject(lastTypesOf(bucket.bucketId)))
                && abortResult.None? && bucket.bucketId in old(store.records)
      ensures r.Ok? ==>
                && store.records == old(store.records)[bucket.bucketId := old(store.records)[bucket.bucketId].(deleted := true)]
                && store.buckets == old(store.buckets) - {bucket.name}
      ensures r.Err? ==> store.records == old(store.records) && store.buckets == old(store.buckets)
      ensures r.Err? ==> r.error == ENOENT || r.error == EPERM
      ensures r == Err(EPERM) <==>
                && (deleteChildren || !HasLiveObject(lastTypesOf(bucket.bucketId)))
                && abortResult.Some? && abortResult.value != ERR_NO_SUCH_BUCKET
    {
      if !deleteChildren {
        var empty := CheckEmptyById(lastTypesOf);
        if empty.Err? {
          return Err(ENOENT);
        }
      }
      if abortResult.Some? {
        if abortResult.value == ERR_NO_SUCH_BUCKET {
          return Err(ENOENT);
        }
        return Err(EPERM);
      }
      if bucket.bucketId !in store.records {
        return Err(ENOENT);
      }
      var rec := store.records[bucket.bucketId];
      store.StoreBucket(rec.(deleted := true));
      store.DeleteBucket(bucket.name);
      return Ok(());
    }

    /**
     * merge_and_store_attrs: the bucket's attributes become new_attrs, and
     * a supplied ACL attribute becomes the bucket's ACL. The bucket's
     * record is stored with them and the bucket map rebuilt from the
     * records the table then returns (existing).
     */
    method MergeAndStoreAttrs(newAttrs: Attrs, existing: seq<BucketRecord>)
      modifies this, store
      requires store.Keyed()
      requires ListsRecords(existing, store.records[info.bucketId := info.(attrs := newAttrs)])
      ensures store.Keyed()
      ensures attrs == newAttrs && info == old(info)
      ensures RGW_ATTR_ACL in newAttrs ==> acls == newAttrs[RGW_ATTR_ACL]
      ensures RGW_ATTR_ACL !in newAttrs ==> acls == old(acls)
      ensures store.records == old(store.records)[info.bucketId := info.(attrs := newAttrs)]
      ensures forall n :: n in store.buckets <==> LastNamed(existing, n).Some?
    {
      MergeAttrs(newAttrs);
      store.StoreBucket(info.(attrs := attrs));
      store.RefreshBuckets(existing);
    }

    /** The merge of merge_and_store_attrs: set every new attribute, then drop every old one not among them. */
    method MergeAttrs(newAttrs: Attrs)
      modifies this
      ensures attrs == newAttrs && info == old(info)
      ensures RGW_ATTR_ACL in newAttrs ==> acls == newAttrs[RGW_ATTR_ACL]
      ensures RGW_ATTR_ACL !in newAttrs ==> acls == old(acls)
    {
      var todo := newAttrs.Keys;
      while todo != {}
        invariant todo <= newAttrs.Keys && info == old(info)
        invariant forall n :: n in newAttrs && n !in todo ==> n in attrs && attrs[n] == newAttrs[n]
        invariant forall n :: n in attrs ==> n in old(attrs) || n in newAttrs
        invariant RGW_ATTR_ACL in newAttrs && RGW_ATTR_ACL !in todo ==> acls == newAttrs[RGW_ATTR_ACL]
        invariant RGW_ATTR_ACL !in newAttrs || RGW_ATTR_ACL in todo ==> acls == old(acls)
        decreases |todo|
      {
        var n := Collections.Pick(todo);
        attrs := attrs[n := newAttrs[n]];
        if n == RGW_ATTR_ACL {
          acls := newAttrs[n];
        }
        todo := todo - {n};
      }
      attrs := map n | n in attrs && n in newAttrs :: attrs[n];
    }
  }

  /** The inner loop of list_versions: an entry for each COMMITTED version, in order. */
  method ListObjectVersions(name: string, current: nat, vers: seq<Version>, owner: MC.Owner)
    returns (r: seq<DirEntry>)
    ensures r == VersionEntries(name, current, vers, owner)
  {
    r := [];
    var j := 0;
    while j < |vers|
      invariant j <= |vers|
      invariant r == VersionEntries(name, current, vers[..j], owner)
    {
      assert vers[..j + 1][..j] == vers[..j];
      if vers[j].state == VOC.COMMITTED {
        r := r + [VersionEntry(name, current, vers[j], owner)];
      }
      j := j + 1;
    }
    assert vers[..|vers|] == vers;
  }
}
