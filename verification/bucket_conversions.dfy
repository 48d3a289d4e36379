/**
 * Bucket record conversions of the SFS store
 * (store/sfs/sqlite/buckets/bucket_conversions.cc): the bucket information
 * the gateway works with and the database row it is stored as.
 */
module SfsBucketConversions {
  import opened Wrappers
  import opened ConversionUtils

  /**
   * DBOPBucketInfo: the fields of RGWBucketInfo the conversion touches, with
   * the quota of type Q, the creation time of type T and the attributes of
   * type A, plus the deleted flag.
   */
  datatype BucketInfo<Q, T, A> = BucketInfo(
    name: string, tenant: string, marker: string, bucketId: string, owner: UserId,
    flags: U32, zonegroup: string, quota: Q, creationTime: T,
    placementName: string, placementStorageClass: string, attrs: A, deleted: bool)

  /** DBBucket: the name, owner and deleted flag are plain columns, the rest optional. */
  datatype DbBucket = DbBucket(
    bucketName: string, tenant: Option<string>, marker: Option<string>, bucketId: Option<string>,
    ownerId: string, flags: Option<U32>, zoneGroup: Option<string>, quota: Option<Blob>,
    creationTime: Option<Blob>, placementName: Option<string>, placementStorageClass: Option<string>,
    bucketAttrs: Option<Blob>, deleted: bool)

  /** An encoder and decoder for one blob column. */
  datatype BlobCodec<!T> = BlobCodec(enc: T -> Blob, dec: Blob -> T)

  ghost predicate Sound<T(!new)>(c: BlobCodec<T>)
  {
    RoundTrips(c.enc, c.dec)
  }

  /** A default-constructed bucket's text fields are empty. */
  predicate StringDefaultsEmpty<Q, T, A>(d: BucketInfo<Q, T, A>)
  {
    d.tenant == "" && d.marker == "" && d.owner == UserId("", "", "") && d.bucketId == "" && d.zonegroup == ""
    && d.placementName == "" && d.placementStorageClass == ""
  }

  function Str(c: string): string
  {
    c
  }

  function Flags(c: U32): U32
  {
    c
  }

  /**
   * get_rgw_bucket: starting from the default-constructed bucket d, each
   * present column overwrites its field (blobs decoded); the name, the
   * owner's id and the deleted flag are always copied, the owner's tenant
   * and namespace stay the default's.
   */
  function GetRgwBucket<Q, T, A>(b: DbBucket, d: BucketInfo<Q, T, A>,
                                 cq: BlobCodec<Q>, ct: BlobCodec<T>, ca: BlobCodec<A>): (r: BucketInfo<Q, T, A>)
    ensures r.name == b.bucketName && r.deleted == b.deleted
    ensures r.owner == d.owner.(id := b.ownerId)
    ensures b.tenant.Some? ==> r.tenant == b.tenant.value
    ensures b.tenant.None? ==> r.tenant == d.tenant
    ensures b.flags.Some? ==> r.flags == b.flags.value
    ensures b.flags.None? ==> r.flags == d.flags
    ensures b.quota.Some? ==> r.quota == cq.dec(b.quota.value)
    ensures b.quota.None? ==> r.quota == d.quota
    ensures b.bucketAttrs.Some? ==> r.attrs == ca.dec(b.bucketAttrs.value)
    ensures b.bucketAttrs.None? ==> r.attrs == d.attrs
  {
    BucketInfo(
      b.bucketName,
      AssignOptionalValue(b.tenant, d.tenant, Str),
      AssignOptionalValue(b.marker, d.marker, Str),
      AssignOptionalValue(b.bucketId, d.bucketId, Str),
      d.owner.(id := b.ownerId),
      AssignOptionalValue(b.flags, d.flags, Flags),
      AssignOptionalValue(b.zoneGroup, d.zonegroup, Str),
      AssignOptionalValue(b.quota, d.quota, cq.dec),
      AssignOptionalValue(b.creationTime, d.creationTime, ct.dec),
      AssignOptionalValue(b.placementName, d.placementName, Str),
      AssignOptionalValue(b.placementStorageClass, d.placementStorageClass, Str),
      AssignOptionalValue(b.bucketAttrs, d.attrs, ca.dec),
      b.deleted)
  }

  /**
   * get_db_bucket: empty text fields leave their column unset, the blob
   * fields are always encoded, the flags always stored; of the owner only
   * the id is stored.
   */
  function GetDbBucket<Q, T, A>(x: BucketInfo<Q, T, A>,
                                cq: BlobCodec<Q>, ct: BlobCodec<T>, ca: BlobCodec<A>): (r: DbBucket)
    ensures r.bucketName == x.name && r.ownerId == x.owner.id && r.deleted == x.deleted
    ensures r.tenant.None? <==> x.tenant == ""
    ensures r.flags == Some(x.flags)
    ensures r.quota == Some(cq.enc(x.quota)) && r.bucketAttrs == Some(ca.enc(x.attrs))
    ensures r.creationTime == Some(ct.enc(x.creationTime))
  {
    DbBucket(
      x.name,
      AssignDbString(x.tenant, None),
      AssignDbString(x.marker, None),
      AssignDbString(x.bucketId, None),
      x.owner.id,
      Some(x.flags),
      AssignDbString(x.zonegroup, None),
      AssignDbBlob(x.quota, cq.enc),
      AssignDbBlob(x.creationTime, ct.enc),
      AssignDbString(x.placementName, None),
      AssignDbString(x.placementStorageClass, None),
      AssignDbBlob(x.attrs, ca.enc),
      x.deleted)
  }

  /** A row with only its plain columns set. */
  function EmptyRow(name: string, owner: string, deleted: bool): (r: DbBucket)
    ensures r.bucketName == name && r.ownerId == owner && r.deleted == deleted
  {
    DbBucket(name, None, None, None, owner, None, None, None, None, None, None, None, deleted)
  }

  /** Missing optional columns leave the defaults in place. */
  lemma AbsentColumnsKeepDefaults<Q, T, A>(name: string, owner: string, deleted: bool, d: BucketInfo<Q, T, A>,
                                           cq: BlobCodec<Q>, ct: BlobCodec<T>, ca: BlobCodec<A>)
    ensures GetRgwBucket(EmptyRow(name, owner, deleted), d, cq, ct, ca)
            == d.(name := name, owner := d.owner.(id := owner), deleted := deleted)
  {
  }

  /** Storing a bucket whose owner has no tenant or namespace and reading it back gives the same bucket. */
  lemma BucketRoundTrip<Q(!new), T(!new), A(!new)>(x: BucketInfo<Q, T, A>, d: BucketInfo<Q, T, A>,
                                                   cq: BlobCodec<Q>, ct: BlobCodec<T>, ca: BlobCodec<A>)
    requires Sound(cq) && Sound(ct) && Sound(ca)
    requires StringDefaultsEmpty(d)
    requires x.owner.tenant == "" && x.owner.ns == ""
    ensures GetRgwBucket(GetDbBucket(x, cq, ct, ca), d, cq, ct, ca) == x
  {
    BlobRoundTrip(x.quota, cq.enc, cq.dec);
    BlobRoundTrip(x.creationTime, ct.enc, ct.dec);
    BlobRoundTrip(x.attrs, ca.enc, ca.dec);
  }

  /**
   * Without empty defaults the round trip fails: a bucket whose tenant is
   * empty reads back with the default's tenant.
   */
  /**
   * The owner's tenant and namespace do not survive the row: the bucket
   * reads back with the default's, so over empty defaults an owner with
   * either set comes back as a different owner.
   */
  lemma OwnerTenantAndNamespaceLost<Q, T, A>(x: BucketInfo<Q, T, A>, d: BucketInfo<Q, T, A>,
                                             cq: BlobCodec<Q>, ct: BlobCodec<T>, ca: BlobCodec<A>)
    requires StringDefaultsEmpty(d)
    ensures var y := GetRgwBucket(GetDbBucket(x, cq, ct, ca), d, cq, ct, ca);
            && y.owner == UserId("", x.owner.id, "")
            && (y.owner == x.owner <==> x.owner.tenant == "" && x.owner.ns == "")
  {
  }

  lemma EmptyTenantReadsDefault<Q, T, A>(x: BucketInfo<Q, T, A>, d: BucketInfo<Q, T, A>,
                                         cq: BlobCodec<Q>, ct: BlobCodec<T>, ca: BlobCodec<A>)
    requires x.tenant == ""
    ensures GetRgwBucket(GetDbBucket(x, cq, ct, ca), d, cq, ct, ca).tenant == d.tenant
  {
  }
}
