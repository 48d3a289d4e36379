/**
 * Multipart upload record conversions of the SFS driver
 * (driver/sfs/sqlite/buckets/multipart_conversions.cc): the upload as the
 * driver holds it and the database row it is stored as.
 */
module MultipartConversions {
  import opened ConversionUtils
  import opened MultipartTypes
  import UuidPath

  /** ACLOwner: the owner's user and display name. */
  datatype Owner = Owner(id: UserId, displayName: string)

  /** The owner a row reads back as: only the user id and display name are stored. */
  function RowOwner(ownerId: string, displayName: string): (o: Owner)
    ensures o.id.id == ownerId && o.displayName == displayName
    ensures o.id.tenant == "" && o.id.ns == ""
  {
    Owner(UserId("", ownerId, ""), displayName)
  }

  /** rgw_placement_rule: placement name and storage class. */
  datatype Placement = Placement(name: string, storageClass: string)

  /** DBOPMultipart: the upload, attributes of type A; times are clock values. */
  datatype OpMultipart<A> = OpMultipart(
    id: int, bucketId: string, uploadId: string, state: MultipartState, stateChangeTime: int,
    objectName: string, objectUuid: UuidPath.Uuid, metaStr: string,
    owner: Owner, mtime: int, attrs: A, placement: Placement)

  /** DBMultipart: the owner and placement flattened, the attributes a blob. */
  datatype DbMultipart = DbMultipart(
    id: int, bucketId: string, uploadId: string, state: MultipartState, stateChangeTime: int,
    objectName: string, objectUuid: UuidPath.Uuid, metaStr: string,
    ownerId: string, ownerDisplayName: string, mtime: int, attrs: Blob,
    placementName: string, placementStorageClass: string)

  /** The scalar upload fields agree between the two forms. */
  predicate SameScalars<A>(x: OpMultipart<A>, r: DbMultipart)
  {
    && r.id == x.id && r.bucketId == x.bucketId && r.uploadId == x.uploadId
    && r.state == x.state && r.stateChangeTime == x.stateChangeTime
    && r.objectName == x.objectName && r.objectUuid == x.objectUuid
    && r.metaStr == x.metaStr && r.mtime == x.mtime
  }

  /**
   * get_db_multipart: the owner and placement are flattened (of the owner's
   * user only the id is kept) and the attributes encoded.
   */
  function GetDbMultipart<A>(x: OpMultipart<A>, enc: A -> Blob): (r: DbMultipart)
    ensures SameScalars(x, r)
    ensures r.ownerId == x.owner.id.id && r.ownerDisplayName == x.owner.displayName
    ensures r.placementName == x.placement.name && r.placementStorageClass == x.placement.storageClass
    ensures r.attrs == enc(x.attrs)
  {
    DbMultipart(x.id, x.bucketId, x.uploadId, x.state, x.stateChangeTime, x.objectName,
                x.objectUuid, x.metaStr, x.owner.id.id, x.owner.displayName, x.mtime, enc(x.attrs),
                x.placement.name, x.placement.storageClass)
  }

  /**
   * get_rgw_multipart: the owner and placement are rebuilt (the owner's
   * tenant and namespace left empty) and the attributes decoded.
   */
  function GetRgwMultipart<A>(r: DbMultipart, dec: Blob -> A): (x: OpMultipart<A>)
    ensures SameScalars(x, r)
    ensures x.owner.id == UserId("", r.ownerId, "") && x.owner.displayName == r.ownerDisplayName
    ensures x.placement == Placement(r.placementName, r.placementStorageClass)
    ensures x.attrs == dec(r.attrs)
  {
    OpMultipart(r.id, r.bucketId, r.uploadId, r.state, r.stateChangeTime, r.objectName,
                r.objectUuid, r.metaStr, RowOwner(r.ownerId, r.ownerDisplayName), r.mtime,
                dec(r.attrs), Placement(r.placementName, r.placementStorageClass))
  }

  /** Storing an upload whose owner has no tenant or namespace and reading it back gives the same upload. */
  lemma MultipartRoundTrip<A(!new)>(x: OpMultipart<A>, enc: A -> Blob, dec: Blob -> A)
    requires RoundTrips(enc, dec)
    requires x.owner.id.tenant == "" && x.owner.id.ns == ""
    ensures GetRgwMultipart(GetDbMultipart(x, enc), dec) == x
  {
    BlobRoundTrip(x.attrs, enc, dec);
  }

  /**
   * The owner's tenant and namespace do not survive the row: the upload
   * reads back with both empty, so an owner with either set comes back as
   * a different owner.
   */
  lemma OwnerTenantAndNamespaceLost<A>(x: OpMultipart<A>, enc: A -> Blob, dec: Blob -> A)
    ensures var y := GetRgwMultipart(GetDbMultipart(x, enc), dec);
            && y.owner.id == UserId("", x.owner.id.id, "")
            && (y.owner == x.owner <==> x.owner.id.tenant == "" && x.owner.id.ns == "")
  {
  }

  /** A row whose attribute blob re-encodes to itself is reproduced by the reverse trip. */
  lemma RowRoundTrip<A>(r: DbMultipart, enc: A -> Blob, dec: Blob -> A)
    requires enc(dec(r.attrs)) == r.attrs
    ensures GetDbMultipart(GetRgwMultipart(r, dec), enc) == r
  {
  }
}
