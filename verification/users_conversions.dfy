/**
 * User record conversions of the SFS store
 * (store/sfs/sqlite/users/users_conversions.cc): the RGW user and the
 * database row it is stored as.
 */
module SfsUserConversions {
  import opened Wrappers
  import opened ConversionUtils

  datatype AccessKey = AccessKey(id: string, key: string, subuser: string)

  type AccessKeys = map<string, AccessKey>

  /**
   * DBOPUserInfo: RGWUserInfo with the user version and attributes. The
   * structured fields (swift keys, subusers, caps, placement tags, quotas,
   * temp URL keys, MFA ids, attributes) are values of S.
   */
  datatype UserInfo<S> = UserInfo(
    id: string, tenant: string, ns: string, displayName: string, email: string,
    accessKeys: AccessKeys, swiftKeys: S, subusers: S,
    suspended: U8, maxBuckets: Int32, opMask: U32, caps: S, admin: U8, system: U8,
    placementName: string, placementStorageClass: string, placementTags: S,
    bucketQuota: S, tempUrlKeys: S, userQuota: S, userType: U32, mfaIds: S,
    assumedRoleArn: string, userAttrs: S, version: U64, versionTag: string)

  /** DBUser: one optional column per field. */
  datatype DbUser = DbUser(
    userId: string, tenant: Option<string>, ns: Option<string>, displayName: Option<string>,
    email: Option<string>, accessKeys: Option<Blob>, swiftKeys: Option<Blob>, subUsers: Option<Blob>,
    suspended: Option<U8>, maxBuckets: Option<Int32>, opMask: Option<Int32>, userCaps: Option<Blob>,
    admin: Option<Int32>, system: Option<Int32>, placementName: Option<string>,
    placementStorageClass: Option<string>, placementTags: Option<Blob>, bucketQuota: Option<Blob>,
    tempUrlKeys: Option<Blob>, userQuota: Option<Blob>, userType: Option<Int32>, mfaIds: Option<Blob>,
    assumedRoleArn: Option<string>, userAttrs: Option<Blob>, userVersion: Option<int>,
    userVersionTag: Option<string>)

  /** The encoders and decoders of the blob columns. */
  datatype Codec<!S> = Codec(encS: S -> Blob, decS: Blob -> S, encK: AccessKeys -> Blob, decK: Blob -> AccessKeys)

  ghost predicate Sound<S(!new)>(c: Codec<S>)
  {
    RoundTrips(c.encS, c.decS) && RoundTrips(c.encK, c.decK)
  }

  /** A row with only the user id set. */
  function EmptyRow(id: string): (r: DbUser)
    ensures r.userId == id
  {
    DbUser(id, None, None, None, None, None, None, None, None, None, None, None, None, None, None,
           None, None, None, None, None, None, None, None, None, None, None)
  }

  /** The string fields of the default-constructed user are empty. */
  predicate StringDefaultsEmpty<S>(d: UserInfo<S>)
  {
    d.tenant == "" && d.ns == "" && d.displayName == "" && d.email == ""
    && d.placementName == "" && d.placementStorageClass == "" && d.assumedRoleArn == "" && d.versionTag == ""
  }

  function Str(c: string): string
  {
    c
  }

  /**
   * get_rgw_user: start from the default-constructed user d and overwrite
   * each field whose column is set, decoding blobs and narrowing integers.
   */
  function GetRgwUser<S>(u: DbUser, d: UserInfo<S>, c: Codec<S>): (r: UserInfo<S>)
    ensures r.id == u.userId
  {
    UserInfo(
      u.userId,
      AssignOptionalValue(u.tenant, d.tenant, Str),
      AssignOptionalValue(u.ns, d.ns, Str),
      AssignOptionalValue(u.displayName, d.displayName, Str),
      AssignOptionalValue(u.email, d.email, Str),
      AssignOptionalValue(u.accessKeys, d.accessKeys, c.decK),
      AssignOptionalValue(u.swiftKeys, d.swiftKeys, c.decS),
      AssignOptionalValue(u.subUsers, d.subusers, c.decS),
      AssignOptionalValue(u.suspended, d.suspended, (x: U8) => x),
      AssignOptionalValue(u.maxBuckets, d.maxBuckets, (x: Int32) => x),
      AssignOptionalValue(u.opMask, d.opMask, (x: Int32) => ToU32(x)),
      AssignOptionalValue(u.userCaps, d.caps, c.decS),
      AssignOptionalValue(u.admin, d.admin, (x: Int32) => ToU8(x)),
      AssignOptionalValue(u.system, d.system, (x: Int32) => ToU8(x)),
      AssignOptionalValue(u.placementName, d.placementName, Str),
      AssignOptionalValue(u.placementStorageClass, d.placementStorageClass, Str),
      AssignOptionalValue(u.placementTags, d.placementTags, c.decS),
      AssignOptionalValue(u.bucketQuota, d.bucketQuota, c.decS),
      AssignOptionalValue(u.tempUrlKeys, d.tempUrlKeys, c.decS),
      AssignOptionalValue(u.userQuota, d.userQuota, c.decS),
      AssignOptionalValue(u.userType, d.userType, (x: Int32) => ToU32(x)),
      AssignOptionalValue(u.mfaIds, d.mfaIds, c.decS),
      AssignOptionalValue(u.assumedRoleArn, d.assumedRoleArn, Str),
      AssignOptionalValue(u.userAttrs, d.userAttrs, c.decS),
      AssignOptionalValue(u.userVersion, d.version, (x: int) => ToU64(x)),
      AssignOptionalValue(u.userVersionTag, d.versionTag, Str))
  }

  /** get_db_user with the version column narrowed to 32 bits, as the row declares it. */
  function GetDbUserAsWritten<S>(x: UserInfo<S>, c: Codec<S>): (r: DbUser)
    ensures r.userId == x.id
    ensures r.userVersion == Some(ToInt32(x.version) as int)
  {
    GetDbUser(x, c).(userVersion := Some(ToInt32(x.version) as int))
  }

  /**
   * get_db_user with a 64-bit version column, the corrected row layout
   * (GetDbUserAsWritten narrows it to 32 bits as the source does): strings
   * are stored only when non-empty, every other field always.
   */
  function GetDbUser<S>(x: UserInfo<S>, c: Codec<S>): (r: DbUser)
    ensures r.userId == x.id
    ensures r.userVersion == Some(ToInt64(x.version) as int)
  {
    DbUser(
      x.id,
      AssignDbString(x.tenant, None),
      AssignDbString(x.ns, None),
      AssignDbString(x.displayName, None),
      AssignDbString(x.email, None),
      AssignDbBlob(x.accessKeys, c.encK),
      AssignDbBlob(x.swiftKeys, c.encS),
      AssignDbBlob(x.subusers, c.encS),
      Some(x.suspended),
      Some(x.maxBuckets),
      Some(ToInt32(x.opMask)),
      AssignDbBlob(x.caps, c.encS),
      Some(x.admin as Int32),
      Some(x.system as Int32),
      AssignDbString(x.placementName, None),
      AssignDbString(x.placementStorageClass, None),
      AssignDbBlob(x.placementTags, c.encS),
      AssignDbBlob(x.bucketQuota, c.encS),
      AssignDbBlob(x.tempUrlKeys, c.encS),
      AssignDbBlob(x.userQuota, c.encS),
      Some(ToInt32(x.userType)),
      AssignDbBlob(x.mfaIds, c.encS),
      AssignDbString(x.assumedRoleArn, None),
      AssignDbBlob(x.userAttrs, c.encS),
      Some(ToInt64(x.version) as int),
      AssignDbString(x.versionTag, None))
  }

  /** A row with no optional column set reads as the default user with that id. */
  lemma AbsentColumnsKeepDefaults<S>(id: string, d: UserInfo<S>, c: Codec<S>)
    ensures GetRgwUser(EmptyRow(id), d, c) == d.(id := id)
  {
  }

  /** Storing a user and reading it back gives the same user. */
  lemma UserRoundTrip<S(!new)>(x: UserInfo<S>, d: UserInfo<S>, c: Codec<S>)
    requires Sound(c) && StringDefaultsEmpty(d)
    ensures GetRgwUser(GetDbUser(x, c), d, c) == x
  {
    U32ThroughInt32(x.opMask);
    U32ThroughInt32(x.userType);
    U64ThroughInt64(x.version);
  }

  /** With the 32-bit version column, a user at version 2^31 reads back at a
    * different version. */
  lemma VersionLostAsWritten<S(!new)>(x: UserInfo<S>, d: UserInfo<S>, c: Codec<S>)
    requires x.version == 0x8000_0000
    ensures GetRgwUser(GetDbUserAsWritten(x, c), d, c).version != x.version
  {
    U64ThroughInt32(x.version);
  }

  /** Below 2^31 the 32-bit version column still round-trips. */
  lemma SmallVersionSurvivesAsWritten<S(!new)>(x: UserInfo<S>, d: UserInfo<S>, c: Codec<S>)
    requires Sound(c) && StringDefaultsEmpty(d) && x.version < 0x8000_0000
    ensures GetRgwUser(GetDbUserAsWritten(x, c), d, c) == x
  {
    UserRoundTrip(x, d, c);
    U64ThroughInt32(x.version);
  }
}
