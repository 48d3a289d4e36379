/**
 * Conversions between the versioned-object row of the SFS metadata database
 * and its in-memory form (store/sfs/sqlite/versioned_object).
 */
module VersionedObjectConversions {
  import opened Wrappers
  import opened ConversionUtils
  import Decimal
  import UuidPath

  /** ObjectState (store/sfs/object_state.h): OPEN = 0 .. DELETED = 4. */
  datatype ObjectState = OPEN | WRITING | COMMITTED | LOCKED | DELETED

  const LAST_VALUE: ObjectState := DELETED

  /** The enumerator's numeric value. */
  function StateValue(s: ObjectState): (n: nat)
    ensures n <= 4
  {
    match s
    case OPEN => 0
    case WRITING => 1
    case COMMITTED => 2
    case LOCKED => 3
    case DELETED => 4
  }

  /**
   * get_object_state: a stored number above LAST_VALUE is refused with
   * "incorrect state found (N)"; any other names its enumerator.
   */
  function GetObjectState(n: U32): (r: Result<ObjectState, string>)
    ensures r.Ok? <==> n <= StateValue(LAST_VALUE)
    ensures r.Ok? ==> StateValue(r.value) == n
    ensures r.Err? ==> r.error == "incorrect state found (" + Decimal.NatToString(n) + ")"
  {
    if n > StateValue(LAST_VALUE) then Err("incorrect state found (" + Decimal.NatToString(n) + ")")
    else if n == 0 then Ok(OPEN)
    else if n == 1 then Ok(WRITING)
    else if n == 2 then Ok(COMMITTED)
    else if n == 3 then Ok(LOCKED)
    else Ok(DELETED)
  }

  /** get_uint_object_state. */
  function GetUintObjectState(s: ObjectState): (n: U32)
    ensures n == StateValue(s)
  {
    StateValue(s)
  }

  /** The two conversions are inverse on 0..4. */
  lemma StateRoundTrip(s: ObjectState, n: U32)
    ensures GetObjectState(GetUintObjectState(s)) == Ok(s)
    ensures n <= 4 ==> GetObjectState(n).Ok? && GetUintObjectState(GetObjectState(n).value) == n
  {
  }

  /** Two out-of-range numbers give different error messages. */
  lemma ErrorNamesTheNumber(n: U32, m: U32)
    requires GetObjectState(n).Err? && GetObjectState(m).Err?
    requires GetObjectState(n) == GetObjectState(m)
    ensures n == m
  {
    var a := "incorrect state found (";
    var sn := Decimal.NatToString(n);
    var sm := Decimal.NatToString(m);
    assert a + sn + ")" == a + sm + ")";
    assert sn == (a + sn + ")")[|a|..|a| + |sn|];
    assert |sn| == |sm|;
    assert sm == (a + sm + ")")[|a|..|a| + |sm|];
    Decimal.NatToStringInjective(n, m);
  }

  /** DBVersionedObject: the row; times are blobs, the state a number. */
  datatype DbVersionedObject = DbVersionedObject(
    id: U32,
    objectId: string,
    checksum: string,
    deletionTime: Blob,
    size: U64,
    creationTime: Blob,
    objectState: U32,
    versionId: string)

  /** DBOPVersionedObjectInfo: the in-memory form over a time type T. */
  datatype VersionedObjectInfo<T> = VersionedObjectInfo(
    id: U32,
    objectId: UuidPath.Uuid,
    checksum: string,
    deletionTime: T,
    size: U64,
    creationTime: T,
    objectState: ObjectState,
    versionId: string)

  /**
   * get_rgw_versioned_object: the uuid is parsed from its text form, the
   * times decoded from their blobs and the state checked; a bad state makes
   * the conversion fail.
   */
  function GetRgwVersionedObject<T>(o: DbVersionedObject, dec: Blob -> T): (r: Result<VersionedObjectInfo<T>, string>)
    ensures r.Ok? <==> GetObjectState(o.objectState).Ok?
    ensures r.Err? ==> r.error == GetObjectState(o.objectState).error
    ensures r.Ok? ==> && r.value.id == o.id
                      && r.value.objectId == UuidPath.ParseUuid(o.objectId)
                      && r.value.checksum == o.checksum
                      && r.value.size == o.size
                      && r.value.versionId == o.versionId
                      && StateValue(r.value.objectState) == o.objectState
  {
    match GetObjectState(o.objectState)
    case Err(e) => Err(e)
    case Ok(st) =>
      Ok(VersionedObjectInfo(o.id, UuidPath.ParseUuid(o.objectId), o.checksum, dec(o.deletionTime),
                             o.size, dec(o.creationTime), st, o.versionId))
  }

  /** get_db_versioned_object: the uuid's text form, encoded times, the state's number. */
  function GetDbVersionedObject<T>(o: VersionedObjectInfo<T>, enc: T -> Blob): (r: DbVersionedObject)
    requires o.objectId.Valid()
    ensures r.id == o.id && r.checksum == o.checksum && r.size == o.size && r.versionId == o.versionId
    ensures r.objectId == UuidPath.UuidString(o.objectId)
    ensures r.deletionTime == enc(o.deletionTime) && r.creationTime == enc(o.creationTime)
    ensures r.objectState <= StateValue(LAST_VALUE)
  {
    DbVersionedObject(o.id, UuidPath.UuidString(o.objectId), o.checksum, enc(o.deletionTime),
                      o.size, enc(o.creationTime), GetUintObjectState(o.objectState), o.versionId)
  }

  /** Storing an object and reading it back gives the same object. */
  lemma VersionedObjectRoundTrip<T(!new)>(o: VersionedObjectInfo<T>, enc: T -> Blob, dec: Blob -> T)
    requires o.objectId.Valid()
    requires RoundTrips(enc, dec)
    ensures GetRgwVersionedObject(GetDbVersionedObject(o, enc), dec) == Ok(o)
  {
    UuidPath.ParseUuidString(o.objectId);
    BlobRoundTrip(o.deletionTime, enc, dec);
    BlobRoundTrip(o.creationTime, enc, dec);
    StateRoundTrip(o.objectState, 0);
  }

  /** A row whose uuid text is malformed reads back with the nil uuid. */
  lemma MalformedUuidReadsNil<T>(o: DbVersionedObject, dec: Blob -> T)
    requires !UuidPath.WellFormed(o.objectId)
    requires o.objectState <= 4
    ensures GetRgwVersionedObject(o, dec).Ok?
    ensures GetRgwVersionedObject(o, dec).value.objectId.IsNil()
  {
  }
}
