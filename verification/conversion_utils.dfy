/**
 * Field-assignment helpers shared by the SQLite record conversions
 * (store/sfs/sqlite/conversion_utils.h): optional columns, blobs holding
 * encoded values, and the integer widths of the columns.
 */
module ConversionUtils {
  import opened Wrappers

  /** A BLOB column: std::vector<char>. */
  type Blob = seq<char>

  type U8 = x: int | 0 <= x < 0x100
  type U32 = x: int | 0 <= x < 0x1_0000_0000
  type U64 = x: int | 0 <= x < 0x1_0000_0000_0000_0000
  type Int32 = x: int | -0x8000_0000 <= x < 0x8000_0000
  type Int64 = x: int | -0x8000_0000_0000_0000 <= x < 0x8000_0000_0000_0000

  /** rgw_user: tenant, user id and namespace; the records store only the id. */
  datatype UserId = UserId(tenant: string, id: string, ns: string)

  /** The encoder and the decoder undo each other on every value. */
  ghost predicate RoundTrips<T(!new)>(enc: T -> Blob, dec: Blob -> T)
  {
    forall x :: dec(enc(x)) == x
  }

  /** encode_blob then decode_blob gives the value back when the codec round-trips. */
  lemma BlobRoundTrip<T(!new)>(x: T, enc: T -> Blob, dec: Blob -> T)
    requires RoundTrips(enc, dec)
    ensures dec(enc(x)) == x
  {
  }

  /** assign_optional_value: an unset column leaves dest as it was; a set one is
    * converted (copied, or decoded when it is a blob). */
  function AssignOptionalValue<S, D>(column: Option<S>, dest: D, convert: S -> D): (r: D)
    ensures column.None? ==> r == dest
    ensures column.Some? ==> r == convert(column.value)
  {
    if column.None? then dest else convert(column.value)
  }

  /** assign_db_value for a string: an empty string leaves the column unset. */
  function AssignDbString(s: string, dest: Option<string>): (r: Option<string>)
    ensures s == "" ==> r == dest
    ensures s != "" ==> r == Some(s)
  {
    if s == "" then dest else Some(s)
  }

  /** assign_db_value into an optional blob: always set, to the encoding. */
  function AssignDbBlob<T>(x: T, enc: T -> Blob): (r: Option<Blob>)
    ensures r.Some? && r.value == enc(x)
  {
    Some(enc(x))
  }

  /** A string field with default "" survives storing and reading back. */
  lemma StringFieldRoundTrip(s: string)
    ensures AssignOptionalValue(AssignDbString(s, None), "", (c: string) => c) == s
  {
  }

  /** A blob field survives storing and reading back, whatever dest held. */
  lemma BlobFieldRoundTrip<T(!new)>(x: T, d: T, enc: T -> Blob, dec: Blob -> T)
    requires RoundTrips(enc, dec)
    ensures AssignOptionalValue(AssignDbBlob(x, enc), d, dec) == x
  {
  }

  /** Conversion of an integer to a 32-bit int column: reduction modulo 2^32. */
  function ToInt32(x: int): (r: Int32)
    ensures (r - x) % 0x1_0000_0000 == 0
    ensures -0x8000_0000 <= x < 0x8000_0000 ==> r == x
  {
    var m := x % 0x1_0000_0000;
    if m < 0x8000_0000 then m else m - 0x1_0000_0000
  }

  /** Conversion of an integer to a 64-bit int column. */
  function ToInt64(x: int): (r: Int64)
    ensures (r - x) % 0x1_0000_0000_0000_0000 == 0
    ensures -0x8000_0000_0000_0000 <= x < 0x8000_0000_0000_0000 ==> r == x
  {
    var m := x % 0x1_0000_0000_0000_0000;
    if m < 0x8000_0000_0000_0000 then m else m - 0x1_0000_0000_0000_0000
  }

  /** Reading an int column into an unsigned 8-bit field. */
  function ToU8(x: int): (r: U8)
    ensures (r - x) % 0x100 == 0
    ensures 0 <= x < 0x100 ==> r == x
  {
    x % 0x100
  }

  /** Reading an int column into an unsigned 32-bit field. */
  function ToU32(x: int): (r: U32)
    ensures (r - x) % 0x1_0000_0000 == 0
    ensures 0 <= x < 0x1_0000_0000 ==> r == x
  {
    x % 0x1_0000_0000
  }

  /** Reading an int column into an unsigned 64-bit field (sign extension). */
  function ToU64(x: int): (r: U64)
    ensures (r - x) % 0x1_0000_0000_0000_0000 == 0
    ensures 0 <= x < 0x1_0000_0000_0000_0000 ==> r == x
  {
    x % 0x1_0000_0000_0000_0000
  }

  /** An unsigned 32-bit value survives a 32-bit int column. */
  lemma U32ThroughInt32(x: U32)
    ensures ToU32(ToInt32(x)) == x
  {
  }

  /** An unsigned 64-bit value below 2^31 survives a 32-bit int column; one in
    * [2^31, 2^32) comes back sign-extended, and a larger one loses its high bits. */
  lemma U64ThroughInt32(x: U64)
    ensures x < 0x8000_0000 ==> ToU64(ToInt32(x)) == x
    ensures 0x8000_0000 <= x < 0x1_0000_0000 ==> ToU64(ToInt32(x)) == x - 0x1_0000_0000 + 0x1_0000_0000_0000_0000
    ensures 0x1_0000_0000 <= x < 0x1_0000_0000_0000_0000 - 0x8000_0000 ==> ToU64(ToInt32(x)) != x
  {
    if 0x1_0000_0000 <= x < 0x1_0000_0000_0000_0000 - 0x8000_0000 {
      var m := x % 0x1_0000_0000;
      if m < 0x8000_0000 {
        assert ToInt32(x) == m;
      } else {
        assert ToInt32(x) == m - 0x1_0000_0000;
      }
    }
  }

  /** Every unsigned 64-bit value survives a 64-bit int column. */
  lemma U64ThroughInt64(x: U64)
    ensures ToU64(ToInt64(x)) == x
  {
  }
}
