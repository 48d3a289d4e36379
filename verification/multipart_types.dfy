/**
 * Multipart upload state and part file naming
 * (driver/sfs/multipart_types.h).
 */
module MultipartTypes {
  import Decimal
  import FsPath
  import UuidPath

  /** MultipartState, in declaration order. */
  datatype MultipartState = NONE | INIT | INPROGRESS | COMPLETE | AGGREGATING | DONE | ABORTED

  const LAST_VALUE: MultipartState := ABORTED

  /** The enumerator's integer value. */
  function StateValue(s: MultipartState): (n: nat)
    ensures n <= 6
    ensures s == LAST_VALUE <==> n == 6
  {
    match s
    case NONE => 0
    case INIT => 1
    case INPROGRESS => 2
    case COMPLETE => 3
    case AGGREGATING => 4
    case DONE => 5
    case ABORTED => 6
  }

  predicate Before(a: MultipartState, b: MultipartState)
  {
    StateValue(a) < StateValue(b)
  }

  /** The value conversion is one-to-one and LAST_VALUE is the greatest. */
  lemma StateOrder(a: MultipartState, b: MultipartState)
    ensures StateValue(a) == StateValue(b) <==> a == b
    ensures StateValue(a) <= StateValue(LAST_VALUE)
    ensures Before(NONE, INIT) && Before(INIT, INPROGRESS) && Before(INPROGRESS, COMPLETE)
    ensures Before(COMPLETE, AGGREGATING) && Before(AGGREGATING, DONE) && Before(DONE, ABORTED)
  {
  }

  /** MULTIPART_PART_SUFFIX_LEN: '-', five digits and the terminating NUL. */
  const MULTIPART_PART_SUFFIX_LEN: nat := 6 + 1

  /** snprintf(buf, n, ...) keeps at most n - 1 characters. */
  function Snprintf(n: nat, s: string): (r: string)
    requires n >= 1
    ensures |r| <= n - 1
    ensures |s| <= n - 1 ==> r == s
    ensures |s| > n - 1 ==> r == s[..n - 1]
  {
    if |s| <= n - 1 then s else s[..n - 1]
  }

  /** The "-%d" suffix as it lands in the 7-byte buffer. */
  function PartSuffix(num: int): (r: string)
    ensures 2 <= |r| <= 6 && r[0] == '-'
  {
    Snprintf(MULTIPART_PART_SUFFIX_LEN, "-" + Decimal.IntToString(num))
  }

  /** Part numbers up to 99999 (so every S3 part number, 1..10000) are kept whole. */
  lemma PartSuffixWhole(num: nat)
    requires num < 100000
    ensures PartSuffix(num) == "-" + Decimal.NatToString(num)
  {
    assert Decimal.Pow10(5) == 100000;
    Decimal.NatToStringLength(num, 5);
  }

  /** Beyond five digits the suffix is cut: part 100000 reuses part 10000's name. */
  lemma PartSuffixTruncates()
    ensures PartSuffix(100000) == PartSuffix(10000)
  {
    var s6 := Decimal.NatToString(100000);
    assert Decimal.NatToString(10) == "10";
    assert Decimal.NatToString(100) == "100";
    assert Decimal.NatToString(1000) == "1000";
    assert Decimal.NatToString(10000) == "10000";
    assert s6 == "100000";
  }

  /** MultipartPartPath(uuid, num).to_path(): the UUID path with the suffix
    * appended to its last component. */
  function PartPath(u: UuidPath.Uuid, num: int): (r: FsPath.Path)
    requires u.Valid() && !u.IsNil()
    ensures var base := UuidPath.ToPath(UuidPath.MakeUuidPath(u));
      |r| == |base| + |PartSuffix(num)| && r[..|base|] == base && r[|base|..] == PartSuffix(num)
  {
    FsPath.Concat(UuidPath.ToPath(UuidPath.MakeUuidPath(u)), PartSuffix(num))
  }

  /** Distinct part numbers 0..99999 of one upload get distinct files. */
  lemma PartPathInjective(u: UuidPath.Uuid, a: nat, b: nat)
    requires u.Valid() && !u.IsNil()
    requires a < 100000 && b < 100000
    requires PartPath(u, a) == PartPath(u, b)
    ensures a == b
  {
    var base := UuidPath.ToPath(UuidPath.MakeUuidPath(u));
    PartSuffixWhole(a);
    PartSuffixWhole(b);
    assert PartPath(u, a)[|base|..] == PartSuffix(a);
    assert PartSuffix(a)[1..] == Decimal.NatToString(a);
    assert PartSuffix(b)[1..] == Decimal.NatToString(b);
    Decimal.NatToStringInjective(a, b);
  }

  /** Parts of different uploads never share a file. */
  lemma PartPathSeparatesUploads(u: UuidPath.Uuid, v: UuidPath.Uuid, a: int, b: int)
    requires u.Valid() && !u.IsNil() && v.Valid() && !v.IsNil()
    requires PartPath(u, a) == PartPath(v, b)
    ensures u == v
  {
    var pu := UuidPath.MakeUuidPath(u);
    var pv := UuidPath.MakeUuidPath(v);
    var bu := UuidPath.ToPath(pu);
    var bv := UuidPath.ToPath(pv);
    assert |bu| == 38 && |bv| == 38;
    assert bu == PartPath(u, a)[..38];
    assert bv == PartPath(v, b)[..38];
    UuidPath.ToPathInjective(pu, pv);
  }
}
