/**
 * UUIDPath (store/sfs/uuid_path.h): the canonical text form of a UUID
 * (section 3 of RFC 4122) split into a two-level directory layout.
 */
module UuidPath {
  import FsPath

  newtype byte = x: int | 0 <= x < 256

  /** A UUID: sixteen bytes. */
  datatype Uuid = Uuid(bytes: seq<byte>)
  {
    predicate Valid()
    {
      |bytes| == 16
    }

    predicate IsNil()
    {
      forall i :: 0 <= i < |bytes| ==> bytes[i] == 0
    }
  }

  function HexDigit(n: nat): (c: char)
    requires n < 16
  {
    "0123456789abcdef"[n]
  }

  predicate IsHexChar(c: char)
  {
    '0' <= c <= '9' || 'a' <= c <= 'f'
  }

  /** A hex digit of either case, as a UUID's text may use when parsed. */
  predicate IsAnyHexChar(c: char)
  {
    IsHexChar(c) || 'A' <= c <= 'F'
  }

  function HexValue(c: char): nat
  {
    if '0' <= c <= '9' then (c as int - '0' as int) as nat
    else if 'a' <= c <= 'f' then (c as int - 'a' as int + 10) as nat
    else if 'A' <= c <= 'F' then (c as int - 'A' as int + 10) as nat
    else 0
  }

  function Hex(bs: seq<byte>): (s: string)
    ensures |s| == 2 * |bs|
  {
    if |bs| == 0 then []
    else [HexDigit(bs[0] as nat / 16), HexDigit(bs[0] as nat % 16)] + Hex(bs[1..])
  }

  /** Every character of the hex form is a lower-case hex digit. */
  lemma {:induction false} HexChars(bs: seq<byte>)
    ensures forall i :: 0 <= i < |Hex(bs)| ==> IsHexChar(Hex(bs)[i])
  {
    if |bs| > 0 {
      HexChars(bs[1..]);
      var s := Hex(bs);
      assert s == [HexDigit(bs[0] as nat / 16), HexDigit(bs[0] as nat % 16)] + Hex(bs[1..]);
      forall i | 0 <= i < |s|
        ensures IsHexChar(s[i])
      {
        if i >= 2 {
          assert s[i] == Hex(bs[1..])[i - 2];
        }
      }
    }
  }

  /** The byte two hex digits stand for. */
  function ByteOf(hi: char, lo: char): (b: byte)
    ensures b as int == (HexValue(hi) % 16) * 16 + HexValue(lo) % 16
  {
    var h, l := HexValue(hi) % 16, HexValue(lo) % 16;
    assert h * 16 + l <= 15 * 16 + 15;
    (h * 16 + l) as byte
  }

  /** Reads two hex digits per byte. */
  function Unhex(s: string): (bs: seq<byte>)
    ensures |bs| == |s| / 2
    decreases |s|
  {
    if |s| < 2 then []
    else [ByteOf(s[0], s[1])] + Unhex(s[2..])
  }

  lemma HexDigitRoundTrip(n: nat)
    requires n < 16
    ensures HexValue(HexDigit(n)) == n
  {
  }

  /** The two digits of a byte read back as that byte. */
  lemma UnhexByte(b: byte)
    ensures ByteOf(HexDigit(b as nat / 16), HexDigit(b as nat % 16)) == b
  {
    var q, r := b as nat / 16, b as nat % 16;
    HexDigitRoundTrip(q);
    HexDigitRoundTrip(r);
    assert q < 16 && q % 16 == q && r % 16 == r;
    assert q * 16 + r == b as nat;
  }

  /** Reading back the first byte's two digits. */
  lemma UnhexHexStep(bs: seq<byte>)
    requires |bs| > 0
    ensures Unhex(Hex(bs)) == [bs[0]] + Unhex(Hex(bs[1..]))
  {
    var s := Hex(bs);
    var hi, lo := HexDigit(bs[0] as nat / 16), HexDigit(bs[0] as nat % 16);
    assert s == [hi, lo] + Hex(bs[1..]);
    assert s[0] == hi && s[1] == lo && s[2..] == Hex(bs[1..]);
    UnhexByte(bs[0]);
  }

  lemma {:induction false} UnhexHex(bs: seq<byte>)
    ensures Unhex(Hex(bs)) == bs
  {
    if |bs| > 0 {
      UnhexHexStep(bs);
      UnhexHex(bs[1..]);
      assert bs == [bs[0]] + bs[1..];
    }
  }

  lemma {:induction false} HexAppend(a: seq<byte>, b: seq<byte>)
    ensures Hex(a + b) == Hex(a) + Hex(b)
  {
    if |a| > 0 {
      assert (a + b)[0] == a[0];
      assert (a + b)[1..] == a[1..] + b;
      HexAppend(a[1..], b);
    } else {
      assert a + b == b;
    }
  }

  /** uuid_d::to_string: 8-4-4-4-12 lower-case hex digits. */
  function UuidString(u: Uuid): (s: string)
    requires u.Valid()
    ensures |s| == 36
  {
    Hex(u.bytes[0..4]) + "-" + Hex(u.bytes[4..6]) + "-" + Hex(u.bytes[6..8]) + "-"
      + Hex(u.bytes[8..10]) + "-" + Hex(u.bytes[10..16])
  }

  /** The text form's five groups of digits and its four dashes. */
  lemma UuidStringGroups(u: Uuid)
    requires u.Valid()
    ensures var s, b := UuidString(u), u.bytes;
      && s[0..8] == Hex(b[0..4]) && s[9..13] == Hex(b[4..6]) && s[14..18] == Hex(b[6..8])
      && s[19..23] == Hex(b[8..10]) && s[24..36] == Hex(b[10..16])
      && s[8] == '-' && s[13] == '-' && s[18] == '-' && s[23] == '-'
  {
    var b := u.bytes;
    var s := UuidString(u);
    var h0, h1, h2, h3, h4 := Hex(b[0..4]), Hex(b[4..6]), Hex(b[6..8]), Hex(b[8..10]), Hex(b[10..16]);
    assert s == h0 + "-" + h1 + "-" + h2 + "-" + h3 + "-" + h4;
  }

  /** Adjacent slices' digits join up. */
  lemma HexSlices(b: seq<byte>, i: nat, j: nat, k: nat)
    requires i <= j <= k <= |b|
    ensures Hex(b[i..j]) + Hex(b[j..k]) == Hex(b[i..k])
  {
    assert b[i..j] + b[j..k] == b[i..k];
    HexAppend(b[i..j], b[j..k]);
  }

  /** The digits of the five groups together are the digits of all sixteen bytes. */
  lemma HexOfGroups(b: seq<byte>)
    requires |b| == 16
    ensures Hex(b[0..4]) + Hex(b[4..6]) + Hex(b[6..8]) + Hex(b[8..10]) + Hex(b[10..16]) == Hex(b)
  {
    HexSlices(b, 0, 4, 6);
    HexSlices(b, 0, 6, 8);
    HexSlices(b, 0, 8, 10);
    HexSlices(b, 0, 10, 16);
    assert b[0..16] == b;
  }

  /** Dropping the four dashes leaves the hex digits of all sixteen bytes. */
  lemma UuidStringDigits(u: Uuid)
    requires u.Valid()
    ensures var s := UuidString(u);
      s[0..8] + s[9..13] + s[14..18] + s[19..23] + s[24..36] == Hex(u.bytes)
    ensures var s := UuidString(u);
      s[8] == '-' && s[13] == '-' && s[18] == '-' && s[23] == '-'
  {
    UuidStringGroups(u);
    HexOfGroups(u.bytes);
  }

  /** The text form identifies the UUID. */
  lemma UuidStringInjective(u: Uuid, v: Uuid)
    requires u.Valid() && v.Valid()
    requires UuidString(u) == UuidString(v)
    ensures u == v
  {
    UuidStringDigits(u);
    UuidStringDigits(v);
    UnhexHex(u.bytes);
    UnhexHex(v.bytes);
  }

  lemma UuidStringHasNoSeparator(u: Uuid)
    requires u.Valid()
    ensures forall i :: 0 <= i < 36 ==> UuidString(u)[i] != '/'
  {
    var b := u.bytes;
    HexChars(b[0..4]);
    HexChars(b[4..6]);
    HexChars(b[6..8]);
    HexChars(b[8..10]);
    HexChars(b[10..16]);
  }

  /** The nil UUID: sixteen zero bytes. */
  function Nil(): (u: Uuid)
    ensures u.Valid() && u.IsNil()
  {
    Uuid(seq(16, _ => 0))
  }

  /** The hex digits of a 36-character text form, its four dashes dropped. */
  function DigitsOf(s: string): string
    requires |s| == 36
  {
    s[0..8] + s[9..13] + s[14..18] + s[19..23] + s[24..36]
  }

  predicate AllHex(s: string)
  {
    forall i :: 0 <= i < |s| ==> IsAnyHexChar(s[i])
  }

  /** The 8-4-4-4-12 form: 32 hex digits with a dash after the 4th, 6th, 8th and 10th byte. */
  predicate Dashed(s: string)
  {
    && |s| == 36
    && s[8] == '-' && s[13] == '-' && s[18] == '-' && s[23] == '-'
    && AllHex(DigitsOf(s))
  }

  /** The form without dashes: 32 hex digits. */
  predicate Undashed(s: string)
  {
    |s| == 32 && AllHex(s)
  }

  predicate Braced(s: string)
  {
    |s| >= 2 && s[0] == '{' && s[|s| - 1] == '}'
  }

  /** The text between the braces, or the whole text when it has none. */
  function Unbraced(s: string): (t: string)
    ensures |t| <= |s|
  {
    if Braced(s) then s[1..|s| - 1] else s
  }

  /**
   * What boost's string_generator accepts: 32 hex digits of either case,
   * with the dashes all present or all absent, optionally inside braces,
   * and nothing after.
   */
  predicate WellFormed(s: string)
  {
    Dashed(Unbraced(s)) || Undashed(Unbraced(s))
  }

  /** The 32 digits of an accepted text. */
  function DigitsOfForm(s: string): (d: string)
    requires WellFormed(s)
    ensures |d| == 32
  {
    var t := Unbraced(s);
    if |t| == 36 then DigitsOf(t) else t
  }

  /**
   * uuid_d::parse: a text string_generator accepts gives its UUID; on any
   * other text the generator throws, the failure is swallowed and the
   * default, nil UUID is left.
   */
  function ParseUuid(s: string): (u: Uuid)
    ensures u.Valid()
    ensures !WellFormed(s) ==> u == Nil()
  {
    if WellFormed(s) then Uuid(Unhex(DigitsOfForm(s))) else Nil()
  }

  /** A text with its lower-case hex letters put in upper case. */
  function Upper(s: string): (t: string)
    ensures |t| == |s|
  {
    if |s| == 0 then []
    else [if 'a' <= s[0] <= 'f' then (s[0] as int - 'a' as int + 'A' as int) as char else s[0]] + Upper(s[1..])
  }

  lemma {:induction false} UpperDigits(s: string)
    requires forall i :: 0 <= i < |s| ==> IsHexChar(s[i])
    ensures AllHex(Upper(s))
    decreases |s|
  {
    if |s| > 0 {
      UpperDigits(s[1..]);
      var t := Upper(s);
      forall i | 0 <= i < |t|
        ensures IsAnyHexChar(t[i])
      {
        if i > 0 {
          assert t[i] == Upper(s[1..])[i - 1];
        }
      }
    }
  }

  lemma {:induction false} UpperDigitsTail(s: string)
    requires forall i :: 0 <= i < |s| ==> IsHexChar(s[i])
    ensures Unhex(Upper(s)) == Unhex(s)
    decreases |s|
  {
    if |s| >= 2 {
      var t := Upper(s);
      assert t[1..] == Upper(s[1..]);
      assert t[2..] == Upper(s[2..]) by {
        assert Upper(s[1..])[1..] == Upper(s[1..][1..]);
        assert s[1..][1..] == s[2..];
      }
      assert HexValue(t[0]) == HexValue(s[0]);
      assert t[1] == Upper(s[1..])[0];
      assert HexValue(t[1]) == HexValue(s[1]);
      UpperDigitsTail(s[2..]);
    }
  }

  /** Parsing the text form gives back the UUID. */
  lemma ParseUuidString(u: Uuid)
    requires u.Valid()
    ensures ParseUuid(UuidString(u)) == u
  {
    var s := UuidString(u);
    UuidStringDigits(u);
    assert DigitsOf(s) == Hex(u.bytes);
    HexChars(u.bytes);
    assert s[0] == Hex(u.bytes)[0];
    assert Unbraced(s) == s;
    UnhexHex(u.bytes);
  }

  /** The 32 digits alone, without dashes, give back the UUID. */
  lemma ParseUuidUndashed(u: Uuid)
    requires u.Valid()
    ensures ParseUuid(Hex(u.bytes)) == u
  {
    var h := Hex(u.bytes);
    HexChars(u.bytes);
    UnhexHex(u.bytes);
    assert h[0] != '{' && Unbraced(h) == h;
  }

  /** The text form inside braces gives back the UUID. */
  lemma ParseUuidBraced(u: Uuid)
    requires u.Valid()
    ensures ParseUuid("{" + UuidString(u) + "}") == u
  {
    var s := UuidString(u);
    var b := "{" + s + "}";
    assert Braced(b) && Unbraced(b) == s;
    UuidStringDigits(u);
    HexChars(u.bytes);
    assert DigitsOf(s) == Hex(u.bytes);
    assert Dashed(s);
    assert DigitsOfForm(b) == Hex(u.bytes);
    UnhexHex(u.bytes);
  }

  /** Upper-case digits give back the same UUID as lower-case ones. */
  lemma ParseUuidUpper(u: Uuid)
    requires u.Valid()
    ensures ParseUuid(Upper(Hex(u.bytes))) == u
  {
    var h := Hex(u.bytes);
    HexChars(u.bytes);
    UpperDigits(h);
    UpperDigitsTail(h);
    UnhexHex(u.bytes);
    var up := Upper(h);
    assert up[0] != '{' && Unbraced(up) == up;
  }


  /** The value a UUIDPath holds once constructed. */
  datatype UuidPath = UuidPath(uuid: Uuid, first: string, second: string, fname: string)

  /** UUIDPath(uuid): split the text form at offsets 2 and 4. */
  function MakeUuidPath(u: Uuid): (p: UuidPath)
    requires u.Valid()
    ensures p.uuid == u
    ensures |p.first| == 2 && |p.second| == 2 && |p.fname| == 32
  {
    var s := UuidString(u);
    UuidPath(u, s[0..2], s[2..4], s[4..])
  }

  /** The three parts put back together give the UUID's text form. */
  lemma MakeUuidPathSplits(u: Uuid)
    requires u.Valid()
    ensures MakeUuidPath(u).first + MakeUuidPath(u).second + MakeUuidPath(u).fname == UuidString(u)
  {
    var s := UuidString(u);
    assert s[0..2] + s[2..4] + s[4..] == s;
  }

  /** to_path: first/second/fname; a nil UUID is refused. */
  function ToPath(p: UuidPath): (r: FsPath.Path)
    requires p.uuid.Valid() && !p.uuid.IsNil()
    requires p == MakeUuidPath(p.uuid)
    ensures r == p.first + "/" + p.second + "/" + p.fname
  {
    var s := UuidString(p.uuid);
    UuidStringHasNoSeparator(p.uuid);
    assert FsPath.IsComponent(p.second) by {
      assert p.second == s[2..4];
    }
    assert FsPath.IsComponent(p.fname) by {
      assert p.fname == s[4..];
    }
    FsPath.JoinComponentHasFileName(p.first, p.second);
    FsPath.Join(FsPath.Join(p.first, p.second), p.fname)
  }

  /** Two UUIDs map to the same directory path only if they are equal. */
  lemma ToPathInjective(p: UuidPath, q: UuidPath)
    requires p.uuid.Valid() && !p.uuid.IsNil() && p == MakeUuidPath(p.uuid)
    requires q.uuid.Valid() && !q.uuid.IsNil() && q == MakeUuidPath(q.uuid)
    requires ToPath(p) == ToPath(q)
    ensures p.uuid == q.uuid
  {
    ToPathParts(p);
    ToPathParts(q);
    UuidStringInjective(p.uuid, q.uuid);
  }

  /** Dropping the two separators from the path gives back the text form. */
  lemma ToPathParts(p: UuidPath)
    requires p.uuid.Valid() && !p.uuid.IsNil() && p == MakeUuidPath(p.uuid)
    ensures |ToPath(p)| == 38
    ensures ToPath(p)[0..2] + ToPath(p)[3..5] + ToPath(p)[6..] == UuidString(p.uuid)
  {
    MakeUuidPathSplits(p.uuid);
    var r := ToPath(p);
    assert r[0..2] == p.first && r[3..5] == p.second && r[6..] == p.fname;
  }

  /** match: same UUID. */
  function Match(p: UuidPath, other: UuidPath): (r: bool)
    ensures r <==> p.uuid == other.uuid
  {
    p.uuid == other.uuid
  }

  /** Built from UUIDs, two paths match exactly when their text forms agree. */
  lemma MatchIffSameString(u: Uuid, v: Uuid)
    requires u.Valid() && v.Valid()
    ensures Match(MakeUuidPath(u), MakeUuidPath(v)) <==> UuidString(u) == UuidString(v)
  {
    if UuidString(u) == UuidString(v) {
      UuidStringInjective(u, v);
    }
  }

  /** get_uuid: the constructor's argument. */
  function GetUuid(p: UuidPath): (u: Uuid)
    ensures u == p.uuid
  {
    p.uuid
  }

  lemma GetUuidOfMake(u: Uuid)
    requires u.Valid()
    ensures GetUuid(MakeUuidPath(u)) == u
  {
  }
}
