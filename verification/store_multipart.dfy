/**
 * The multipart object name of the older SFS store
 * (store/sfs/multipart.cc, SFSMultipartObject).
 */
module StoreMultipart {
  import opened Wrappers

  /** The characters std::isspace accepts in the "C" locale. */
  predicate IsSpace(c: char)
  {
    c == ' ' || c == '\t' || c == '\n' || c == '\U{0B}' || c == '\U{0C}' || c == '\r'
  }

  function TrimLeft(s: string): (r: string)
    ensures |r| <= |s| && r == s[|s| - |r|..]
    ensures |r| > 0 ==> !IsSpace(r[0])
    ensures forall i :: 0 <= i < |s| - |r| ==> IsSpace(s[i])
  {
    if |s| > 0 && IsSpace(s[0]) then TrimLeft(s[1..]) else s
  }

  function TrimRight(s: string): (r: string)
    ensures |r| <= |s| && r == s[..|r|]
    ensures |r| > 0 ==> !IsSpace(r[|r| - 1])
    ensures forall i :: |r| <= i < |s| ==> IsSpace(s[i])
  {
    if |s| > 0 && IsSpace(s[|s| - 1]) then TrimRight(s[..|s| - 1]) else s
  }

  /** boost::trim: drop leading and trailing white space. */
  function Trim(s: string): (r: string)
  {
    TrimRight(TrimLeft(s))
  }

  /** Where the trimmed text starts in the input. */
  function TrimStart(s: string): (k: nat)
    ensures k <= |s|
  {
    |s| - |TrimLeft(s)|
  }

  /** The trimmed id is a slice of the input with no white space at either end,
    * and only white space was dropped around it. */
  lemma TrimSpec(s: string)
    ensures TrimStart(s) + |Trim(s)| <= |s|
    ensures Trim(s) == s[TrimStart(s)..TrimStart(s) + |Trim(s)|]
    ensures forall i :: 0 <= i < TrimStart(s) ==> IsSpace(s[i])
    ensures forall i :: TrimStart(s) + |Trim(s)| <= i < |s| ==> IsSpace(s[i])
    ensures |Trim(s)| > 0 ==> !IsSpace(Trim(s)[0]) && !IsSpace(Trim(s)[|Trim(s)| - 1])
  {
    var l := TrimLeft(s);
    var r := TrimRight(l);
    var k := |s| - |l|;
    assert Trim(s) == r && TrimStart(s) == k;
    assert r == l[..|r|] && l == s[k..];
    forall i | k + |r| <= i < |s|
      ensures IsSpace(s[i])
    {
      assert s[i] == l[i - k];
    }
    if |r| > 0 {
      assert r[0] == l[0];
    }
  }

  /** Trimming twice is trimming once. */
  lemma TrimIdempotent(s: string)
    ensures Trim(Trim(s)) == Trim(s)
  {
    var r := Trim(s);
    TrimSpec(s);
    if |r| > 0 {
      assert TrimLeft(r) == r;
      assert TrimRight(r) == r;
    }
  }

  /** The upload id init keeps: the trimmed id, or the generated one when that is empty. */
  function UploadIdOf(raw: string, generated: string): (id: string)
    ensures Trim(raw) != [] ==> id == Trim(raw)
    ensures Trim(raw) == [] ==> id == generated
  {
    var t := Trim(raw);
    if t == [] then generated else t
  }

  /** meta = "_meta." + oid + "." + upload_id. */
  function MetaName(oid: string, uploadId: string): (m: string)
    ensures |m| == 7 + |oid| + |uploadId|
    ensures m[..6] == "_meta." && m[6..6 + |oid|] == oid
    ensures m[6 + |oid|] == '.' && m[7 + |oid|..] == uploadId
  {
    "_meta." + oid + "." + uploadId
  }

  /** For one object name, different upload ids give different meta names. */
  lemma MetaNameInjective(oid: string, a: string, b: string)
    requires MetaName(oid, a) == MetaName(oid, b)
    ensures a == b
  {
    assert MetaName(oid, a)[7 + |oid|..] == a;
    assert MetaName(oid, b)[7 + |oid|..] == b;
  }

  /** The optional-id constructor's input: a missing id reads as "". */
  function RawUploadId(id: Option<string>): (r: string)
    ensures id.None? ==> r == ""
    ensures id.Some? ==> r == id.value
  {
    if id.Some? then id.value else ""
  }

  /**
   * SFSMultipartObject. The generated id (an ISO-8601 timestamp of the
   * current time) is supplied by the caller.
   */
  class MultipartObject {
    var oid: string
    var uploadId: string
    var meta: string

    constructor (oid0: string, id: Option<string>, generated: string)
      ensures oid == oid0
      ensures uploadId == UploadIdOf(RawUploadId(id), generated)
      ensures meta == MetaName(oid0, uploadId)
    {
      var t := Trim(RawUploadId(id));
      if t == [] {
        t := generated;
      }
      oid := oid0;
      uploadId := t;
      meta := "_meta." + oid0 + "." + t;
    }

    /** init: trim the id, replace an empty one, and derive meta. */
    method Init(oid0: string, rawId: string, generated: string)
      modifies this
      ensures oid == oid0
      ensures uploadId == UploadIdOf(rawId, generated)
      ensures meta == MetaName(oid0, uploadId)
    {
      var t := Trim(rawId);
      if t == [] {
        t := generated;
      }
      oid := oid0;
      uploadId := t;
      meta := "_meta." + oid0 + "." + t;
    }
  }
}
