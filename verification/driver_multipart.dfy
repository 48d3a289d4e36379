/**
 * The multipart upload of the SFS driver (driver/sfs/multipart.cc): an
 * upload object over the multipart tables, its initiation, part listing,
 * abort, completion (validation of the client's part list and the final
 * etag) and information, and the bucket-wide listing and abort.
 */
module SfsMultipartUpload {
  import opened Wrappers
  import opened ConversionUtils
  import opened MultipartTypes
  import opened RgwErrors
  import opened StringOrder
  import Sequences
  import Collections
  import Decimal
  import UuidPath
  import MC = MultipartConversions
  import SM = SqliteMultipart

  type Part = SM.Part
  type Byte = UuidPath.byte

  /** S3 allows at most 10000 parts per upload. */
  const MAX_PARTS: nat := 10000

  /** Every part but the last must hold at least 5 MiB. */
  const MIN_PART_SIZE: nat := 5 * 1024 * 1024

  /** CEPH_CRYPTO_MD5_DIGESTSIZE. */
  const MD5_DIGEST_SIZE: nat := 16

  /** The name of the upload's meta object: "_meta" + oid + "." + upload id. */
  function MetaStr(oid: string, uploadId: string): (r: string)
    ensures |r| == 6 + |oid| + |uploadId|
    ensures r[|r| - |uploadId|..] == uploadId
  {
    "_meta" + oid + "." + uploadId
  }

  /** Strings sharing a prefix compare as their remainders do. */
  lemma {:induction false} LexLessCommonPrefix(p: string, a: string, b: string)
    ensures LexLess(p + a, p + b) <==> LexLess(a, b)
    decreases |p|
  {
    if |p| > 0 {
      assert (p + a)[1..] == p[1..] + a;
      assert (p + b)[1..] == p[1..] + b;
      LexLessCommonPrefix(p[1..], a, b);
    } else {
      assert p + a == a && p + b == b;
    }
  }

  /**
   * Uploads of one object list (by meta string) in upload-id order, and
   * two uploads of one object never share a meta string.
   */
  lemma MetaStrOrder(oid: string, a: string, b: string)
    ensures LexLess(MetaStr(oid, a), MetaStr(oid, b)) <==> LexLess(a, b)
    ensures MetaStr(oid, a) == MetaStr(oid, b) <==> a == b
  {
    var p := "_meta" + oid + ".";
    assert MetaStr(oid, a) == p + a && MetaStr(oid, b) == p + b;
    LexLessCommonPrefix(p, a, b);
    if p + a == p + b {
      assert a == (p + a)[|p|..];
      assert b == (p + b)[|p|..];
    }
  }

  /** rgw_placement_rule::empty: no placement name and no storage class. */
  predicate PlacementEmpty(p: MC.Placement)
  {
    p.name == "" && p.storageClass == ""
  }

  // ----- completion -----

  /**
   * hex_to_buf into the 16-byte digest buffer: two hex digits per byte. In
   * the source the buffer is not initialised, so the bytes a short etag
   * does not reach hold whatever was there; the model fills them with zero.
   */
  function EtagDigest(etag: string): (d: seq<Byte>)
    ensures |d| == MD5_DIGEST_SIZE
  {
    if |etag| >= 2 * MD5_DIGEST_SIZE then UuidPath.Unhex(etag[..2 * MD5_DIGEST_SIZE])
    else
      var b := UuidPath.Unhex(etag);
      b + seq(MD5_DIGEST_SIZE - |b|, _ => 0)
  }

  /** A part etag that is the hex form of an MD5 digest reads back as that digest. */
  lemma DigestOfHexEtag(d: seq<Byte>)
    requires |d| == MD5_DIGEST_SIZE
    ensures EtagDigest(UuidPath.Hex(d)) == d
  {
    var h := UuidPath.Hex(d);
    assert h[..2 * MD5_DIGEST_SIZE] == h;
    UuidPath.UnhexHex(d);
  }

  /** The final etag: the hex digest, then "-<number of parts>" cut to the 7-byte suffix buffer. */
  function FinalEtag(digest: seq<Byte>, count: nat): (e: string)
    ensures |e| == 2 * |digest| + |PartSuffix(count)|
    ensures e[..2 * |digest|] == UuidPath.Hex(digest)
  {
    UuidPath.Hex(digest) + PartSuffix(count)
  }

  /** Up to the 10000-part limit the final etag carries the part count in full. */
  lemma FinalEtagCount(digest: seq<Byte>, count: nat)
    requires count <= MAX_PARTS
    ensures FinalEtag(digest, count) == UuidPath.Hex(digest) + "-" + Decimal.NatToString(count)
  {
    PartSuffixWhole(count);
  }

  /** The client's part list: part number and etag, by increasing part number. */
  type PartEtags = seq<(int, string)>

  /** The part numbers of a row sequence and the keys of the client's list. */
  function Nums(parts: seq<Part>): (r: seq<int>)
    ensures |r| == |parts|
  {
    seq(|parts|, i requires 0 <= i < |parts| => parts[i].partNum as int)
  }

  function Keys(etags: PartEtags): (r: seq<int>)
    ensures |r| == |etags|
  {
    seq(|etags|, i requires 0 <= i < |etags| => etags[i].0)
  }

  function Elems(s: seq<int>): set<int>
  {
    set i | 0 <= i < |s| :: s[i]
  }

  predicate Increasing(s: seq<int>)
  {
    forall i, j :: 0 <= i < j < |s| ==> s[i] < s[j]
  }

  /** Every part number the client lists is a stored part. */
  predicate AllListed(parts: seq<Part>, etags: PartEtags)
  {
    forall i :: 0 <= i < |etags| ==> etags[i].0 in Elems(Nums(parts))
  }

  function Min(a: nat, b: nat): nat
  {
    if a < b then a else b
  }

  /** What the validation loop accumulates: the expected size and the input to the MD5 hash. */
  datatype Walked = Walked(expectedSize: nat, hashInput: seq<Byte>)

  /** The checks the validation loop makes on the j-th part and the j-th client entry. */
  predicate Accepted(parts: seq<Part>, etags: PartEtags, unquote: string -> string, j: nat)
    requires j < |parts| && j < |etags|
  {
    && parts[j].IsFinished()
    && parts[j].partNum as int == etags[j].0
    && parts[j].etag.value == unquote(etags[j].1)
    && (parts[j].size >= MIN_PART_SIZE || j == |parts| - 1)
  }

  /**
   * The validation loop from position i on: the stored parts (by number)
   * and the client's entries in step; an unfinished part and an etag
   * mismatch give ERR_INVALID_PART, a number mismatch
   * ERR_INVALID_PART_ORDER, a part under 5 MiB that is not the last
   * ERR_TOO_SMALL.
   */
  function Walk(parts: seq<Part>, etags: PartEtags, unquote: string -> string, i: nat, acc: Walked): Result<Walked, Error>
    decreases |parts| - i
  {
    if i >= |parts| || i >= |etags| then Ok(acc)
    else if !parts[i].IsFinished() then Err(ERR_INVALID_PART)
    else if parts[i].partNum as int != etags[i].0 then Err(ERR_INVALID_PART_ORDER)
    else if parts[i].etag.value != unquote(etags[i].1) then Err(ERR_INVALID_PART)
    else if parts[i].size < MIN_PART_SIZE && i + 1 < |parts| then Err(ERR_TOO_SMALL)
    else
      Walk(parts, etags, unquote, i + 1,
           Walked(acc.expectedSize + parts[i].size, acc.hashInput + EtagDigest(parts[i].etag.value)))
  }

  function SumSizes(s: seq<Part>): nat
  {
    if |s| == 0 then 0 else s[0].size + SumSizes(s[1..])
  }

  /** The digests of the parts' etags, one after the other. */
  function Digests(s: seq<Part>): seq<Byte>
    requires forall i :: 0 <= i < |s| ==> s[i].etag.Some?
  {
    if |s| == 0 then [] else EtagDigest(s[0].etag.value) + Digests(s[1..])
  }

  /** Every position from i on passes the checks. */
  predicate AllAccepted(parts: seq<Part>, etags: PartEtags, unquote: string -> string, i: nat)
  {
    forall j :: i <= j < Min(|parts|, |etags|) ==> Accepted(parts, etags, unquote, j)
  }

  /** The loop succeeds from position i exactly when every position from i on passes the checks. */
  lemma {:induction false} WalkAccepts(parts: seq<Part>, etags: PartEtags, unquote: string -> string, i: nat, acc: Walked)
    requires i <= Min(|parts|, |etags|)
    ensures Walk(parts, etags, unquote, i, acc).Ok? <==> AllAccepted(parts, etags, unquote, i)
    decreases |parts| - i
  {
    if i < Min(|parts|, |etags|) && Accepted(parts, etags, unquote, i) {
      var next := Walked(acc.expectedSize + parts[i].size, acc.hashInput + EtagDigest(parts[i].etag.value));
      WalkAccepts(parts, etags, unquote, i + 1, next);
      assert Walk(parts, etags, unquote, i, acc) == Walk(parts, etags, unquote, i + 1, next);
    }
  }

  /** A successful loop from position i has added the size and etag digest
   *  of every part from i on. */
  lemma {:induction false} WalkTotals(parts: seq<Part>, etags: PartEtags, unquote: string -> string, i: nat, acc: Walked)
    requires i <= Min(|parts|, |etags|) && Walk(parts, etags, unquote, i, acc).Ok?
    ensures var n := Min(|parts|, |etags|);
            && (forall j :: i <= j < n ==> parts[j].etag.Some?)
            && Walk(parts, etags, unquote, i, acc).value
               == Walked(acc.expectedSize + SumSizes(parts[i..n]), acc.hashInput + Digests(parts[i..n]))
    decreases |parts| - i
  {
    var n := Min(|parts|, |etags|);
    if i < n {
      var d := EtagDigest(parts[i].etag.value);
      var next := Walked(acc.expectedSize + parts[i].size, acc.hashInput + d);
      assert Walk(parts, etags, unquote, i, acc) == Walk(parts, etags, unquote, i + 1, next);
      WalkTotals(parts, etags, unquote, i + 1, next);
      TotalsCons(parts, i, n, acc.hashInput);
    }
  }

  /** The totals over parts i..n are part i's followed by those over i+1..n. */
  lemma TotalsCons(parts: seq<Part>, i: nat, n: nat, h: seq<Byte>)
    requires i < n <= |parts| && forall j :: i <= j < n ==> parts[j].etag.Some?
    ensures SumSizes(parts[i..n]) == parts[i].size + SumSizes(parts[i + 1..n])
    ensures h + Digests(parts[i..n]) == (h + EtagDigest(parts[i].etag.value)) + Digests(parts[i + 1..n])
  {
    assert parts[i..n][1..] == parts[i + 1..n];
    var d := EtagDigest(parts[i].etag.value);
    assert Digests(parts[i..n]) == d + Digests(parts[i + 1..n]);
    assert h + (d + Digests(parts[i + 1..n])) == (h + d) + Digests(parts[i + 1..n]);
  }

  /** The validation loop, as the driver runs it. */
  method WalkParts(parts: seq<Part>, etags: PartEtags, unquote: string -> string) returns (r: Result<Walked, Error>)
    ensures r == Walk(parts, etags, unquote, 0, Walked(0, []))
  {
    var acc := Walked(0, []);
    var i := 0;
    while i < |parts| && i < |etags|
      invariant i <= |parts| && i <= |etags|
      invariant Walk(parts, etags, unquote, 0, Walked(0, [])) == Walk(parts, etags, unquote, i, acc)
    {
      var part := parts[i];
      var etag := unquote(etags[i].1);
      if !part.IsFinished() {
        return Err(ERR_INVALID_PART);
      }
      if part.partNum as int != etags[i].0 {
        return Err(ERR_INVALID_PART_ORDER);
      }
      if part.etag.value != etag {
        return Err(ERR_INVALID_PART);
      }
      if part.size < MIN_PART_SIZE && |parts| - i > 1 {
        return Err(ERR_TOO_SMALL);
      }
      acc := Walked(acc.expectedSize + part.size, acc.hashInput + EtagDigest(part.etag.value));
      i := i + 1;
    }
    r := Ok(acc);
  }

  /** The loop checking that every client-listed part exists. */
  method CheckListed(parts: seq<Part>, etags: PartEtags) returns (ok: bool)
    ensures ok == AllListed(parts, etags)
  {
    var nums := Elems(Nums(parts));
    var i := 0;
    while i < |etags|
      invariant i <= |etags|
      invariant forall j :: 0 <= j < i ==> etags[j].0 in nums
    {
      if etags[i].0 !in nums {
        return false;
      }
      i := i + 1;
    }
    ok := true;
  }

  /** A completed upload: the final etag and the object size. */
  datatype Completed = Completed(etag: string, size: nat)

  /**
   * The validation of complete, in the order the driver makes it, over the
   * stored parts of the upload by number.
   */
  function CompleteCheck(parts: seq<Part>, etags: PartEtags, availBytes: nat, unquote: string -> string,
                         md5: seq<Byte> -> seq<Byte>): Result<Completed, Error>
  {
    if |parts| != |etags| then Err(ERR_INVALID_PART)
    else if |etags| > MAX_PARTS then Err(ERR_INVALID_PART)
    else if !AllListed(parts, etags) then Err(ERR_INVALID_PART)
    else
      match Walk(parts, etags, unquote, 0, Walked(0, []))
      case Err(e) => Err(e)
      case Ok(w) =>
        if availBytes < w.expectedSize then Err(ERR_QUOTA_EXCEEDED)
        else Ok(Completed(FinalEtag(md5(w.hashInput), |etags|), w.expectedSize))
  }

  /**
   * A completion is accepted exactly when the counts agree and stay within
   * 10000, every listed part exists, every part passes the checks and the
   * parts fit in the available space; the object is then the sum of the
   * parts and its etag the MD5 of their digests followed by "-<count>".
   */
  lemma CompleteAccepts(parts: seq<Part>, etags: PartEtags, availBytes: nat, unquote: string -> string,
                        md5: seq<Byte> -> seq<Byte>)
    ensures CompleteCheck(parts, etags, availBytes, unquote, md5).Ok? <==>
              && |parts| == |etags| <= MAX_PARTS
              && AllListed(parts, etags)
              && (forall j :: 0 <= j < |parts| ==> Accepted(parts, etags, unquote, j))
              && availBytes >= SumSizes(parts)
    ensures CompleteCheck(parts, etags, availBytes, unquote, md5).Ok? ==>
              && (forall j :: 0 <= j < |parts| ==> parts[j].etag.Some?)
              && CompleteCheck(parts, etags, availBytes, unquote, md5).value
                 == Completed(UuidPath.Hex(md5(Digests(parts))) + "-" + Decimal.NatToString(|parts|), SumSizes(parts))
  {
    if |parts| == |etags| <= MAX_PARTS && AllListed(parts, etags) {
      WalkWhole(parts, etags, unquote);
      if Walk(parts, etags, unquote, 0, Walked(0, [])).Ok? {
        FinalEtagCount(md5(Digests(parts)), |parts|);
      }
    }
  }

  /** The walk over the whole list, from nothing accumulated. */
  lemma WalkWhole(parts: seq<Part>, etags: PartEtags, unquote: string -> string)
    requires |parts| == |etags|
    ensures Walk(parts, etags, unquote, 0, Walked(0, [])).Ok? <==> (forall j :: 0 <= j < |parts| ==> Accepted(parts, etags, unquote, j))
    ensures Walk(parts, etags, unquote, 0, Walked(0, [])).Ok? ==>
              && (forall j :: 0 <= j < |parts| ==> parts[j].etag.Some?)
              && Walk(parts, etags, unquote, 0, Walked(0, [])).value == Walked(SumSizes(parts), Digests(parts))
  {
    WalkAccepts(parts, etags, unquote, 0, Walked(0, []));
    assert Min(|parts|, |etags|) == |parts|;
    assert parts[0..|parts|] == parts;
    if Walk(parts, etags, unquote, 0, Walked(0, [])).Ok? {
      WalkTotals(parts, etags, unquote, 0, Walked(0, []));
      assert [] + Digests(parts) == Digests(parts);
    }
  }

  /** A strictly increasing sequence has as many distinct values as elements. */
  lemma {:induction false} IncreasingCard(s: seq<int>)
    requires Increasing(s)
    ensures |Elems(s)| == |s|
  {
    if |s| > 0 {
      var t := s[..|s| - 1];
      IncreasingCard(t);
      assert Elems(s) == Elems(t) + {s[|s| - 1]};
      assert s[|s| - 1] !in Elems(t);
    }
  }

  lemma SubsetSameSize(a: set<int>, b: set<int>)
    requires a <= b && |a| == |b|
    ensures a == b
  {
    if b - a != {} {
      var x := Collections.PickElem(b - a);
      assert a <= b - {x};
      assert |b - {x}| == |b| - 1;
      SubsetSize(a, b - {x});
    } else {
      forall x | x in b
        ensures x in a
      {
        assert x !in b - a;
      }
    }
  }

  lemma {:induction false} SubsetSize(a: set<int>, b: set<int>)
    requires a <= b
    ensures |a| <= |b|
    decreases |a|
  {
    if a != {} {
      var x := Collections.PickElem(a);
      SubsetSize(a - {x}, b - {x});
    }
  }

  /** Two increasing sequences with the same values agree position by position. */
  lemma {:induction false} AgreeUpTo(nums: seq<int>, keys: seq<int>, i: nat)
    requires Increasing(nums) && Increasing(keys) && |nums| == |keys|
    requires Elems(nums) == Elems(keys) && i <= |nums|
    ensures forall j :: 0 <= j < i ==> nums[j] == keys[j]
  {
    if i > 0 {
      var m := i - 1;
      AgreeUpTo(nums, keys, m);
      assert keys[m] in Elems(nums);
      var k :| 0 <= k < |nums| && nums[k] == keys[m];
      assert forall j :: 0 <= j < m ==> nums[j] == keys[j] < keys[m];
      assert k >= m;
      assert nums[m] in Elems(keys);
      var k2 :| 0 <= k2 < |keys| && keys[k2] == nums[m];
      assert forall j :: 0 <= j < m ==> keys[j] == nums[j] < nums[m];
      assert k2 >= m;
      assert keys[m] == nums[k] >= nums[m] == keys[k2] >= keys[m];
    }
  }

  /**
   * When the stored part numbers and the client's part numbers are both
   * strictly increasing, equally many, and every client number is stored,
   * the two lists agree position by position.
   */
  lemma SameNumbers(nums: seq<int>, keys: seq<int>)
    requires Increasing(nums) && Increasing(keys) && |nums| == |keys|
    requires forall i :: 0 <= i < |keys| ==> keys[i] in Elems(nums)
    ensures nums == keys
  {
    IncreasingCard(nums);
    IncreasingCard(keys);
    SubsetSameSize(Elems(keys), Elems(nums));
    AgreeUpTo(nums, keys, |nums|);
  }

  lemma {:induction false} WalkNoOrderError(parts: seq<Part>, etags: PartEtags, unquote: string -> string, i: nat, acc: Walked)
    requires forall j :: 0 <= j < |parts| && j < |etags| ==> parts[j].partNum as int == etags[j].0
    ensures Walk(parts, etags, unquote, i, acc) != Err(ERR_INVALID_PART_ORDER)
    decreases |parts| - i
  {
    if i < |parts| && i < |etags| {
      WalkNoOrderError(parts, etags, unquote, i + 1,
                       Walked(acc.expectedSize + parts[i].size,
                              if parts[i].IsFinished() then acc.hashInput + EtagDigest(parts[i].etag.value) else acc.hashInput));
    }
  }

  /**
   * ERR_INVALID_PART_ORDER is never returned: once the counts agree and
   * every client part exists, the stored parts (strictly ordered by number)
   * and the client's list match number for number.
   */
  lemma PartOrderCheckUnreachable(allParts: seq<Part>, nextId: int, uploadId: string, etags: PartEtags,
                                  availBytes: nat, unquote: string -> string, md5: seq<Byte> -> seq<Byte>)
    requires SM.PartsValid(allParts, nextId)
    requires Increasing(Keys(etags))
    ensures CompleteCheck(SM.PartsOfUpload(allParts, uploadId), etags, availBytes, unquote, md5)
            != Err(ERR_INVALID_PART_ORDER)
  {
    var parts := SM.PartsOfUpload(allParts, uploadId);
    if |parts| == |etags| <= MAX_PARTS && AllListed(parts, etags) {
      SM.PartsOfUploadOrdered(allParts, nextId, uploadId);
      SameNumbers(Nums(parts), Keys(etags));
      forall j | 0 <= j < |parts| && j < |etags|
        ensures parts[j].partNum as int == etags[j].0
      {
        assert Nums(parts)[j] == Keys(etags)[j];
      }
      WalkNoOrderError(parts, etags, unquote, 0, Walked(0, []));
    }
  }

  // ----- listing the parts into the upload -----

  /** The upload's part map after recording the finished entries of s. */
  function Record(m: map<U32, Part>, s: seq<Part>): map<U32, Part>
    decreases |s|
  {
    if |s| == 0 then m
    else Record(if s[0].IsFinished() then m[s[0].partNum := s[0]] else m, s[1..])
  }

  /**
   * After recording finished parts with distinct numbers, each is found
   * under its number, and the map holds the old numbers plus theirs.
   */
  lemma {:induction false} RecordContains(m: map<U32, Part>, s: seq<Part>)
    requires forall i :: 0 <= i < |s| ==> s[i].IsFinished()
    requires forall i, j :: 0 <= i < j < |s| ==> s[i].partNum != s[j].partNum
    ensures forall i :: 0 <= i < |s| ==> s[i].partNum in Record(m, s) && Record(m, s)[s[i].partNum] == s[i]
    ensures Record(m, s).Keys == m.Keys + set i | 0 <= i < |s| :: s[i].partNum
    ensures forall n :: n in m && (forall i :: 0 <= i < |s| ==> s[i].partNum != n) ==> Record(m, s)[n] == m[n]
    decreases |s|
  {
    if |s| > 0 {
      var m' := m[s[0].partNum := s[0]];
      RecordContains(m', s[1..]);
      assert (set i | 0 <= i < |s| :: s[i].partNum) == {s[0].partNum} + set i | 0 <= i < |s[1..]| :: s[1..][i].partNum;
      forall i | 0 <= i < |s|
        ensures s[i].partNum in Record(m, s) && Record(m, s)[s[i].partNum] == s[i]
      {
        if i > 0 {
          assert s[i] == s[1..][i - 1];
        }
      }
    }
  }

  /** A listed entry of the upload. */
  datatype UploadRef = UploadRef(uploadId: string, oid: string, owner: MC.Owner, mtime: int)

  function RefOf(r: MC.DbMultipart): UploadRef
  {
    UploadRef(r.uploadId, r.objectName, MC.RowOwner(r.ownerId, r.ownerDisplayName), r.mtime)
  }

  /** SFSMultipartUploadV2: one upload of the bucket, over the multipart tables db. */
  class MultipartUpload {
    const db: SM.SQLiteMultipart
    const uploadId: string
    const oid: string
    const metaStr: string
    var placement: MC.Placement
    var parts: map<U32, Part>

    predicate Valid()
      reads this, db
    {
      db.Valid()
    }

    /** The meta string is built from the object name and upload id; the placement is loaded when the upload is stored. */
    constructor (db0: SM.SQLiteMultipart, uploadId0: string, oid0: string)
      requires db0.Valid()
      ensures Valid()
      ensures db == db0 && uploadId == uploadId0 && oid == oid0
      ensures metaStr == MetaStr(oid0, uploadId0) && parts == map[]
      ensures var u := SM.FindUpload(db0.uploads, uploadId0);
              placement == if uploadId0 != "" && u.Some?
                           then MC.Placement(u.value.placementName, u.value.placementStorageClass)
                           else MC.Placement("", "")
    {
      var mp := db0.GetMultipart(uploadId0, (b: Blob) => b);
      db := db0;
      uploadId := uploadId0;
      oid := oid0;
      metaStr := MetaStr(oid0, uploadId0);
      parts := map[];
      placement := if mp.Some? then mp.value.placement else MC.Placement("", "");
    }

    /**
     * init: an upload already stored (or one the insert finds stored) gives
     * ERR_INTERNAL_ERROR; otherwise the upload is inserted in state INIT
     * with the object name, meta string, owner, placement and attributes,
     * and the placement is kept for get_info.
     */
    method Init<A>(bucketId: string, owner: MC.Owner, dest: MC.Placement, attrs: A, enc: A -> Blob,
                   uuid: UuidPath.Uuid, now: int) returns (r: Result<(), Error>)
      modifies this, db
      requires Valid()
      ensures Valid()
      ensures SM.FindUpload(old(db.uploads), uploadId).Some? ==>
                r == Err(ERR_INTERNAL_ERROR) && db.uploads == old(db.uploads) && placement == old(placement)
      ensures SM.FindUpload(old(db.uploads), uploadId).None? ==>
                && r == Ok(())
                && placement == dest
                && var u := SM.FindUpload(db.uploads, uploadId);
                   && u.Some?
                   && u.value.state == INIT && u.value.bucketId == bucketId
                   && u.value.objectName == oid && u.value.metaStr == metaStr && u.value.objectUuid == uuid
                   && u.value.ownerId == owner.id.id && u.value.ownerDisplayName == owner.displayName
                   && u.value.placementName == dest.name && u.value.placementStorageClass == dest.storageClass
                   && u.value.attrs == enc(attrs) && u.value.stateChangeTime == now && u.value.mtime == now
      ensures forall other :: other != uploadId ==> SM.FindUpload(db.uploads, other) == SM.FindUpload(old(db.uploads), other)
      ensures db.buckets == old(db.buckets) && db.parts == old(db.parts) && parts == old(parts)
    {
      var mp := db.GetMultipart(uploadId, (b: Blob) => b);
      if mp.Some? {
        return Err(ERR_INTERNAL_ERROR);
      }
      var op := MC.OpMultipart(0, bucketId, uploadId, INIT, now, oid, uuid, metaStr, owner, now, attrs, dest);
      var id := db.Insert(op, enc);
      if id.None? {
        return Err(ERR_INTERNAL_ERROR);
      }
      placement := dest;
      r := Ok(());
    }

    /**
     * list_parts: one page of the upload's finished parts, each recorded in
     * the part map under its number; the page's truncation and next marker
     * are passed on, and the caller's values (truncated0, nextMarker0) stay
     * when the page is the last one.
     */
    method ListParts(numParts: nat, marker: nat, truncated0: bool, nextMarker0: Option<int>)
      returns (truncated: bool, nextMarker: Option<int>)
      modifies this
      requires Valid()
      ensures Valid()
      ensures var q := SM.PartsQuery(db.parts, uploadId, marker);
              && parts == Record(old(parts), Sequences.Take(q, numParts))
              && (|q| > numParts ==> truncated && nextMarker == Some(q[numParts].id))
              && (|q| <= numParts ==> truncated == truncated0 && nextMarker == nextMarker0)
      ensures placement == old(placement)
    {
      var entries;
      entries, truncated, nextMarker := db.ListParts(uploadId, numParts, marker, truncated0, nextMarker0);
      var i := 0;
      while i < |entries|
        invariant i <= |entries|
        invariant Record(parts, entries[i..]) == Record(old(parts), entries)
        invariant placement == old(placement)
      {
        assert entries[i..][1..] == entries[i + 1..];
        if entries[i].IsFinished() {
          parts := parts[entries[i].partNum := entries[i]];
        }
        i := i + 1;
      }
    }

    /** abort: Ok when the upload was open and is now ABORTED, ERR_NO_SUCH_UPLOAD otherwise. */
    method Abort(now: int) returns (r: Result<(), Error>)
      modifies db
      requires Valid()
      ensures Valid()
      ensures var u := SM.FindUpload(old(db.uploads), uploadId);
              r.Ok? <==> u.Some? && u.value.state in SM.OPEN_STATES
      ensures r.Err? ==> r.error == ERR_NO_SUCH_UPLOAD && db.uploads == old(db.uploads)
      ensures r.Ok? ==> SM.FindUpload(db.uploads, uploadId).Some? && SM.FindUpload(db.uploads, uploadId).value.state == ABORTED
      ensures forall other :: other != uploadId ==> SM.FindUpload(db.uploads, other) == SM.FindUpload(old(db.uploads), other)
      ensures db.buckets == old(db.buckets) && db.parts == old(db.parts)
    {
      var ok := db.Abort(uploadId, now);
      r := if ok then Ok(()) else Err(ERR_NO_SUCH_UPLOAD);
    }

    /**
     * complete: an upload that is not open gives ERR_NO_SUCH_UPLOAD and is
     * left alone. An open upload is marked COMPLETE first, then validated
     * against its stored parts; a rejected completion leaves it COMPLETE.
     * Once accepted it is marked AGGREGATING, the final object is built
     * (aggregate is that step's failure, if any) and it is marked DONE.
     */
    method Complete(etags: PartEtags, availBytes: nat, unquote: string -> string,
                    md5: seq<Byte> -> seq<Byte>, aggregate: Option<Error>, now: int)
      returns (r: Result<Completed, Error>)
      modifies db
      requires Valid()
      requires Increasing(Keys(etags))
      ensures Valid()
      ensures var u := SM.FindUpload(old(db.uploads), uploadId);
              !(u.Some? && u.value.state in SM.OPEN_STATES) ==>
                r == Err(ERR_NO_SUCH_UPLOAD) && db.uploads == old(db.uploads)
      ensures var u := SM.FindUpload(old(db.uploads), uploadId);
              var check := CompleteCheck(SM.PartsOfUpload(old(db.parts), uploadId), etags, availBytes, unquote, md5);
              var after := SM.FindUpload(db.uploads, uploadId);
              u.Some? && u.value.state in SM.OPEN_STATES ==>
                && after.Some?
                && (check.Err? ==> r == check && after.value.state == COMPLETE)
                && (check.Ok? && aggregate.Some? ==> r == Err(aggregate.value) && after.value.state == AGGREGATING)
                && (check.Ok? && aggregate.None? ==> r == check && after.value.state == DONE)
      ensures forall other :: other != uploadId ==> SM.FindUpload(db.uploads, other) == SM.FindUpload(old(db.uploads), other)
      ensures db.buckets == old(db.buckets) && db.parts == old(db.parts)
    {
      var ok := db.MarkComplete(uploadId, now);
      if !ok {
        return Err(ERR_NO_SUCH_UPLOAD);
      }
      var stored := db.GetParts(uploadId);
      if |stored| != |etags| {
        return Err(ERR_INVALID_PART);
      }
      if |etags| > MAX_PARTS {
        return Err(ERR_INVALID_PART);
      }
      var listed := CheckListed(stored, etags);
      if !listed {
        return Err(ERR_INVALID_PART);
      }
      var walked := WalkParts(stored, etags, unquote);
      if walked.Err? {
        return Err(walked.error);
      }
      if availBytes < walked.value.expectedSize {
        return Err(ERR_QUOTA_EXCEEDED);
      }
      var etag := FinalEtag(md5(walked.value.hashInput), |etags|);
      ok := db.MarkAggregating(uploadId, now);
      if aggregate.Some? {
        return Err(aggregate.value);
      }
      ok := db.MarkDone(uploadId, now);
      r := Ok(Completed(etag, walked.value.expectedSize));
    }

    /**
     * get_info: ERR_NO_SUCH_UPLOAD unless the upload is stored and INIT or
     * INPROGRESS; otherwise the placement (none when empty) and the stored
     * attributes.
     */
    method GetInfo<A>(dec: Blob -> A) returns (r: Result<(Option<MC.Placement>, A), Error>)
      requires Valid()
      ensures var u := SM.FindUpload(db.uploads, uploadId);
              r.Ok? <==> uploadId != "" && u.Some? && u.value.state in SM.OPEN_STATES
      ensures r.Err? ==> r.error == ERR_NO_SUCH_UPLOAD
      ensures r.Ok? ==>
                && r.value.0 == (if PlacementEmpty(placement) then None else Some(placement))
                && r.value.1 == dec(SM.FindUpload(db.uploads, uploadId).value.attrs)
    {
      var mp := db.GetMultipart(uploadId, dec);
      if mp.None? {
        return Err(ERR_NO_SUCH_UPLOAD);
      }
      if mp.value.state != INIT && mp.value.state != INPROGRESS {
        return Err(ERR_NO_SUCH_UPLOAD);
      }
      var rule := if PlacementEmpty(placement) then None else Some(placement);
      r := Ok((rule, mp.value.attrs));
    }
  }

  /**
   * list_multiparts: ERR_NO_SUCH_BUCKET for an unknown bucket; otherwise
   * one upload entry (id, object, owner, mtime) per listed row. The
   * caller's truncation flag is only ever set, never cleared.
   */
  method ListMultipartUploads(db: SM.SQLiteMultipart, bucketName: string, prefix: string, marker: string, maxUploads: nat,
                              truncated0: bool)
    returns (r: Result<seq<UploadRef>, Error>, truncated: bool)
    requires db.Valid()
    ensures r.Err? <==> SM.FindBucket(db.buckets, bucketName).None?
    ensures r.Err? ==> r.error == ERR_NO_SUCH_BUCKET && truncated == truncated0
    ensures r.Ok? ==>
              var q := SM.UploadsQuery(db.uploads, SM.FindBucket(db.buckets, bucketName).value.bucketId, prefix, marker);
              && |r.value| == |Sequences.Take(q, maxUploads)|
              && (forall i :: 0 <= i < |r.value| ==> r.value[i] == RefOf(q[i]))
              && (truncated <==> truncated0 || |q| > maxUploads)
  {
    var entries;
    entries, truncated := db.ListMultiparts(bucketName, prefix, marker, maxUploads, (b: Blob) => b, truncated0);
    if entries.None? {
      return Err(ERR_NO_SUCH_BUCKET), truncated;
    }
    var refs: seq<UploadRef> := [];
    var i := 0;
    while i < |entries.value|
      invariant i <= |entries.value| && |refs| == i
      invariant forall k :: 0 <= k < i ==>
                  refs[k] == UploadRef(entries.value[k].uploadId, entries.value[k].objectName,
                                       entries.value[k].owner, entries.value[k].mtime)
    {
      var e := entries.value[i];
      refs := refs + [UploadRef(e.uploadId, e.objectName, e.owner, e.mtime)];
      i := i + 1;
    }
    r := Ok(refs);
  }

  /** abort_multiparts: ERR_NO_SUCH_BUCKET for an unknown bucket; otherwise its open uploads become ABORTED. */
  method AbortMultipartUploads(db: SM.SQLiteMultipart, bucketName: string, now: int) returns (r: Result<(), Error>)
    modifies db
    requires db.Valid()
    ensures db.Valid()
    ensures r.Err? <==> SM.FindBucket(old(db.buckets), bucketName).None?
    ensures r.Err? ==> r.error == ERR_NO_SUCH_BUCKET && db.uploads == old(db.uploads)
    ensures r.Ok? ==>
              db.uploads == SM.SetState(old(db.uploads), SM.BucketIs(SM.FindBucket(old(db.buckets), bucketName).value.bucketId),
                                        SM.OPEN_STATES, ABORTED, now)
    ensures db.buckets == old(db.buckets) && db.parts == old(db.parts)
  {
    var n := db.AbortMultiparts(bucketName, now);
    r := if n.Err? then Err(ERR_NO_SUCH_BUCKET) else Ok(());
  }
}
