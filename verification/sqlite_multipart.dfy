/**
 * SQLiteMultipart (driver/sfs/sqlite/sqlite_multipart.cc): the multipart
 * upload and part tables of the SFS metadata database and the conditional
 * row updates that move an upload through its states.
 *
 * Each table is a sequence of rows in row-id order. An UPDATE ... WHERE is a
 * pointwise rewrite of the rows the WHERE selects, and the change count
 * SQLite reports is the number of those rows.
 */
module SqliteMultipart {
  import opened Wrappers
  import opened ConversionUtils
  import opened MultipartTypes
  import opened Sequences
  import StringOrder
  import RgwErrors
  import MC = MultipartConversions

  type Row = MC.DbMultipart

  /** The two columns of DBBucket the upload queries read. */
  datatype BucketRow = BucketRow(bucketName: string, bucketId: Option<string>)

  /** DBMultipartPart: a part is finished once it has an etag. */
  datatype Part = Part(id: int, uploadId: string, partNum: U32, size: U64, etag: Option<string>, mtime: Option<int>)
  {
    predicate IsFinished()
    {
      etag.Some?
    }
  }

  /** The states between INIT (inclusive) and COMPLETE (exclusive). */
  const OPEN_STATES: set<MultipartState> := {INIT, INPROGRESS}

  lemma OpenStatesRange(s: MultipartState)
    ensures s in OPEN_STATES <==> StateValue(INIT) <= StateValue(s) < StateValue(COMPLETE)
    ensures s in OPEN_STATES <==> StateValue(INIT) <= StateValue(s) <= StateValue(INPROGRESS)
  {
  }

  // ---------------------------------------------------------------------
  // The upload table
  // ---------------------------------------------------------------------

  /** The row selector of an UPDATE on the upload table. */
  datatype Where = UploadIs(uploadId: string) | BucketIs(bucketId: Option<string>)

  predicate Selects(w: Where, u: Row)
  {
    match w
    case UploadIs(id) => u.uploadId == id
    case BucketIs(b) => Some(u.bucketId) == b
  }

  /** UPDATE SET state = to, state_change_time = now WHERE w AND state IN from. */
  function SetState(rows: seq<Row>, w: Where, from: set<MultipartState>, to: MultipartState, now: int): (r: seq<Row>)
    ensures |r| == |rows|
    ensures forall i :: 0 <= i < |rows| ==> r[i].uploadId == rows[i].uploadId
  {
    seq(|rows|, i requires 0 <= i < |rows| =>
      if Selects(w, rows[i]) && rows[i].state in from then rows[i].(state := to, stateChangeTime := now) else rows[i])
  }

  /** The change count of that UPDATE. */
  function Changes(rows: seq<Row>, w: Where, from: set<MultipartState>): (n: nat)
    ensures n <= |rows|
  {
    if |rows| == 0 then 0
    else (if Selects(w, rows[0]) && rows[0].state in from then 1 else 0) + Changes(rows[1..], w, from)
  }

  predicate UniqueUploads(rows: seq<Row>)
  {
    forall i, j :: 0 <= i < j < |rows| ==> rows[i].uploadId != rows[j].uploadId
  }

  /** The row of an upload id, if any. */
  function FindUpload(rows: seq<Row>, id: string): (r: Option<Row>)
    ensures r.Some? ==> r.value in rows && r.value.uploadId == id
    ensures r.None? ==> forall i :: 0 <= i < |rows| ==> rows[i].uploadId != id
  {
    if |rows| == 0 then None
    else if rows[0].uploadId == id then Some(rows[0])
    else
      var r := FindUpload(rows[1..], id);
      assert forall i :: 1 <= i < |rows| ==> rows[i] == rows[1..][i - 1];
      r
  }

  /** With unique ids, every row is the one its id finds. */
  lemma FindAt(rows: seq<Row>, i: nat)
    requires UniqueUploads(rows) && i < |rows|
    ensures FindUpload(rows, rows[i].uploadId) == Some(rows[i])
  {
    var r := FindUpload(rows, rows[i].uploadId);
    var j :| 0 <= j < |rows| && rows[j] == r.value;
    assert j == i;
  }

  /** With unique ids, an UPDATE on one upload id changes at most that row. */
  lemma {:induction false} ChangesByUpload(rows: seq<Row>, id: string, from: set<MultipartState>)
    requires UniqueUploads(rows)
    ensures Changes(rows, UploadIs(id), from)
            == if FindUpload(rows, id).Some? && FindUpload(rows, id).value.state in from then 1 else 0
  {
    if |rows| > 0 {
      assert UniqueUploads(rows[1..]) by {
        forall i, j | 0 <= i < j < |rows[1..]|
          ensures rows[1..][i].uploadId != rows[1..][j].uploadId
        {
          assert rows[1..][i] == rows[i + 1] && rows[1..][j] == rows[j + 1];
        }
      }
      ChangesByUpload(rows[1..], id, from);
      if rows[0].uploadId == id {
        forall k | 0 <= k < |rows[1..]|
          ensures rows[1..][k].uploadId != id
        {
          assert rows[1..][k] == rows[k + 1];
        }
      }
    }
  }

  /**
   * After an UPDATE on one upload id, that upload's row moves to `to` when
   * its state was in `from`, and every other upload's row is unchanged.
   */
  lemma SetStateFind(rows: seq<Row>, id: string, from: set<MultipartState>, to: MultipartState, now: int, other: string)
    requires UniqueUploads(rows)
    ensures UniqueUploads(SetState(rows, UploadIs(id), from, to, now))
    ensures var after := FindUpload(SetState(rows, UploadIs(id), from, to, now), other);
            var before := FindUpload(rows, other);
            && (before.None? ==> after.None?)
            && (before.Some? && other == id && before.value.state in from ==>
                  after == Some(before.value.(state := to, stateChangeTime := now)))
            && (before.Some? && (other != id || before.value.state !in from) ==> after == before)
  {
    var r := SetState(rows, UploadIs(id), from, to, now);
    var before := FindUpload(rows, other);
    if before.Some? {
      var i :| 0 <= i < |rows| && rows[i] == before.value;
      FindAt(rows, i);
      FindAt(r, i);
    } else {
      assert forall i :: 0 <= i < |r| ==> r[i].uploadId != other;
    }
  }

  /** Each state change moves an upload forward in MultipartState order. */
  predicate Step(a: MultipartState, b: MultipartState)
  {
    || (a == INIT && b == INPROGRESS)
    || (a in OPEN_STATES && (b == COMPLETE || b == ABORTED))
    || (a == COMPLETE && b == AGGREGATING)
    || (a == AGGREGATING && b == DONE)
  }

  /** States only ever grow; DONE and ABORTED are final. */
  lemma StepForward(a: MultipartState, b: MultipartState)
    requires Step(a, b)
    ensures StateValue(a) < StateValue(b)
    ensures a != DONE && a != ABORTED
  {
  }

  // ---------------------------------------------------------------------
  // The part table
  // ---------------------------------------------------------------------

  /** Row ids increase with position, stay below the next id, and (upload, number) is unique. */
  predicate PartsValid(parts: seq<Part>, nextId: int)
  {
    && (forall i, j :: 0 <= i < j < |parts| ==> parts[i].id < parts[j].id)
    && (forall i :: 0 <= i < |parts| ==> parts[i].id < nextId)
    && (forall i, j :: 0 <= i < j < |parts| ==>
          parts[i].uploadId != parts[j].uploadId || parts[i].partNum != parts[j].partNum)
  }

  /** The position of an upload's part with a given number, if any. */
  function PartIndex(parts: seq<Part>, uploadId: string, partNum: U32): (r: Option<nat>)
    ensures r.Some? ==> r.value < |parts| && parts[r.value].uploadId == uploadId && parts[r.value].partNum == partNum
    ensures r.None? ==> forall i :: 0 <= i < |parts| ==> parts[i].uploadId != uploadId || parts[i].partNum != partNum
  {
    if |parts| == 0 then None
    else if parts[0].uploadId == uploadId && parts[0].partNum == partNum then Some(0)
    else
      match PartIndex(parts[1..], uploadId, partNum)
      case None =>
        assert forall i :: 1 <= i < |parts| ==> parts[i] == parts[1..][i - 1];
        None
      case Some(k) => Some(k + 1)
  }

  function PartOf(parts: seq<Part>, uploadId: string, partNum: U32): Option<Part>
  {
    match PartIndex(parts, uploadId, partNum)
    case None => None
    case Some(k) => Some(parts[k])
  }

  /** With unique (upload, number) pairs, every part is the one its pair finds. */
  lemma PartIndexAt(parts: seq<Part>, nextId: int, i: nat)
    requires PartsValid(parts, nextId) && i < |parts|
    ensures PartIndex(parts, parts[i].uploadId, parts[i].partNum) == Some(i)
  {
  }

  /** Rewriting one part leaves every other (upload, number) pair's part as it was. */
  lemma RewritePartOthers(parts: seq<Part>, nextId: int, k: nat, p: Part, uploadId: string, partNum: U32)
    requires PartsValid(parts, nextId) && k < |parts|
    requires p.id == parts[k].id && p.uploadId == parts[k].uploadId && p.partNum == parts[k].partNum
    ensures PartsValid(parts[k := p], nextId)
    ensures PartOf(parts[k := p], p.uploadId, p.partNum) == Some(p)
    ensures uploadId != p.uploadId || partNum != p.partNum ==>
              PartOf(parts[k := p], uploadId, partNum) == PartOf(parts, uploadId, partNum)
  {
    var q := parts[k := p];
    PartIndexAt(q, nextId, k);
    if uploadId != p.uploadId || partNum != p.partNum {
      match PartIndex(parts, uploadId, partNum)
      case None =>
      case Some(j) =>
        PartIndexAt(q, nextId, j);
    }
  }

  /** Appending a part with a fresh id and a fresh (upload, number) pair. */
  lemma AppendPart(parts: seq<Part>, nextId: int, p: Part, uploadId: string, partNum: U32)
    requires PartsValid(parts, nextId)
    requires p.id == nextId && PartIndex(parts, p.uploadId, p.partNum).None?
    ensures PartsValid(parts + [p], nextId + 1)
    ensures PartOf(parts + [p], p.uploadId, p.partNum) == Some(p)
    ensures uploadId != p.uploadId || partNum != p.partNum ==>
              PartOf(parts + [p], uploadId, partNum) == PartOf(parts, uploadId, partNum)
  {
    var q := parts + [p];
    PartIndexAt(q, nextId + 1, |parts|);
    if uploadId != p.uploadId || partNum != p.partNum {
      match PartIndex(parts, uploadId, partNum)
      case None =>
      case Some(j) =>
        PartIndexAt(q, nextId + 1, j);
    }
  }

  /** list_parts selects the finished parts of an upload from a row id on. */
  predicate Listed(p: Part, uploadId: string, marker: int)
  {
    p.uploadId == uploadId && p.IsFinished() && p.id >= marker
  }

  /** The part rows list_parts reads, in row-id order. */
  function PartsQuery(parts: seq<Part>, uploadId: string, marker: int): seq<Part>
  {
    Filter(parts, (p: Part) => Listed(p, uploadId, marker))
  }

  predicate IncreasingIds(s: seq<Part>)
  {
    forall i, j :: 0 <= i < j < |s| ==> s[i].id < s[j].id
  }

  lemma {:induction false} FilterIncreasing(s: seq<Part>, p: Part -> bool)
    requires IncreasingIds(s)
    ensures IncreasingIds(Filter(s, p))
  {
    if |s| > 0 {
      var s1 := s[1..];
      IncreasingIdsTail(s);
      FilterIncreasing(s1, p);
      if p(s[0]) {
        FilterAbove(s, p);
        ConsIncreasing(s[0], Filter(s1, p));
      }
    }
  }

  /** Every row a filter keeps of the later rows has a larger id than the first. */
  lemma FilterAbove(s: seq<Part>, p: Part -> bool)
    requires IncreasingIds(s) && |s| > 0
    ensures forall j :: 0 <= j < |Filter(s[1..], p)| ==> s[0].id < Filter(s[1..], p)[j].id
  {
    var s1 := s[1..];
    var t := Filter(s1, p);
    FilterSpec(s1, p);
    forall j | 0 <= j < |t|
      ensures s[0].id < t[j].id
    {
      assert t[j] in multiset(s1);
      var k :| 0 <= k < |s1| && s1[k] == t[j];
      assert s[k + 1] == t[j];
    }
  }

  /** A row below every row of an increasing sequence can go in front of it. */
  lemma ConsIncreasing(h: Part, t: seq<Part>)
    requires IncreasingIds(t)
    requires forall j :: 0 <= j < |t| ==> h.id < t[j].id
    ensures IncreasingIds([h] + t)
  {
    var r := [h] + t;
    forall i, j | 0 <= i < j < |r|
      ensures r[i].id < r[j].id
    {
      if i == 0 {
        assert r[j] == t[j - 1];
      } else {
        assert r[i] == t[i - 1] && r[j] == t[j - 1];
      }
    }
  }

  /**
   * Starting from a later marker drops exactly the parts below it: the rows
   * read are those of the earlier query from the marker on.
   */
  lemma {:induction false} RaiseMarker(parts: seq<Part>, uploadId: string, m1: int, m2: int)
    requires m1 <= m2
    ensures PartsQuery(parts, uploadId, m2) == Filter(PartsQuery(parts, uploadId, m1), (p: Part) => p.id >= m2)
  {
    if |parts| > 0 {
      RaiseMarker(parts[1..], uploadId, m1, m2);
    }
  }

  /** In an id-ordered sequence, the rows with id at least s[n].id are s[n..]. */
  lemma {:induction false} SuffixFromId(s: seq<Part>, n: nat)
    requires IncreasingIds(s) && n < |s|
    ensures Filter(s, (p: Part) => p.id >= s[n].id) == s[n..]
  {
    var m := s[n].id;
    if n == 0 {
      AllFrom(s, m);
    } else {
      IncreasingIdsTail(s);
      assert s[1..][n - 1] == s[n];
      SuffixFromId(s[1..], n - 1);
      assert s[1..][n - 1..] == s[n..];
    }
  }

  lemma {:induction false} AllFrom(s: seq<Part>, m: int)
    requires forall i :: 0 <= i < |s| ==> s[i].id >= m
    ensures Filter(s, (p: Part) => p.id >= m) == s
  {
    if |s| > 0 {
      AllFrom(s[1..], m);
      assert s == [s[0]] + s[1..];
    }
  }

  /**
   * Paging: when a listing of n parts is truncated at next marker q[n].id,
   * listing again from that marker yields exactly the parts not yet returned.
   */
  lemma NextPageContinues(parts: seq<Part>, uploadId: string, marker: int, n: nat)
    requires IncreasingIds(parts)
    requires n < |PartsQuery(parts, uploadId, marker)|
    ensures var q := PartsQuery(parts, uploadId, marker);
            PartsQuery(parts, uploadId, q[n].id) == q[n..]
  {
    var q := PartsQuery(parts, uploadId, marker);
    FilterIncreasing(parts, (p: Part) => Listed(p, uploadId, marker));
    FilterSpec(parts, (p: Part) => Listed(p, uploadId, marker));
    assert q[n].id >= marker;
    RaiseMarker(parts, uploadId, marker, q[n].id);
    SuffixFromId(q, n);
  }

  /** ORDER BY part_num. */
  function PartNumLe(a: Part, b: Part): bool
  {
    a.partNum <= b.partNum
  }

  lemma PartNumLeTotal()
    ensures TotalPreorder(PartNumLe)
  {
  }

  /** The parts get_parts returns: all of the upload's parts by part number. */
  function PartsOfUpload(parts: seq<Part>, uploadId: string): seq<Part>
  {
    Sort(Filter(parts, (p: Part) => p.uploadId == uploadId), PartNumLe)
  }

  /** get_parts is ordered by number, strictly, and holds every part of the upload. */
  lemma PartsOfUploadOrdered(parts: seq<Part>, nextId: int, uploadId: string)
    requires PartsValid(parts, nextId)
    ensures var r := PartsOfUpload(parts, uploadId);
            && (forall i, j :: 0 <= i < j < |r| ==> r[i].partNum < r[j].partNum)
            && (forall i :: 0 <= i < |r| ==> r[i].uploadId == uploadId)
            && (forall i :: 0 <= i < |parts| && parts[i].uploadId == uploadId ==> parts[i] in r)
  {
    var f := Filter(parts, (p: Part) => p.uploadId == uploadId);
    var r := PartsOfUpload(parts, uploadId);
    FilterSpec(parts, (p: Part) => p.uploadId == uploadId);
    PartNumLeTotal();
    SortSorted(f, PartNumLe);
    forall i | 0 <= i < |r|
      ensures r[i] in f
    {
      SortSameRows(f, PartNumLe, r[i]);
    }
    forall i | 0 <= i < |parts| && parts[i].uploadId == uploadId
      ensures parts[i] in r
    {
      SortSameRows(f, PartNumLe, parts[i]);
    }
    forall i, j | 0 <= i < j < |r|
      ensures r[i].partNum < r[j].partNum
    {
      PartsOfUploadPair(parts, nextId, uploadId, i, j);
    }
  }

  /** Two positions of get_parts' answer hold different part numbers, the earlier the smaller. */
  lemma PartsOfUploadPair(parts: seq<Part>, nextId: int, uploadId: string, i: nat, j: nat)
    requires PartsValid(parts, nextId)
    requires i < j < |PartsOfUpload(parts, uploadId)|
    ensures PartsOfUpload(parts, uploadId)[i].partNum < PartsOfUpload(parts, uploadId)[j].partNum
  {
    var f := Filter(parts, (p: Part) => p.uploadId == uploadId);
    var r := PartsOfUpload(parts, uploadId);
    FilterSpec(parts, (p: Part) => p.uploadId == uploadId);
    PartNumLeTotal();
    SortSorted(f, PartNumLe);
    SortSameRows(f, PartNumLe, r[i]);
    SortSameRows(f, PartNumLe, r[j]);
    assert r[i] in multiset(r) && r[j] in multiset(r);
    assert multiset(r) == multiset(f);
    var a :| 0 <= a < |parts| && parts[a] == r[i];
    var b :| 0 <= b < |parts| && parts[b] == r[j];
    if r[i].partNum == r[j].partNum {
      assert a == b;
      MultisetTwice(r, i, j);
      assert multiset(f)[r[i]] >= 2;
      FilterAtMostOnce(parts, (p: Part) => p.uploadId == uploadId, a);
    }
  }

  lemma MultisetTwice<T>(s: seq<T>, i: nat, j: nat)
    requires i < j < |s| && s[i] == s[j]
    ensures multiset(s)[s[i]] >= 2
  {
    assert s == s[..i] + [s[i]] + s[i + 1..j] + [s[j]] + s[j + 1..];
  }

  /** A row that occurs once in the table occurs at most once in a filter of it. */
  lemma {:induction false} FilterAtMostOnce(s: seq<Part>, p: Part -> bool, a: nat)
    requires IncreasingIds(s) && a < |s|
    ensures multiset(Filter(s, p))[s[a]] <= 1
  {
    FilterSpec(s, p);
    CountOnce(s, a);
  }

  lemma IncreasingIdsTail(s: seq<Part>)
    requires IncreasingIds(s) && |s| > 0
    ensures IncreasingIds(s[1..])
  {
    forall i, j | 0 <= i < j < |s| - 1 ensures s[1..][i].id < s[1..][j].id {
      assert s[1..][i] == s[i + 1] && s[1..][j] == s[j + 1];
    }
  }

  lemma {:induction false} CountOnce(s: seq<Part>, a: nat)
    requires IncreasingIds(s) && a < |s|
    ensures multiset(s)[s[a]] == 1
  {
    var t := s[1..];
    assert s == [s[0]] + t;
    assert multiset(s) == multiset{s[0]} + multiset(t);
    if a == 0 {
      assert s[0] !in t by {
        forall k | 0 <= k < |t| ensures t[k] != s[0] { assert s[0].id < s[k + 1].id; }
      }
    } else {
      IncreasingIdsTail(s);
      assert t[a - 1] == s[a] && s[0].id < s[a].id;
      CountOnce(t, a - 1);
    }
  }

  // ---------------------------------------------------------------------
  // Listing uploads
  // ---------------------------------------------------------------------

  function FindBucket(buckets: seq<BucketRow>, name: string): (r: Option<BucketRow>)
    ensures r.Some? ==> r.value in buckets && r.value.bucketName == name
    ensures r.None? ==> forall i :: 0 <= i < |buckets| ==> buckets[i].bucketName != name
  {
    if |buckets| == 0 then None
    else if buckets[0].bucketName == name then Some(buckets[0])
    else
      var r := FindBucket(buckets[1..], name);
      assert forall i :: 1 <= i < |buckets| ==> buckets[i] == buckets[1..][i - 1];
      r
  }

  /** SQLite's default LIKE folds the case of ASCII letters only. */
  function FoldAscii(c: char): char
  {
    if 'A' <= c <= 'Z' then (c as int - 'A' as int + 'a' as int) as char else c
  }

  /**
   * SQLite's LIKE without an ESCAPE clause: '%' matches any run of
   * characters, '_' any one character, and any other character matches
   * itself up to the case of ASCII letters.
   */
  predicate LikeMatch(p: string, s: string)
    decreases |p| + |s|
  {
    if |p| == 0 then |s| == 0
    else if p[0] == '%' then LikeMatch(p[1..], s) || (|s| > 0 && LikeMatch(p, s[1..]))
    else |s| > 0 && (p[0] == '_' || FoldAscii(p[0]) == FoldAscii(s[0])) && LikeMatch(p[1..], s[1..])
  }

  /** A lone '%' matches every string. */
  lemma {:induction false} LikeAnyMatches(s: string)
    ensures LikeMatch("%", s)
    decreases |s|
  {
    if |s| > 0 {
      LikeAnyMatches(s[1..]);
    } else {
      assert "%"[1..] == [];
    }
  }

  /** The first n characters of s equal those of p up to ASCII case. */
  predicate FoldPrefix(p: string, s: string)
  {
    |p| <= |s| && forall i :: 0 <= i < |p| ==> FoldAscii(p[i]) == FoldAscii(s[i])
  }

  predicate NoWildcards(p: string)
  {
    forall i :: 0 <= i < |p| ==> p[i] != '%' && p[i] != '_'
  }

  /**
   * The pattern prefix + "%" of list_multiparts: for a prefix without
   * wildcards, it selects exactly the names starting with the prefix up to
   * the case of ASCII letters.
   */
  lemma {:induction false} LikePrefixMatch(prefix: string, s: string)
    requires NoWildcards(prefix)
    ensures LikeMatch(prefix + "%", s) <==> FoldPrefix(prefix, s)
    decreases |prefix|
  {
    if |prefix| == 0 {
      assert prefix + "%" == "%";
      LikeAnyMatches(s);
    } else {
      var p := prefix + "%";
      assert p[0] == prefix[0] && p[1..] == prefix[1..] + "%";
      LikePrefixMatch(prefix[1..], if |s| > 0 then s[1..] else s);
      if |s| > 0 && FoldAscii(prefix[0]) == FoldAscii(s[0]) {
        if FoldPrefix(prefix[1..], s[1..]) {
          forall i | 0 <= i < |prefix|
            ensures FoldAscii(prefix[i]) == FoldAscii(s[i])
          {
            if i > 0 {
              assert prefix[i] == prefix[1..][i - 1] && s[i] == s[1..][i - 1];
            }
          }
        }
        if FoldPrefix(prefix, s) {
          forall i | 0 <= i < |prefix| - 1
            ensures FoldAscii(prefix[1..][i]) == FoldAscii(s[1..][i])
          {
            assert prefix[1..][i] == prefix[i + 1] && s[1..][i] == s[i + 1];
          }
        }
      }
    }
  }

  /** Every name that starts with the prefix exactly is listed under it. */
  lemma {:induction false} LikeExactPrefix(prefix: string, s: string)
    requires prefix <= s
    ensures LikeMatch(prefix + "%", s)
    decreases |prefix|
  {
    if |prefix| == 0 {
      assert prefix + "%" == "%";
      LikeAnyMatches(s);
    } else {
      var p := prefix + "%";
      assert p[0] == prefix[0] && p[1..] == prefix[1..] + "%";
      assert prefix[1..] <= s[1..];
      LikeExactPrefix(prefix[1..], s[1..]);
    }
  }

  /**
   * The prefix is a pattern: a '_' in it stands for any character and
   * letters match either case, so the prefix "a_" lists "ABC".
   */
  lemma PrefixIsPattern()
    ensures LikeMatch("a_" + "%", "ABC")
    ensures !("a_" <= "ABC")
  {
    assert ("a_" + "%")[1..] == "_%";
    assert "_%"[1..] == "%";
    assert "ABC"[1..] == "BC" && "BC"[1..] == "C";
    LikeAnyMatches("C");
    assert "ABC"[0] != 'a';
  }

  /**
   * The WHERE of list_multiparts: the bucket's uploads in [INIT, COMPLETE)
   * whose meta string is at least the marker and whose object name is LIKE
   * the prefix followed by '%'.
   */
  predicate Listable(u: Row, bucketId: Option<string>, prefix: string, marker: string)
  {
    && Some(u.bucketId) == bucketId
    && u.state in OPEN_STATES
    && !StringOrder.LexLess(u.metaStr, marker)
    && LikeMatch(prefix + "%", u.objectName)
  }

  /** ORDER BY meta_str. */
  function MetaLe(a: Row, b: Row): bool
  {
    !StringOrder.LexLess(b.metaStr, a.metaStr)
  }

  lemma MetaLeTotal()
    ensures TotalPreorder(MetaLe)
  {
    forall a: Row, b: Row
      ensures MetaLe(a, b) || MetaLe(b, a)
    {
      if StringOrder.LexLess(b.metaStr, a.metaStr) {
        StringOrder.LexLessAsymmetric(b.metaStr, a.metaStr);
      }
    }
    forall a: Row, b: Row, c: Row | MetaLe(a, b) && MetaLe(b, c)
      ensures MetaLe(a, c)
    {
      if StringOrder.LexLess(c.metaStr, a.metaStr) {
        StringOrder.LexLessTotal(a.metaStr, b.metaStr);
        StringOrder.LexLessTotal(b.metaStr, c.metaStr);
        if a.metaStr != b.metaStr && b.metaStr != c.metaStr {
          StringOrder.LexLessTransitive(c.metaStr, a.metaStr, b.metaStr);
        }
      }
    }
  }

  /** The rows list_multiparts reads, before the limit. */
  function UploadsQuery(rows: seq<Row>, bucketId: Option<string>, prefix: string, marker: string): seq<Row>
  {
    Sort(Filter(rows, (u: Row) => Listable(u, bucketId, prefix, marker)), MetaLe)
  }

  /**
   * The listing holds exactly the selected uploads, ordered by meta string;
   * a page of n holds at most n of them and sorts before every upload it leaves out.
   */
  lemma UploadsQueryListing(rows: seq<Row>, bucketId: Option<string>, prefix: string, marker: string, n: nat)
    ensures var q := UploadsQuery(rows, bucketId, prefix, marker);
            && (forall i :: 0 <= i < |q| ==> Listable(q[i], bucketId, prefix, marker))
            && (forall i :: 0 <= i < |rows| && Listable(rows[i], bucketId, prefix, marker) ==> rows[i] in q)
            && (forall i, j :: 0 <= i < j < |q| ==> !StringOrder.LexLess(q[j].metaStr, q[i].metaStr))
            && |Take(q, n)| <= n
            && (forall i, j :: 0 <= i < |Take(q, n)| <= j < |q| ==> !StringOrder.LexLess(q[j].metaStr, q[i].metaStr))
  {
    var f := Filter(rows, (u: Row) => Listable(u, bucketId, prefix, marker));
    var q := UploadsQuery(rows, bucketId, prefix, marker);
    FilterSpec(rows, (u: Row) => Listable(u, bucketId, prefix, marker));
    MetaLeTotal();
    SortSorted(f, MetaLe);
    forall i | 0 <= i < |q|
      ensures Listable(q[i], bucketId, prefix, marker)
    {
      SortSameRows(f, MetaLe, q[i]);
    }
    forall i | 0 <= i < |rows| && Listable(rows[i], bucketId, prefix, marker)
      ensures rows[i] in q
    {
      SortSameRows(f, MetaLe, rows[i]);
    }
  }

  /** The loop that converts each row read into the driver's form. */
  method ConvertAll<A>(rows: seq<Row>, dec: Blob -> A) returns (entries: seq<MC.OpMultipart<A>>)
    ensures |entries| == |rows|
    ensures forall k :: 0 <= k < |rows| ==> entries[k] == MC.GetRgwMultipart(rows[k], dec)
  {
    entries := [];
    var i := 0;
    while i < |rows|
      invariant 0 <= i <= |rows|
      invariant |entries| == i
      invariant forall k :: 0 <= k < i ==> entries[k] == MC.GetRgwMultipart(rows[k], dec)
    {
      entries := entries + [MC.GetRgwMultipart(rows[i], dec)];
      i := i + 1;
    }
  }

  // ---------------------------------------------------------------------
  // The database object
  // ---------------------------------------------------------------------

  class SQLiteMultipart {
    var buckets: seq<BucketRow>
    var uploads: seq<Row>
    var nextUploadId: int
    var parts: seq<Part>
    var nextPartId: int

    /** Bucket names and upload ids are unique; the part table is well formed. */
    predicate Valid()
      reads this
    {
      && (forall i, j :: 0 <= i < j < |buckets| ==> buckets[i].bucketName != buckets[j].bucketName)
      && UniqueUploads(uploads)
      && PartsValid(parts, nextPartId)
    }

    constructor (buckets0: seq<BucketRow>)
      requires forall i, j :: 0 <= i < j < |buckets0| ==> buckets0[i].bucketName != buckets0[j].bucketName
      ensures Valid()
      ensures buckets == buckets0 && uploads == [] && parts == []
    {
      buckets := buckets0;
      uploads := [];
      nextUploadId := 1;
      parts := [];
      nextPartId := 1;
    }

    /**
     * list_multiparts: None for an unknown bucket; otherwise at most
     * maxUploads of the query's rows, converted. The caller's truncation
     * flag (truncated0) is set when more rows exist and otherwise left as
     * it was.
     */
    method ListMultiparts<A>(bucketName: string, prefix: string, marker: string, maxUploads: nat, dec: Blob -> A,
                             truncated0: bool)
      returns (r: Option<seq<MC.OpMultipart<A>>>, truncated: bool)
      requires Valid()
      ensures r.None? <==> FindBucket(buckets, bucketName).None?
      ensures r.None? ==> truncated == truncated0
      ensures r.Some? ==>
                var q := UploadsQuery(uploads, FindBucket(buckets, bucketName).value.bucketId, prefix, marker);
                && |r.value| == |Take(q, maxUploads)|
                && (forall i :: 0 <= i < |r.value| ==> r.value[i] == MC.GetRgwMultipart(q[i], dec))
                && (truncated <==> truncated0 || |q| > maxUploads)
    {
      truncated := truncated0;
      var b := FindBucket(buckets, bucketName);
      if b.None? {
        return None, truncated;
      }
      var q := UploadsQuery(uploads, b.value.bucketId, prefix, marker);
      var dbEntries := Take(q, maxUploads + 1);
      if |dbEntries| > maxUploads {
        dbEntries := dbEntries[..maxUploads];
        truncated := true;
      }
      assert dbEntries == Take(q, maxUploads);
      var entries := ConvertAll(dbEntries, dec);
      r := Some(entries);
    }

    /** The single UPDATE every state change is made of. */
    method Transition(w: Where, from: set<MultipartState>, to: MultipartState, now: int) returns (changes: nat)
      modifies this
      requires Valid()
      ensures Valid()
      ensures uploads == SetState(old(uploads), w, from, to, now)
      ensures changes == Changes(old(uploads), w, from)
      ensures buckets == old(buckets) && parts == old(parts)
      ensures nextUploadId == old(nextUploadId) && nextPartId == old(nextPartId)
    {
      changes := Changes(uploads, w, from);
      uploads := SetState(uploads, w, from, to, now);
    }

    /**
     * abort_multiparts: ERR_NO_SUCH_BUCKET for an unknown bucket; otherwise
     * every upload of the bucket in [INIT, COMPLETE) becomes ABORTED and the
     * number of such uploads is returned.
     */
    method AbortMultiparts(bucketName: string, now: int) returns (r: Result<nat, RgwErrors.Error>)
      modifies this
      requires Valid()
      ensures Valid()
      ensures FindBucket(old(buckets), bucketName).None? ==>
                r == Err(RgwErrors.ERR_NO_SUCH_BUCKET) && uploads == old(uploads)
      ensures FindBucket(old(buckets), bucketName).Some? ==>
                var w := BucketIs(FindBucket(old(buckets), bucketName).value.bucketId);
                r == Ok(Changes(old(uploads), w, OPEN_STATES))
                && uploads == SetState(old(uploads), w, OPEN_STATES, ABORTED, now)
      ensures buckets == old(buckets) && parts == old(parts)
    {
      var b := FindBucket(buckets, bucketName);
      if b.None? {
        return Err(RgwErrors.ERR_NO_SUCH_BUCKET);
      }
      var n := Transition(BucketIs(b.value.bucketId), OPEN_STATES, ABORTED, now);
      r := Ok(n);
    }

    /** get_multipart: None for an empty or unknown upload id. */
    method GetMultipart<A>(uploadId: string, dec: Blob -> A) returns (r: Option<MC.OpMultipart<A>>)
      requires Valid()
      ensures uploadId == "" ==> r.None?
      ensures uploadId != "" ==>
                match FindUpload(uploads, uploadId)
                case None => r.None?
                case Some(u) => r == Some(MC.GetRgwMultipart(u, dec))
    {
      if uploadId == "" {
        return None;
      }
      var u := FindUpload(uploads, uploadId);
      if u.Some? {
        r := Some(MC.GetRgwMultipart(u.value, dec));
      } else {
        r := None;
      }
    }

    /**
     * insert: the upload is stored under a fresh row id, which is returned;
     * an upload id already in the table makes the insert throw (None here).
     */
    method Insert<A>(mp: MC.OpMultipart<A>, enc: A -> Blob) returns (r: Option<int>)
      modifies this
      requires Valid()
      ensures Valid()
      ensures FindUpload(old(uploads), mp.uploadId).Some? ==> r.None? && uploads == old(uploads)
      ensures FindUpload(old(uploads), mp.uploadId).None? ==>
                && r == Some(old(nextUploadId))
                && uploads == old(uploads) + [MC.GetDbMultipart(mp, enc).(id := r.value)]
                && FindUpload(uploads, mp.uploadId) == Some(MC.GetDbMultipart(mp, enc).(id := r.value))
      ensures forall other :: other != mp.uploadId ==> FindUpload(uploads, other) == FindUpload(old(uploads), other)
      ensures buckets == old(buckets) && parts == old(parts)
    {
      if FindUpload(uploads, mp.uploadId).Some? {
        return None;
      }
      var id := nextUploadId;
      var row := MC.GetDbMultipart(mp, enc).(id := id);
      forall other | other != mp.uploadId
        ensures FindUpload(uploads + [row], other) == FindUpload(uploads, other)
      {
        match FindUpload(uploads, other)
        case None =>
        case Some(u) =>
          var i :| 0 <= i < |uploads| && uploads[i] == u;
          FindAt(uploads + [row], i);
      }
      uploads := uploads + [row];
      nextUploadId := nextUploadId + 1;
      FindAt(uploads, |uploads| - 1);
      r := Some(id);
    }

    /**
     * list_parts: at most numParts finished parts of the upload with id at
     * least marker, by id; when more exist, truncated is set and the next
     * marker is the id of the first part left out. Otherwise the caller's
     * truncated flag and next marker (truncated0, nextMarker0) are left as
     * they were.
     */
    method ListParts(uploadId: string, numParts: nat, marker: int, truncated0: bool, nextMarker0: Option<int>)
      returns (r: seq<Part>, truncated: bool, nextMarker: Option<int>)
      requires Valid()
      ensures var q := PartsQuery(parts, uploadId, marker);
              && r == Take(q, numParts)
              && (|q| > numParts ==> truncated && nextMarker == Some(q[numParts].id))
              && (|q| <= numParts ==> truncated == truncated0 && nextMarker == nextMarker0)
    {
      var dbEntries := Take(PartsQuery(parts, uploadId, marker), numParts + 1);
      truncated := truncated0;
      nextMarker := nextMarker0;
      if |dbEntries| > numParts {
        truncated := true;
        var next := dbEntries[|dbEntries| - 1];
        dbEntries := dbEntries[..|dbEntries| - 1];
        nextMarker := Some(next.id);
      }
      r := dbEntries;
    }

    /** get_parts: every part of the upload, by part number. */
    method GetParts(uploadId: string) returns (r: seq<Part>)
      requires Valid()
      ensures r == PartsOfUpload(parts, uploadId)
    {
      r := PartsOfUpload(parts, uploadId);
    }

    /** get_part: the upload's part with that number, if any. */
    method GetPart(uploadId: string, partNum: U32) returns (r: Option<Part>)
      requires Valid()
      ensures r == PartOf(parts, uploadId, partNum)
      ensures r.Some? ==> r.value in parts && r.value.uploadId == uploadId && r.value.partNum == partNum
    {
      r := PartOf(parts, uploadId, partNum);
    }

    /**
     * create_or_reset_part: refused with "could not find upload" unless the
     * upload is INIT or INPROGRESS. Otherwise an INIT upload becomes
     * INPROGRESS, and the part is reset to size 0 with no etag and no mtime,
     * or inserted so. The entry returned for a new part carries id 0: the
     * row id the insert assigns is not copied back. When the database
     * refuses that write (writeError, the text of the exception), the
     * transaction rolls back, the state change included, and the text is
     * handed back.
     */
    method CreateOrResetPart(uploadId: string, partNum: U32, now: int, writeError: Option<string>)
      returns (r: Option<Part>, error: Option<string>)
      modifies this
      requires Valid()
      ensures Valid()
      ensures var u := FindUpload(old(uploads), uploadId);
              r.None? <==> u.None? || u.value.state !in OPEN_STATES || writeError.Some?
      ensures r.None? ==> uploads == old(uploads) && parts == old(parts)
      ensures var u := FindUpload(old(uploads), uploadId);
              u.None? || u.value.state !in OPEN_STATES ==> error == Some("could not find upload")
      ensures var u := FindUpload(old(uploads), uploadId);
              u.Some? && u.value.state in OPEN_STATES && writeError.Some? ==> r.None? && error == writeError
      ensures r.Some? ==>
                && error.None?
                && uploads == SetState(old(uploads), UploadIs(uploadId), {INIT}, INPROGRESS, now)
                && FindUpload(uploads, uploadId).Some?
                && FindUpload(uploads, uploadId).value.state == INPROGRESS
                && r.value.uploadId == uploadId && r.value.partNum == partNum
                && r.value.size == 0 && r.value.etag.None? && r.value.mtime.None?
                && PartOf(parts, uploadId, partNum).Some?
                && PartOf(parts, uploadId, partNum).value == r.value.(id := PartOf(parts, uploadId, partNum).value.id)
      ensures forall id: string, n: U32 :: id != uploadId || n != partNum ==> PartOf(parts, id, n) == PartOf(old(parts), id, n)
      ensures buckets == old(buckets)
    {
      var u := FindUpload(uploads, uploadId);
      if u.None? || u.value.state !in OPEN_STATES {
        return None, Some("could not find upload");
      }
      if writeError.Some? {
        return None, writeError;
      }
      error := None;
      SetStateFind(uploads, uploadId, {INIT}, INPROGRESS, now, uploadId);
      var _ := Transition(UploadIs(uploadId), {INIT}, INPROGRESS, now);
      r := WritePart(uploadId, partNum);
    }

    /**
     * The write of create_or_reset_part: the existing part is reset to size
     * 0 with no etag and no mtime, or a new part is inserted so; the entry
     * returned for a new part carries id 0.
     */
    method WritePart(uploadId: string, partNum: U32) returns (r: Option<Part>)
      modifies this
      requires Valid()
      ensures Valid()
      ensures uploads == old(uploads) && buckets == old(buckets)
      ensures r.Some?
      ensures r.value.uploadId == uploadId && r.value.partNum == partNum
      ensures r.value.size == 0 && r.value.etag.None? && r.value.mtime.None?
      ensures PartOf(parts, uploadId, partNum).Some?
      ensures PartOf(parts, uploadId, partNum).value == r.value.(id := PartOf(parts, uploadId, partNum).value.id)
      ensures forall id: string, n: U32 :: id != uploadId || n != partNum ==> PartOf(parts, id, n) == PartOf(old(parts), id, n)
    {
      var existing := PartIndex(parts, uploadId, partNum);
      if existing.Some? {
        var k := existing.value;
        var p := parts[k].(size := 0, etag := None, mtime := None);
        forall id: string, n: U32 | id != uploadId || n != partNum
          ensures PartOf(parts[k := p], id, n) == PartOf(parts, id, n)
        {
          RewritePartOthers(parts, nextPartId, k, p, id, n);
        }
        RewritePartOthers(parts, nextPartId, k, p, uploadId, partNum);
        parts := parts[k := p];
        r := Some(p);
      } else {
        var p := Part(nextPartId, uploadId, partNum, 0, None, None);
        forall id: string, n: U32 | id != uploadId || n != partNum
          ensures PartOf(parts + [p], id, n) == PartOf(parts, id, n)
        {
          AppendPart(parts, nextPartId, p, id, n);
        }
        AppendPart(parts, nextPartId, p, uploadId, partNum);
        parts := parts + [p];
        nextPartId := nextPartId + 1;
        r := Some(Part(0, uploadId, partNum, 0, None, None));
      }
    }

    /**
     * finish_part: only a part whose etag is still unset takes the etag,
     * mtime and size; true exactly when that one row changed.
     */
    method FinishPart(uploadId: string, partNum: U32, etag: string, bytesWritten: U64, now: int)
      returns (ok: bool)
      modifies this
      requires Valid()
      ensures Valid()
      ensures var p := PartOf(old(parts), uploadId, partNum);
              ok <==> p.Some? && !p.value.IsFinished()
      ensures ok ==> PartOf(parts, uploadId, partNum)
                     == Some(PartOf(old(parts), uploadId, partNum).value.(etag := Some(etag), mtime := Some(now), size := bytesWritten))
      ensures !ok ==> parts == old(parts)
      ensures forall id: string, n: U32 :: id != uploadId || n != partNum ==> PartOf(parts, id, n) == PartOf(old(parts), id, n)
      ensures buckets == old(buckets) && uploads == old(uploads)
    {
      var k := PartIndex(parts, uploadId, partNum);
      if k.Some? && parts[k.value].etag.None? {
        var p := parts[k.value].(etag := Some(etag), mtime := Some(now), size := bytesWritten);
        forall id: string, n: U32 | id != uploadId || n != partNum
          ensures PartOf(parts[k.value := p], id, n) == PartOf(parts, id, n)
        {
          RewritePartOthers(parts, nextPartId, k.value, p, id, n);
        }
        RewritePartOthers(parts, nextPartId, k.value, p, uploadId, partNum);
        parts := parts[k.value := p];
        ok := true;
      } else {
        ok := false;
      }
    }

    /**
     * The shared shape of abort, mark_complete, mark_aggregating and
     * mark_done: one conditional UPDATE on the upload id, committed when it
     * changed a row.
     */
    method MarkFrom(uploadId: string, from: set<MultipartState>, to: MultipartState, now: int) returns (ok: bool)
      modifies this
      requires Valid()
      ensures Valid()
      ensures var u := FindUpload(old(uploads), uploadId);
              ok <==> u.Some? && u.value.state in from
      ensures ok ==> FindUpload(uploads, uploadId)
                     == Some(FindUpload(old(uploads), uploadId).value.(state := to, stateChangeTime := now))
      ensures !ok ==> uploads == old(uploads)
      ensures forall other :: other != uploadId ==> FindUpload(uploads, other) == FindUpload(old(uploads), other)
      ensures buckets == old(buckets) && parts == old(parts)
    {
      ChangesByUpload(uploads, uploadId, from);
      SetStateFind(uploads, uploadId, from, to, now, uploadId);
      forall other | other != uploadId
        ensures FindUpload(SetState(uploads, UploadIs(uploadId), from, to, now), other) == FindUpload(uploads, other)
      {
        SetStateFind(uploads, uploadId, from, to, now, other);
      }
      var n := Changes(uploads, UploadIs(uploadId), from);
      if n == 0 {
        ok := false;
      } else {
        var changes := Transition(UploadIs(uploadId), from, to, now);
        assert changes == 1;
        ok := true;
      }
    }

    /** abort: an upload in [INIT, COMPLETE) becomes ABORTED. */
    method Abort(uploadId: string, now: int) returns (ok: bool)
      modifies this
      requires Valid()
      ensures Valid()
      ensures var u := FindUpload(old(uploads), uploadId);
              ok <==> u.Some? && u.value.state in OPEN_STATES
      ensures ok ==> FindUpload(uploads, uploadId).Some? && FindUpload(uploads, uploadId).value.state == ABORTED
      ensures !ok ==> uploads == old(uploads)
      ensures forall other :: other != uploadId ==> FindUpload(uploads, other) == FindUpload(old(uploads), other)
      ensures buckets == old(buckets) && parts == old(parts)
    {
      ok := MarkFrom(uploadId, OPEN_STATES, ABORTED, now);
    }

    /** mark_complete: an upload in [INIT, INPROGRESS] becomes COMPLETE. */
    method MarkComplete(uploadId: string, now: int) returns (ok: bool)
      modifies this
      requires Valid()
      ensures Valid()
      ensures var u := FindUpload(old(uploads), uploadId);
              ok <==> u.Some? && u.value.state in OPEN_STATES
      ensures ok ==> FindUpload(uploads, uploadId).Some? && FindUpload(uploads, uploadId).value.state == COMPLETE
      ensures !ok ==> uploads == old(uploads)
      ensures forall other :: other != uploadId ==> FindUpload(uploads, other) == FindUpload(old(uploads), other)
      ensures buckets == old(buckets) && parts == old(parts)
    {
      ok := MarkFrom(uploadId, OPEN_STATES, COMPLETE, now);
    }

    /**
     * mark_complete with duplicate detection: an upload already DONE is
     * reported as a duplicate and counts as success; an unknown upload fails.
     * On every other path the caller's flag (duplicate0) is left as it was.
     */
    method MarkCompleteDuplicate(uploadId: string, now: int, duplicate0: bool) returns (ok: bool, duplicate: bool)
      modifies this
      requires Valid()
      ensures Valid()
      ensures var u := FindUpload(old(uploads), uploadId);
              && (u.Some? && u.value.state == DONE ==> duplicate)
              && (!(u.Some? && u.value.state == DONE) ==> duplicate == duplicate0)
              && (ok <==> u.Some? && (u.value.state == DONE || u.value.state in OPEN_STATES))
              && (ok && u.value.state != DONE ==>
                    FindUpload(uploads, uploadId).Some? && FindUpload(uploads, uploadId).value.state == COMPLETE)
              && (!ok || u.value.state == DONE ==> uploads == old(uploads))
      ensures forall other :: other != uploadId ==> FindUpload(uploads, other) == FindUpload(old(uploads), other)
      ensures buckets == old(buckets) && parts == old(parts)
    {
      duplicate := duplicate0;
      var u := FindUpload(uploads, uploadId);
      if u.None? {
        return false, duplicate0;
      }
      if u.value.state == DONE {
        return true, true;
      }
      ok := MarkFrom(uploadId, OPEN_STATES, COMPLETE, now);
    }

    /** mark_aggregating: only COMPLETE becomes AGGREGATING. */
    method MarkAggregating(uploadId: string, now: int) returns (ok: bool)
      modifies this
      requires Valid()
      ensures Valid()
      ensures var u := FindUpload(old(uploads), uploadId);
              ok <==> u.Some? && u.value.state == COMPLETE
      ensures ok ==> FindUpload(uploads, uploadId).Some? && FindUpload(uploads, uploadId).value.state == AGGREGATING
      ensures !ok ==> uploads == old(uploads)
      ensures forall other :: other != uploadId ==> FindUpload(uploads, other) == FindUpload(old(uploads), other)
      ensures buckets == old(buckets) && parts == old(parts)
    {
      ok := MarkFrom(uploadId, {COMPLETE}, AGGREGATING, now);
    }

    /** mark_done: only AGGREGATING becomes DONE. */
    method MarkDone(uploadId: string, now: int) returns (ok: bool)
      modifies this
      requires Valid()
      ensures Valid()
      ensures var u := FindUpload(old(uploads), uploadId);
              ok <==> u.Some? && u.value.state == AGGREGATING
      ensures ok ==> FindUpload(uploads, uploadId).Some? && FindUpload(uploads, uploadId).value.state == DONE
      ensures !ok ==> uploads == old(uploads)
      ensures forall other :: other != uploadId ==> FindUpload(uploads, other) == FindUpload(old(uploads), other)
      ensures buckets == old(buckets) && parts == old(parts)
    {
      ok := MarkFrom(uploadId, {AGGREGATING}, DONE, now);
    }
  }
}
