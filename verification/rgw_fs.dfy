/**
 * The filesystem-backed gateway store (rgw_fs.cc, RGWFS): ranged and
 * conditional reads of an object file, bucket listing over a directory,
 * extended-attribute reads and bucket creation.
 *
 * System calls are parameters: their answers are given as values or
 * functions, and the calls that change the filesystem are returned.
 */
module RgwFs {
  import opened Wrappers
  import opened StringOrder
  import opened ConversionUtils

  const EINTR := 4
  const EIO := 5
  const EEXIST := 17
  const ERANGE := 34
  const ENODATA := 61
  const ECANCELED := 125
  const INT_MAX := 0x7fff_ffff
  /** size_t arithmetic wraps modulo 2^64. */
  const SIZE_T_MOD := 0x1_0000_0000_0000_0000
  /** The first buffer get_attr offers: the length of an MD5 etag in hex. */
  const ETAG_LEN := 32

  /** An errno value as the calls leave it: positive. */
  type Errno = e: int | e > 0 witness EIO

  // ---------------------------------------------------------------------
  // prepare_get_obj: conditional checks and range normalisation
  // ---------------------------------------------------------------------

  /** The preconditions of a conditional GET. */
  datatype Conditions = Conditions(
    modSince: Option<int>,
    unmodSince: Option<int>,
    ifMatch: Option<string>,
    ifNoMatch: Option<string>)

  /** A refused read: the status and S3 error code put into rgw_err. */
  datatype Refusal = Refusal(httpRet: int, s3Code: string)

  datatype GetError =
    | SysError(code: int)              // -errno from open, fstat or the etag read
    | Cancelled(refusal: Refusal)      // -ECANCELED with the refusal
    | OutOfRange                       // -ERANGE

  /** The int prepare_get_obj returns for an error. */
  function ReturnCode(e: GetError): (r: int)
    ensures e.Cancelled? ==> r == -ECANCELED
    ensures e.OutOfRange? ==> r == -ERANGE
    ensures e.SysError? ==> r == e.code
  {
    match e
    case SysError(c) => c
    case Cancelled(_) => -ECANCELED
    case OutOfRange => -ERANGE
  }

  const NOT_MODIFIED := Refusal(304, "NotModified")
  const PRECONDITION_FAILED := Refusal(412, "PreconditionFailed")

  /** Whether the file's etag has to be read for these conditions. */
  predicate NeedsEtag(c: Conditions)
  {
    c.ifMatch.Some? || c.ifNoMatch.Some?
  }

  /**
   * The conditional checks, in the order the source makes them. `etag` is
   * what reading the etag attribute gives: the etag, or the negative code.
   */
  function CheckConditions(mtime: int, c: Conditions, etag: Result<string, int>): (r: Result<(), GetError>)
    ensures r.Ok? <==>
              && (c.modSince.None? || mtime >= c.modSince.value)
              && (c.unmodSince.None? || mtime < c.unmodSince.value)
              && (NeedsEtag(c) ==> etag.Ok?
                                    && (c.ifMatch.None? || c.ifMatch.value == etag.value)
                                    && (c.ifNoMatch.None? || c.ifNoMatch.value != etag.value))
    ensures c.modSince.Some? && mtime < c.modSince.value ==> r == Err(Cancelled(NOT_MODIFIED))
    ensures (c.modSince.None? || mtime >= c.modSince.value) && c.unmodSince.Some? && mtime >= c.unmodSince.value
            ==> r == Err(Cancelled(PRECONDITION_FAILED))
    ensures r.Err? ==> r.error.Cancelled? || (NeedsEtag(c) && etag.Err? && r.error == SysError(etag.error))
    ensures r.Err? && r.error.Cancelled? ==> r.error.refusal in {NOT_MODIFIED, PRECONDITION_FAILED}
  {
    if c.modSince.Some? && mtime < c.modSince.value then Err(Cancelled(NOT_MODIFIED))
    else if c.unmodSince.Some? && mtime >= c.unmodSince.value then Err(Cancelled(PRECONDITION_FAILED))
    else if !NeedsEtag(c) then Ok(())
    else if etag.Err? then Err(SysError(etag.error))
    else if c.ifMatch.Some? && c.ifMatch.value != etag.value then Err(Cancelled(PRECONDITION_FAILED))
    else if c.ifNoMatch.Some? && c.ifNoMatch.value == etag.value then Err(Cancelled(PRECONDITION_FAILED))
    else Ok(())
  }

  /** What a successful prepare_get_obj hands back. */
  datatype GetRange = GetRange(ofs: int, end: int, totalSize: nat, objSize: nat)

  /**
   * The requested range made concrete: a negative offset counts from the
   * end of the object and reads to its last byte, a missing or negative end
   * is the last byte; for a non-empty object an offset past its end is
   * refused and the end is clamped. total_size is end + 1 - ofs in size_t.
   */
  function NormalizeRange(pofs: Option<int>, pend: Option<int>, size: nat): (r: Result<GetRange, GetError>)
    ensures r.Err? <==> size > 0 && (if pofs.Some? && pofs.value < 0 then pofs.value + size else if pofs.Some? then pofs.value else 0) >= size
    ensures r.Err? ==> r.error == OutOfRange
    ensures r.Ok? ==> r.value.objSize == size && r.value.totalSize == (r.value.end + 1 - r.value.ofs) % SIZE_T_MOD
    ensures r.Ok? && size > 0 ==> r.value.ofs < size && r.value.end <= size - 1
  {
    var ofs0 := if pofs.Some? then pofs.value else 0;
    var end0 := if pend.Some? then pend.value else -1;
    var (ofs1, end1) :=
      if ofs0 < 0 then (ofs0 + size, size - 1)
      else if end0 < 0 then (ofs0, size - 1)
      else (ofs0, end0);
    if size > 0 && ofs1 >= size then Err(OutOfRange)
    else
      var end2 := if size > 0 && end1 >= size then size - 1 else end1;
      Ok(GetRange(ofs1, end2, (end2 + 1 - ofs1) % SIZE_T_MOD, size))
  }

  /** Any in-bounds request on a non-empty object reads a sub-range of it, total_size bytes. */
  lemma RangeWithinObject(pofs: Option<int>, pend: Option<int>, size: nat)
    requires 0 < size < SIZE_T_MOD
    requires pofs.None? || (0 <= pofs.value + size && pofs.value < size)
    requires pofs.Some? && pofs.value >= 0 && pend.Some? && pend.value >= 0 ==> pofs.value <= pend.value
    ensures NormalizeRange(pofs, pend, size).Ok?
    ensures var g := NormalizeRange(pofs, pend, size).value;
            && 0 <= g.ofs <= g.end < size
            && g.totalSize == g.end - g.ofs + 1
  {
  }

  /** bytes=-k: the last k bytes of the object. */
  lemma SuffixRange(k: nat, pend: Option<int>, size: nat)
    requires 0 < k <= size < SIZE_T_MOD
    ensures NormalizeRange(Some(-(k as int)), pend, size) == Ok(GetRange(size - k, size - 1, k, size))
  {
  }

  /** A request without a range reads the whole object; an empty object reads nothing. */
  lemma WholeObject(size: nat)
    requires size < SIZE_T_MOD
    ensures NormalizeRange(None, None, size) == Ok(GetRange(0, size - 1, size, size))
  {
  }

  /**
   * An end before the offset is not refused: the unsigned total_size wraps
   * round to nearly 2^64.
   */
  lemma InvertedRangeWraps(ofs: nat, end: nat, size: nat)
    requires end + 1 < ofs < size < SIZE_T_MOD
    ensures NormalizeRange(Some(ofs), Some(end), size).Ok?
    ensures NormalizeRange(Some(ofs), Some(end), size).value.totalSize == SIZE_T_MOD - (ofs - end - 1)
  {
  }

  /** The file's metadata, as fstat reports it. */
  datatype FileStat = FileStat(mtime: int, size: nat)

  /**
   * prepare_get_obj: open, fstat, the conditional checks, then the range.
   * openErr and stat carry the answers of open and fstat (errno values);
   * etag is what reading the etag attribute gives, consulted only when
   * If-Match or If-None-Match is present.
   */
  function PrepareGetObj(openErr: Option<Errno>, stat: Result<FileStat, Errno>, c: Conditions,
                         etag: Result<string, int>, pofs: Option<int>, pend: Option<int>): (r: Result<GetRange, GetError>)
    ensures openErr.Some? ==> r == Err(SysError(-(openErr.value as int)))
    ensures openErr.None? && stat.Err? ==> r == Err(SysError(-(stat.error as int)))
    ensures r.Ok? ==> stat.Ok? && CheckConditions(stat.value.mtime, c, etag).Ok?
                      && r == NormalizeRange(pofs, pend, stat.value.size)
    ensures openErr.None? && stat.Ok? && CheckConditions(stat.value.mtime, c, etag).Ok?
            ==> r == NormalizeRange(pofs, pend, stat.value.size)
  {
    if openErr.Some? then Err(SysError(-(openErr.value as int)))
    else if stat.Err? then Err(SysError(-(stat.error as int)))
    else match CheckConditions(stat.value.mtime, c, etag)
      case Err(e) => Err(e)
      case Ok(_) => NormalizeRange(pofs, pend, stat.value.size)
  }

  /** A plain GET of an existing file always succeeds, for the whole object. */
  lemma UnconditionalWholeRead(st: FileStat, etag: Result<string, int>)
    requires st.size < SIZE_T_MOD
    ensures PrepareGetObj(None, Ok(st), Conditions(None, None, None, None), etag, None, None)
            == Ok(GetRange(0, st.size - 1, st.size, st.size))
  {
  }

  // ---------------------------------------------------------------------
  // get_obj: the length to read and the read loop
  // ---------------------------------------------------------------------

  /** The length get_obj reads, as written: nothing when end is 0. */
  function GetObjLenAsWritten(ofs: int, end: int): (len: nat)
    ensures end <= 0 ==> len == 0
    ensures end > 0 ==> len == (end - ofs + 1) % SIZE_T_MOD
  {
    if end <= 0 then 0 else (end - ofs + 1) % SIZE_T_MOD
  }

  /** A one-byte object, whose range is 0-0, reads no byte as written. */
  lemma OneByteObjectReadsNothing()
    ensures NormalizeRange(None, None, 1) == Ok(GetRange(0, 0, 1, 1))
    ensures GetObjLenAsWritten(0, 0) == 0
    ensures GetObjLen(0, 0) == 1
  {
  }

  /** The length get_obj is meant to read: the inclusive range ofs..end, nothing for a missing end. */
  function GetObjLen(ofs: int, end: int): (len: nat)
    ensures 0 <= ofs <= end + 1 < SIZE_T_MOD ==> len == end + 1 - ofs
    ensures end < 0 ==> len == 0
  {
    if end < 0 then 0 else (end - ofs + 1) % SIZE_T_MOD
  }

  /** The range prepare_get_obj yields for an in-bounds request is read in full. */
  lemma PreparedRangeReadInFull(pofs: Option<int>, pend: Option<int>, size: nat)
    requires 0 < size < SIZE_T_MOD
    requires pofs.None? || (0 <= pofs.value + size && pofs.value < size)
    requires pofs.Some? && pofs.value >= 0 && pend.Some? && pend.value >= 0 ==> pofs.value <= pend.value
    ensures var g := NormalizeRange(pofs, pend, size).value;
            GetObjLen(g.ofs, g.end) == g.totalSize
  {
    RangeWithinObject(pofs, pend, size);
  }

  /** One answer of ::read: a count of bytes (0 at end of file), or a failure with its errno. */
  datatype ReadReply = Got(n: nat) | Failed(errno: Errno)

  /** Where the read loop ends, given the answers it receives in turn. */
  datatype ReadEnd =
    | Complete          // pos reached len
    | Aborted(r: int)   // the loop stopped with this negative code
    | Pending           // the answers ran out with the loop still going

  /**
   * The read loop as intended: bytes advance the position, end of file is
   * -EIO, EINTR retries, and any other failure stops the loop with -errno.
   */
  function ReadLoop(len: nat, pos: nat, replies: seq<ReadReply>): (e: ReadEnd)
    ensures pos >= len ==> e == Complete
    ensures e.Aborted? ==> e.r < 0
    decreases |replies|
  {
    if pos >= len then Complete
    else if |replies| == 0 then Pending
    else match replies[0]
      case Got(n) => if n > 0 then ReadLoop(len, pos + n, replies[1..]) else Aborted(-EIO)
      case Failed(err) =>
        if err == EINTR then ReadLoop(len, pos, replies[1..])
        else Aborted(-(err as int))
  }

  /**
   * The read loop as written: the `break` after a failure leaves only the
   * switch, so every failure is retried like EINTR.
   */
  function ReadLoopAsWritten(len: nat, pos: nat, replies: seq<ReadReply>): (e: ReadEnd)
    ensures e.Aborted? ==> e.r == -EIO
    decreases |replies|
  {
    if pos >= len then Complete
    else if |replies| == 0 then Pending
    else match replies[0]
      case Got(n) => if n > 0 then ReadLoopAsWritten(len, pos + n, replies[1..]) else Aborted(-EIO)
      case Failed(_) => ReadLoopAsWritten(len, pos, replies[1..])
  }

  /**
   * A descriptor that keeps failing with EIO: as written, the loop never
   * ends however many answers it is given; as intended, it stops at the first.
   */
  lemma {:induction false} PersistentErrorNeverEnds(len: nat, k: nat)
    requires len > 0
    ensures ReadLoopAsWritten(len, 0, seq(k, _ => Failed(EIO))) == Pending
    ensures k > 0 ==> ReadLoop(len, 0, seq(k, _ => Failed(EIO))) == Aborted(-EIO)
  {
    var s := seq(k, _ => Failed(EIO));
    if k > 0 {
      assert s[0] == Failed(EIO);
      assert s[1..] == seq(k - 1, _ => Failed(EIO));
      PersistentErrorNeverEnds(len, k - 1);
    }
  }

  /**
   * get_obj as corrected: reads len = GetObjLen(ofs, end) bytes with the
   * answers given, through ReadLoop (GetObjLenAsWritten and
   * ReadLoopAsWritten are the source's length and loop),
   * returns len or the negative code (None while the answers run out), and
   * whether the read state was released: on an error, for an empty read,
   * or once the range's last byte has been read.
   */
  method GetObj(ofs: int, end: int, replies: seq<ReadReply>) returns (r: Option<int>, released: bool)
    ensures var e := ReadLoop(GetObjLen(ofs, end), 0, replies);
            && (e == Complete <==> r == Some(GetObjLen(ofs, end)))
            && (e.Aborted? <==> r.Some? && r.value < 0)
            && (e.Aborted? ==> r == Some(e.r))
            && (e == Pending <==> r.None?)
    ensures released <==> r.Some? && (r.value < 0 || GetObjLen(ofs, end) == 0 || EndsAt(ofs, GetObjLen(ofs, end), end))
    ensures r.Some? && 0 <= ofs <= end + 1 < SIZE_T_MOD ==> released
    ensures r == Some(GetObjLen(ofs, end)) && 0 <= ofs <= end + 1 < SIZE_T_MOD ==> GetObjLen(ofs, end) == end + 1 - ofs
  {
    var len := GetObjLen(ofs, end);
    var pos := 0;
    var k := 0;
    var failed: Option<int> := None;
    while pos < len && k < |replies| && failed.None?
      invariant 0 <= k <= |replies|
      invariant failed.None? ==> ReadLoop(len, 0, replies) == ReadLoop(len, pos, replies[k..])
      invariant failed.Some? ==> ReadLoop(len, 0, replies) == Aborted(failed.value) && failed.value < 0
    {
      assert replies[k..][0] == replies[k] && replies[k..][1..] == replies[k + 1..];
      match replies[k] {
        case Got(n) =>
          if n > 0 {
            pos := pos + n;
          } else {
            failed := Some(-EIO);
          }
        case Failed(err) =>
          if err != EINTR {
            failed := Some(-(err as int));
          }
      }
      k := k + 1;
    }
    if failed.Some? {
      r := failed;
    } else if pos >= len {
      r := Some(len);
    } else {
      r := None;
    }
    released := r.Some? && (r.value < 0 || len == 0 || EndsAt(ofs, len, end));
  }

  /** (off_t)(ofs + len - 1) == end: the last byte read is the range's end,
   *  the sum taken modulo 2^64 as the unsigned arithmetic does. */
  predicate EndsAt(ofs: int, len: nat, end: int)
  {
    (ofs + len - 1) % SIZE_T_MOD == end % SIZE_T_MOD
  }

  // ---------------------------------------------------------------------
  // get_attr: read an extended attribute, growing the buffer
  // ---------------------------------------------------------------------

  /** The buffer length after k doublings: 32, 64, 128, ... */
  function BufferAfter(k: nat): (len: nat)
    ensures len >= ETAG_LEN
  {
    if k == 0 then ETAG_LEN else 2 * BufferAfter(k - 1)
  }

  /**
   * One fgetxattr/getxattr call with a buffer of len bytes: its return value
   * and errno afterwards. A missing attribute fails with ENODATA, a value
   * longer than the buffer with ERANGE; otherwise the value's length is
   * returned and errno keeps what it held before (staleErrno).
   */
  function XattrCall(stored: Option<Blob>, len: nat, staleErrno: int): (res: (int, int))
    ensures res.0 < 0 <==> stored.None? || |stored.value| > len
    ensures res.0 >= 0 ==> res.0 == |stored.value| && res.1 == staleErrno
    ensures res.0 < 0 ==> res.0 == -1 && res.1 == (if stored.None? then ENODATA else ERANGE)
  {
    if stored.None? then (-1, ENODATA)
    else if |stored.value| > len then (-1, ERANGE)
    else (|stored.value|, staleErrno)
  }

  /**
   * get_attr (both the descriptor and the path version) as written: offer a
   * 32-byte buffer and double it while the call fails with ERANGE; only a
   * positive length counts as success. `stored` is the attribute's value
   * (None: it is missing). An empty value makes the call return 0, which is
   * read as a failure with whatever errno held before (staleErrno); when
   * that is ERANGE the loop never ends. `calls` bounds the calls made; r is
   * None when they run out with the loop still going.
   */
  method GetAttr(stored: Option<Blob>, staleErrno: int, calls: nat) returns (r: Option<int>, attr: Blob, doublings: nat)
    ensures calls > 0 && stored.None? ==> r == Some(-ENODATA) && doublings == 0
    ensures calls > 0 && stored.Some? && |stored.value| == 0 && staleErrno != ERANGE ==>
              r == Some(-staleErrno) && doublings == 0
    ensures stored.Some? && |stored.value| == 0 && staleErrno == ERANGE ==> r.None?
    ensures r.Some? && stored.Some? && |stored.value| > 0 ==>
              && r.value == |stored.value| && attr == stored.value
              && |stored.value| <= BufferAfter(doublings)
              && (doublings == 0 || BufferAfter(doublings - 1) < |stored.value|)
    ensures calls > 0 && stored.Some? && 0 < |stored.value| <= BufferAfter(calls - 1) ==> r.Some?
    ensures r.None? ==> doublings == calls
  {
    var len := ETAG_LEN;
    var n := 0;
    doublings := 0;
    attr := [];
    while n < calls
      invariant len == BufferAfter(doublings) && doublings == n <= calls
      invariant doublings > 0 ==> stored.Some? && (if |stored.value| == 0 then staleErrno == ERANGE else BufferAfter(doublings - 1) < |stored.value|)
    {
      var res := XattrCall(stored, len, staleErrno);
      if res.0 > 0 {
        return Some(res.0), stored.value, doublings;
      }
      if res.1 != ERANGE {
        return Some(-res.1), attr, doublings;
      }
      len := len * 2;
      doublings := doublings + 1;
      n := n + 1;
    }
    r := None;
  }

  /**
   * get_attr as evidently intended: a call that returns a length, zero
   * included, ends the loop, so an empty value is read as empty and the
   * loop always ends.
   */
  method GetAttrIntended(stored: Option<Blob>, staleErrno: int) returns (r: int, attr: Blob, doublings: nat)
    ensures stored.None? ==> r == -ENODATA && doublings == 0
    ensures stored.Some? ==>
              && r == |stored.value| && attr == stored.value
              && |stored.value| <= BufferAfter(doublings)
              && (doublings == 0 || BufferAfter(doublings - 1) < |stored.value|)
  {
    var len := ETAG_LEN;
    doublings := 0;
    while true
      invariant len == BufferAfter(doublings)
      invariant doublings > 0 ==> stored.Some? && BufferAfter(doublings - 1) < |stored.value|
      decreases if stored.Some? then |stored.value| - len else 0
    {
      var res := XattrCall(stored, len, staleErrno);
      if res.0 >= 0 {
        return res.0, stored.value, doublings;
      }
      if res.1 != ERANGE {
        return -res.1, [], doublings;
      }
      len := len * 2;
      doublings := doublings + 1;
    }
  }


  // ---------------------------------------------------------------------
  // list_objects
  // ---------------------------------------------------------------------

  /** Directory entries starting with '.' are skipped. */
  predicate Hidden(name: string)
  {
    |name| > 0 && name[0] == '.'
  }

  /** The prefix test as written: the prefix compared with itself. */
  predicate PrefixCheckAsWritten(prefix: string, name: string)
  {
    |prefix| == 0 || prefix[..|prefix|] == prefix
  }

  /** The prefix test as intended: the entry's name starts with the prefix. */
  predicate PrefixCheck(prefix: string, name: string)
  {
    |prefix| <= |name| && name[..|prefix|] == prefix
  }

  /** As written, every entry passes the prefix test; as intended, "b" is not under "a". */
  lemma PrefixIgnored(prefix: string, name: string)
    ensures PrefixCheckAsWritten(prefix, name)
    ensures PrefixCheckAsWritten("a", "b") && !PrefixCheck("a", "b")
  {
    assert prefix[..|prefix|] == prefix;
    assert "b"[..1][0] == 'b';
  }

  /**
   * Whether a directory entry is listed and under which key: not hidden,
   * under the prefix, translated into the namespace, and let through by the
   * filter (a missing filter is `_ => true`). The prefix test is the
   * corrected PrefixCheck; PrefixCheckAsWritten is the source's.
   */
  function Admit(entry: string, prefix: string, translate: string -> Option<string>, filter: string -> bool): (k: Option<string>)
    ensures k.Some? <==> !Hidden(entry) && PrefixCheck(prefix, entry) && translate(entry).Some? && filter(translate(entry).value)
    ensures k.Some? ==> k == translate(entry)
  {
    if Hidden(entry) || !PrefixCheck(prefix, entry) then None
    else match translate(entry)
      case None => None
      case Some(obj) => if filter(obj) then Some(obj) else None
  }

  /** The keys of dir_map after the first n directory entries. */
  function DirKeys(entries: seq<string>, prefix: string, translate: string -> Option<string>, filter: string -> bool): (keys: set<string>)
    ensures |keys| <= |entries|
  {
    if |entries| == 0 then {}
    else
      var before := DirKeys(entries[..|entries| - 1], prefix, translate, filter);
      match Admit(entries[|entries| - 1], prefix, translate, filter)
      case None => before
      case Some(k) => before + {k}
  }

  /** Every admitted entry's key is in the map. */
  lemma {:induction false} DirKeysHoldAdmitted(entries: seq<string>, prefix: string, translate: string -> Option<string>, filter: string -> bool, i: nat)
    requires i < |entries| && Admit(entries[i], prefix, translate, filter).Some?
    ensures Admit(entries[i], prefix, translate, filter).value in DirKeys(entries, prefix, translate, filter)
  {
    if i < |entries| - 1 {
      assert entries[..|entries| - 1][i] == entries[i];
      DirKeysHoldAdmitted(entries[..|entries| - 1], prefix, translate, filter, i);
    }
  }

  /** Every key in the map comes from an admitted entry: none is hidden or outside the prefix. */
  lemma {:induction false} DirKeysAdmitted(entries: seq<string>, prefix: string, translate: string -> Option<string>, filter: string -> bool, k: string)
    requires k in DirKeys(entries, prefix, translate, filter)
    ensures exists i :: 0 <= i < |entries| && Admit(entries[i], prefix, translate, filter) == Some(k)
  {
    var before := entries[..|entries| - 1];
    if k in DirKeys(before, prefix, translate, filter) {
      DirKeysAdmitted(before, prefix, translate, filter, k);
      var i :| 0 <= i < |before| && Admit(before[i], prefix, translate, filter) == Some(k);
      assert entries[i] == before[i];
    } else {
      assert Admit(entries[|entries| - 1], prefix, translate, filter) == Some(k);
    }
  }

  /** The directory scan that fills dir_map. */
  method ScanDir(entries: seq<string>, prefix: string, translate: string -> Option<string>, filter: string -> bool)
    returns (keys: set<string>)
    ensures keys == DirKeys(entries, prefix, translate, filter)
  {
    keys := {};
    var i := 0;
    while i < |entries|
      invariant 0 <= i <= |entries|
      invariant keys == DirKeys(entries[..i], prefix, translate, filter)
    {
      assert entries[..i + 1][..i] == entries[..i];
      var k := Admit(entries[i], prefix, translate, filter);
      if k.Some? {
        keys := keys + {k.value};
      }
      i := i + 1;
    }
    assert entries[..|entries|] == entries;
  }

  /** A set of keys in the order the map iterates them. */
  function Ascending(s: set<string>): (r: seq<string>)
    ensures |r| == |s|
    ensures forall i :: 0 <= i < |r| ==> r[i] in s
    decreases s
  {
    if s == {} then []
    else
      var m := Least(s);
      [m] + Ascending(s - {m})
  }

  predicate StrictlyAscending(r: seq<string>)
  {
    forall i, j :: 0 <= i < j < |r| ==> LexLess(r[i], r[j])
  }

  /** The map iterates its keys in strictly increasing order. */
  lemma {:induction false} AscendingSorted(s: set<string>)
    ensures StrictlyAscending(Ascending(s))
    decreases s
  {
    if s != {} {
      var m := Least(s);
      var r := Ascending(s);
      var t := Ascending(s - {m});
      AscendingSorted(s - {m});
      assert r == [m] + t;
      forall i, j | 0 <= i < j < |r|
        ensures LexLess(r[i], r[j])
      {
        if i == 0 {
          assert r[j] == t[j - 1] && t[j - 1] in s - {m};
        } else {
          assert r[i] == t[i - 1] && r[j] == t[j - 1];
        }
      }
    }
  }

  /** Where iteration starts: lower_bound(marker), or begin() for an empty marker. */
  function From(dir: set<string>, marker: string): (s: set<string>)
    ensures s <= dir
    ensures forall k :: k in dir ==> (k in s <==> marker == "" || !LexLess(k, marker))
  {
    if marker == "" then dir else set k | k in dir && !LexLess(k, marker)
  }

  /** max < 0 lists without limit, up to INT_MAX entries. */
  function EffectiveMax(max: int): (n: nat)
    ensures max >= 0 ==> n == max
    ensures max < 0 ==> n == INT_MAX
  {
    if max < 0 then INT_MAX else max
  }

  /** An entry of the listing. */
  datatype ObjEnt = ObjEnt(name: string, mtime: int, size: nat, etag: string)

  /** The entry for a visited key whose stat succeeded; the etag is empty if it cannot be read. */
  function Entry(name: string, st: FileStat, etagOf: string -> Option<string>): (e: ObjEnt)
    ensures e.name == name && e.mtime == st.mtime && e.size == st.size
  {
    ObjEnt(name, st.mtime, st.size, if etagOf(name).Some? then etagOf(name).value else "")
  }

  /** The entries for the visited keys, in order; a key whose stat fails gives none. */
  function Entries(keys: seq<string>, stat: string -> Option<FileStat>, etagOf: string -> Option<string>): (r: seq<ObjEnt>)
    ensures |r| <= |keys|
  {
    if |keys| == 0 then []
    else
      var before := Entries(keys[..|keys| - 1], stat, etagOf);
      var k := keys[|keys| - 1];
      if stat(k).Some? then before + [Entry(k, stat(k).value, etagOf)] else before
  }

  /** The entries' names are visited keys, in the order visited. */
  lemma {:induction false} EntriesFollowKeys(keys: seq<string>, stat: string -> Option<FileStat>, etagOf: string -> Option<string>)
    requires StrictlyAscending(keys)
    ensures forall i :: 0 <= i < |Entries(keys, stat, etagOf)| ==>
              Entries(keys, stat, etagOf)[i].name in keys && stat(Entries(keys, stat, etagOf)[i].name).Some?
    ensures forall i, j :: 0 <= i < j < |Entries(keys, stat, etagOf)| ==>
              LexLess(Entries(keys, stat, etagOf)[i].name, Entries(keys, stat, etagOf)[j].name)
  {
    if |keys| > 0 {
      var init := keys[..|keys| - 1];
      var k := keys[|keys| - 1];
      assert StrictlyAscending(init) by {
        forall i, j | 0 <= i < j < |init| ensures LexLess(init[i], init[j]) {
          assert init[i] == keys[i] && init[j] == keys[j];
        }
      }
      EntriesFollowKeys(init, stat, etagOf);
      var before := Entries(init, stat, etagOf);
      var r := Entries(keys, stat, etagOf);
      forall i | 0 <= i < |before|
        ensures before[i].name in keys && LexLess(before[i].name, k)
      {
        assert before[i].name in init;
        var p :| 0 <= p < |init| && init[p] == before[i].name;
        assert keys[p] == init[p];
      }
      if stat(k).Some? {
        assert r == before + [Entry(k, stat(k).value, etagOf)];
        forall i, j | 0 <= i < j < |r|
          ensures LexLess(r[i].name, r[j].name)
        {
          assert r[i] == before[i];
          if j == |r| - 1 {
            assert r[j].name == k;
          } else {
            assert r[j] == before[j];
          }
        }
      }
    }
  }

  /** One turn of the listing loop: the least remaining key moves to the visited ones. */
  lemma VisitStep(visited: seq<string>, remaining: set<string>, stat: string -> Option<FileStat>, etagOf: string -> Option<string>)
    requires remaining != {}
    ensures var k := Least(remaining);
            && visited + Ascending(remaining) == (visited + [k]) + Ascending(remaining - {k})
            && Entries(visited + [k], stat, etagOf)
               == if stat(k).Some? then Entries(visited, stat, etagOf) + [Entry(k, stat(k).value, etagOf)]
                  else Entries(visited, stat, etagOf)
  {
    var k := Least(remaining);
    assert (visited + [k])[..|visited|] == visited;
  }

  lemma PrefixOfConcat<T>(a: seq<T>, b: seq<T>)
    ensures (a + b)[..|a|] == a
  {
  }

  /**
   * The listing loop: visit the keys of `from` in increasing order, at most
   * limit of them; report whether keys remain unvisited.
   */
  method VisitKeys(from: set<string>, limit: nat, stat: string -> Option<FileStat>, etagOf: string -> Option<string>)
    returns (result: seq<ObjEnt>, more: bool)
    ensures var keys := Ascending(from);
            var n := if |keys| <= limit then |keys| else limit;
            result == Entries(keys[..n], stat, etagOf) && (more <==> n < |keys|)
  {
    var remaining := from;
    ghost var visited: seq<string> := [];
    result := [];
    var i := 0;
    while i < limit && remaining != {}
      invariant i == |visited| <= limit
      invariant Ascending(from) == visited + Ascending(remaining)
      invariant result == Entries(visited, stat, etagOf)
      decreases limit - i
    {
      var k := Least(remaining);
      VisitStep(visited, remaining, stat, etagOf);
      visited := visited + [k];
      var st := stat(k);
      if st.Some? {
        result := result + [Entry(k, st.value, etagOf)];
      }
      remaining := remaining - {k};
      i := i + 1;
    }
    PrefixOfConcat(visited, Ascending(remaining));
    more := remaining != {};
  }

  /**
   * list_objects: scan the bucket's directory into dir_map, then visit its
   * keys in order from the marker, at most max of them (INT_MAX when max is
   * negative). A key whose stat fails uses up its turn but gives no entry.
   * Returns the entry count and is_truncated, which is left unset (None)
   * when the directory cannot be opened. Entries are admitted by Admit,
   * with the corrected prefix test.
   */
  method ListObjects(opendirErr: Option<Errno>, entries: seq<string>, prefix: string, marker: string, max: int,
                     translate: string -> Option<string>, filter: string -> bool,
                     stat: string -> Option<FileStat>, etagOf: string -> Option<string>)
    returns (r: int, result: seq<ObjEnt>, truncated: Option<bool>)
    ensures opendirErr.Some? ==> r == -(opendirErr.value as int) && result == [] && truncated.None?
    ensures opendirErr.None? ==>
              var keys := Ascending(From(DirKeys(entries, prefix, translate, filter), marker));
              var n := if |keys| <= EffectiveMax(max) then |keys| else EffectiveMax(max);
              && result == Entries(keys[..n], stat, etagOf)
              && r == |result|
              && truncated == Some(n < |keys|)
  {
    if opendirErr.Some? {
      return -(opendirErr.value as int), [], None;
    }
    var dir := ScanDir(entries, prefix, translate, filter);
    var more;
    result, more := VisitKeys(From(dir, marker), EffectiveMax(max), stat, etagOf);
    r := |result|;
    truncated := Some(more);
  }

  /**
   * What a listing promises: at most max entries (when max is not
   * negative), each for a key at or after the marker that is not hidden and
   * lies under the prefix, in strictly increasing order; and truncation iff
   * more keys than max remain from the marker.
   */
  lemma ListingProperties(entries: seq<string>, prefix: string, marker: string, max: int,
                          translate: string -> Option<string>, filter: string -> bool,
                          stat: string -> Option<FileStat>, etagOf: string -> Option<string>)
    ensures var dir := DirKeys(entries, prefix, translate, filter);
            var keys := Ascending(From(dir, marker));
            var n := if |keys| <= EffectiveMax(max) then |keys| else EffectiveMax(max);
            var result := Entries(keys[..n], stat, etagOf);
            && (max >= 0 ==> |result| <= max)
            && (n < |keys| <==> |From(dir, marker)| > EffectiveMax(max))
            && (forall i :: 0 <= i < |result| ==> result[i].name in dir && (marker == "" || !LexLess(result[i].name, marker)))
            && (forall i, j :: 0 <= i < j < |result| ==> LexLess(result[i].name, result[j].name))
  {
    var dir := DirKeys(entries, prefix, translate, filter);
    var keys := Ascending(From(dir, marker));
    var n := if |keys| <= EffectiveMax(max) then |keys| else EffectiveMax(max);
    AscendingSorted(From(dir, marker));
    var visited := keys[..n];
    assert StrictlyAscending(visited) by {
      forall i, j | 0 <= i < j < |visited| ensures LexLess(visited[i], visited[j]) {
        assert visited[i] == keys[i] && visited[j] == keys[j];
      }
    }
    EntriesFollowKeys(visited, stat, etagOf);
    var result := Entries(visited, stat, etagOf);
    forall i | 0 <= i < |result|
      ensures result[i].name in dir && (marker == "" || !LexLess(result[i].name, marker))
    {
      var p :| 0 <= p < |visited| && visited[p] == result[i].name;
      assert keys[p] in From(dir, marker);
    }
  }

  /** A listed key came from a directory entry that is not hidden and lies under the prefix. */
  lemma ListedNamesAdmitted(entries: seq<string>, prefix: string, translate: string -> Option<string>,
                            filter: string -> bool, k: string)
    requires k in DirKeys(entries, prefix, translate, filter)
    ensures exists i :: 0 <= i < |entries| && !Hidden(entries[i]) && PrefixCheck(prefix, entries[i]) && translate(entries[i]) == Some(k)
  {
    DirKeysAdmitted(entries, prefix, translate, filter, k);
  }

  // ---------------------------------------------------------------------
  // create_bucket
  // ---------------------------------------------------------------------

  /** The calls create_bucket makes after mkdir. */
  datatype FsCall = SetXattr(name: string) | RemoveDir

  /**
   * Setting the bucket's attributes in key order: empty values are
   * skipped; the first failing setxattr removes the directory and gives
   * -errno.
   */
  function SetAttrs(attrs: seq<(string, Blob)>, setxattrErr: string -> Option<Errno>): (out: (int, seq<FsCall>))
    ensures out.0 <= 0
    ensures out.0 == 0 <==> forall i :: 0 <= i < |attrs| && |attrs[i].1| > 0 ==> setxattrErr(attrs[i].0).None?
    ensures out.0 == 0 ==> RemoveDir !in out.1
    ensures out.0 != 0 ==> |out.1| > 0 && out.1[|out.1| - 1] == RemoveDir
    decreases |attrs|
  {
    if |attrs| == 0 then (0, [])
    else
      var rest := SetAttrs(attrs[1..], setxattrErr);
      assert forall i :: 1 <= i < |attrs| ==> attrs[i] == attrs[1..][i - 1];
      var name := attrs[0].0;
      if |attrs[0].1| == 0 then rest
      else if setxattrErr(name).Some? then (-(setxattrErr(name).value as int), [SetXattr(name), RemoveDir])
      else (rest.0, [SetXattr(name)] + rest.1)
  }

  /** SetAttrs on the suffix from i: one attribute, then the rest. */
  lemma SetAttrsStep(attrs: seq<(string, Blob)>, i: int, setxattrErr: string -> Option<Errno>)
    requires 0 <= i < |attrs|
    ensures var rest, name := SetAttrs(attrs[i + 1..], setxattrErr), attrs[i].0;
            SetAttrs(attrs[i..], setxattrErr)
            == if |attrs[i].1| == 0 then rest
               else if setxattrErr(name).Some? then (-(setxattrErr(name).value as int), [SetXattr(name), RemoveDir])
               else (rest.0, [SetXattr(name)] + rest.1)
  {
    assert attrs[i..][0] == attrs[i] && attrs[i..][1..] == attrs[i + 1..];
  }

  /**
   * create_bucket: mkdir, where an existing directory is an error only for
   * an exclusive create, then the attributes. mkdirErr and setxattrErr are
   * the calls' errno values; attrs lists the attribute map in key order.
   */
  method CreateBucket(mkdirErr: Option<Errno>, exclusive: bool, attrs: seq<(string, Blob)>, setxattrErr: string -> Option<Errno>)
    returns (r: int, calls: seq<FsCall>)
    ensures mkdirErr.Some? && (mkdirErr.value != EEXIST || exclusive) ==> r == -(mkdirErr.value as int) && calls == []
    ensures mkdirErr.None? || (mkdirErr.value == EEXIST && !exclusive) ==> (r, calls) == SetAttrs(attrs, setxattrErr)
  {
    var ret := if mkdirErr.Some? then -(mkdirErr.value as int) else 0;
    if ret == -EEXIST && !exclusive {
      ret := 0;
    }
    assert ret < 0 <==> mkdirErr.Some? && (mkdirErr.value != EEXIST || exclusive);
    if ret < 0 {
      return ret, [];
    }
    calls := [];
    var i := 0;
    assert attrs[0..] == attrs;
    assert [] + SetAttrs(attrs, setxattrErr).1 == SetAttrs(attrs, setxattrErr).1;
    while i < |attrs|
      invariant 0 <= i <= |attrs|
      invariant SetAttrs(attrs, setxattrErr) == (SetAttrs(attrs[i..], setxattrErr).0, calls + SetAttrs(attrs[i..], setxattrErr).1)
    {
      ghost var rest := SetAttrs(attrs[i + 1..], setxattrErr);
      SetAttrsStep(attrs, i, setxattrErr);
      var name := attrs[i].0;
      if |attrs[i].1| > 0 {
        var e := setxattrErr(name);
        if e.Some? {
          calls := calls + [SetXattr(name), RemoveDir];
          return -(e.value as int), calls;
        }
        assert calls + ([SetXattr(name)] + rest.1) == (calls + [SetXattr(name)]) + rest.1;
        calls := calls + [SetXattr(name)];
      }
      i := i + 1;
    }
    assert attrs[i..] == [] && calls + [] == calls;
    r := 0;
  }
}
