/**
 * The monitor's key-value store: a transaction is a list of put/erase
 * operations, applied to the store in order.  The store itself is a map
 * from (prefix, key) to a byte string.
 */
module MonitorDBStore {
  import opened Wrappers
  import Decimal

  type byte = x: int | 0 <= x < 256
  type Bytes = seq<byte>
  type u64 = x: int | 0 <= x < 0x1_0000_0000_0000_0000

  const OP_PUT: nat := 1
  const OP_ERASE: nat := 2

  /** One transaction operation; `kind` is the raw type byte. */
  datatype Op = Op(kind: nat, prefix: string, key: string, bl: Bytes)

  predicate KnownOp(op: Op) { op.kind == OP_PUT || op.kind == OP_ERASE }

  // ---------------------------------------------------------------------
  // Encodings used for keys and values

  /** `::encode(ver, bl)`: eight bytes, least significant first. */
  function EncodeU64(v: u64): (b: Bytes)
    ensures |b| == 8
  {
    LittleEndian(v, 8)
  }

  function LittleEndian(v: nat, n: nat): (b: Bytes)
    ensures |b| == n
  {
    if n == 0 then [] else [v % 256] + LittleEndian(v / 256, n - 1)
  }

  /** `::decode(ver, bl)` on the first eight bytes. */
  function DecodeU64(b: Bytes): nat
    requires |b| >= 8
  {
    FromLittleEndian(b[..8])
  }

  function FromLittleEndian(b: Bytes): nat
  {
    if |b| == 0 then 0 else b[0] + 256 * FromLittleEndian(b[1..])
  }

  lemma {:induction false} LittleEndianRoundTrip(v: nat, n: nat)
    ensures FromLittleEndian(LittleEndian(v, n)) == v % Pow256(n)
  {
    if n > 0 {
      LittleEndianRoundTrip(v / 256, n - 1);
      var b := LittleEndian(v, n);
      assert b[1..] == LittleEndian(v / 256, n - 1);
      DivModNested(v, Pow256(n - 1));
    }
  }

  function Pow256(n: nat): (p: nat)
    ensures p > 0
  {
    if n == 0 then 1 else 256 * Pow256(n - 1)
  }

  /** v % (256 * m) == v % 256 + 256 * ((v / 256) % m). */
  lemma DivModNested(v: nat, m: nat)
    requires m > 0
    ensures v % (256 * m) == v % 256 + 256 * ((v / 256) % m)
  {
    var q := v / 256;
    var r := v % 256;
    var q2 := q / m;
    var r2 := q % m;
    assert v == 256 * (m * q2 + r2) + r;
    assert v == (256 * m) * q2 + (256 * r2 + r);
    assert 0 <= 256 * r2 + r < 256 * m;
    DivModUnique(v, 256 * m, q2, 256 * r2 + r);
  }

  lemma DivModUnique(v: int, d: int, q: int, r: int)
    requires d > 0 && 0 <= r < d && v == d * q + r
    ensures v % d == r && v / d == q
  {
    var q0 := v / d;
    var r0 := v % d;
    assert d * q0 + r0 == d * q + r;
    assert d * (q0 - q) == r - r0;
    if q0 - q >= 1 {
      MulAtLeast(d, q0 - q);
    } else if q0 - q <= -1 {
      MulAtLeast(d, q - q0);
    }
  }

  lemma MulAtLeast(d: int, k: int)
    requires d > 0 && k >= 1
    ensures d * k >= d && d * (-k) <= -d
  {
    assert d * k == d + d * (k - 1);
  }

  /** A version encoded into a value decodes back to itself. */
  lemma EncodeDecodeU64(v: u64)
    ensures DecodeU64(EncodeU64(v)) == v
  {
    LittleEndianRoundTrip(v, 8);
    assert Pow256(8) == 0x1_0000_0000_0000_0000;
    assert EncodeU64(v)[..8] == EncodeU64(v);
  }

  /** combine_strings: prefix, an underscore, then the value. */
  function CombineStrings(prefix: string, value: string): string
  {
    prefix + "_" + value
  }

  /** The combined key reads back as the prefix, the underscore and the value. */
  lemma CombineStringsParts(prefix: string, value: string)
    ensures var r := CombineStrings(prefix, value);
            && |r| == |prefix| + 1 + |value|
            && r[..|prefix|] == prefix && r[|prefix|] == '_' && r[|prefix| + 1..] == value
  {
    var r := CombineStrings(prefix, value);
    assert r[..|prefix|] == prefix;
    assert r[|prefix| + 1..] == value;
  }

  /** Under one prefix, different values give different combined keys. */
  lemma CombineStringsInjective(prefix: string, v1: string, v2: string)
    ensures CombineStrings(prefix, v1) == CombineStrings(prefix, v2) <==> v1 == v2
  {
    if CombineStrings(prefix, v1) == CombineStrings(prefix, v2) {
      CombineStringsParts(prefix, v1);
      CombineStringsParts(prefix, v2);
    }
  }

  // ---------------------------------------------------------------------
  // Transactions

  class Transaction {
    var ops: seq<Op>

    constructor ()
      ensures ops == []
    {
      ops := [];
    }

    method Put(prefix: string, key: string, bl: Bytes)
      modifies this
      ensures ops == old(ops) + [Op(OP_PUT, prefix, key, bl)]
    {
      ops := ops + [Op(OP_PUT, prefix, key, bl)];
    }

    /** put(prefix, ver, bl): the key is the decimal form of the version. */
    method PutAtVersion(prefix: string, ver: u64, bl: Bytes)
      modifies this
      ensures ops == old(ops) + [Op(OP_PUT, prefix, Decimal.NatToString(ver), bl)]
    {
      Put(prefix, Decimal.NatToString(ver), bl);
    }

    /** put(prefix, key, ver): the value is the encoded version. */
    method PutVersion(prefix: string, key: string, ver: u64)
      modifies this
      ensures ops == old(ops) + [Op(OP_PUT, prefix, key, EncodeU64(ver))]
    {
      Put(prefix, key, EncodeU64(ver));
    }

    method Erase(prefix: string, key: string)
      modifies this
      ensures ops == old(ops) + [Op(OP_ERASE, prefix, key, [])]
    {
      ops := ops + [Op(OP_ERASE, prefix, key, [])];
    }

    /** erase(prefix, ver): the key is the decimal form of the version. */
    method EraseAtVersion(prefix: string, ver: u64)
      modifies this
      ensures ops == old(ops) + [Op(OP_ERASE, prefix, Decimal.NatToString(ver), [])]
    {
      Erase(prefix, Decimal.NatToString(ver));
    }

    /** append: splices all of other's operations onto the end, leaving other empty. */
    method Append(other: Transaction)
      requires other != this
      modifies this, other
      ensures ops == old(ops) + old(other.ops)
      ensures other.ops == []
    {
      ops := ops + other.ops;
      other.ops := [];
    }

    predicate Empty()
      reads this
    {
      |ops| == 0
    }
  }

  /** Every operation a Transaction method appends has a known type. */
  lemma BuiltOpsAreKnown(prefix: string, key: string, bl: Bytes)
    ensures KnownOp(Op(OP_PUT, prefix, key, bl)) && KnownOp(Op(OP_ERASE, prefix, key, []))
  {
  }

  // ---------------------------------------------------------------------
  // The store

  type Kv = map<(string, string), Bytes>

  /** The effect of one operation on the store. */
  function ApplyOp(kv: Kv, op: Op): (r: Kv)
    requires KnownOp(op)
    ensures op.kind == OP_PUT ==> (op.prefix, op.key) in r && r[(op.prefix, op.key)] == op.bl
    ensures op.kind == OP_ERASE ==> (op.prefix, op.key) !in r
    ensures forall pk :: pk != (op.prefix, op.key) ==> (pk in r <==> pk in kv) && (pk in r ==> r[pk] == kv[pk])
  {
    if op.kind == OP_PUT then kv[(op.prefix, op.key) := op.bl]
    else kv - {(op.prefix, op.key)}
  }

  /** The effect of a list of operations, applied first to last. */
  function ApplyOps(kv: Kv, ops: seq<Op>): Kv
    requires forall i :: 0 <= i < |ops| ==> KnownOp(ops[i])
    decreases |ops|
  {
    if |ops| == 0 then kv else ApplyOps(ApplyOp(kv, ops[0]), ops[1..])
  }

  /** Applying a concatenation is applying the two parts in turn. */
  lemma {:induction false} ApplyOpsConcat(kv: Kv, a: seq<Op>, b: seq<Op>)
    requires forall i :: 0 <= i < |a| ==> KnownOp(a[i])
    requires forall i :: 0 <= i < |b| ==> KnownOp(b[i])
    ensures forall i :: 0 <= i < |a + b| ==> KnownOp((a + b)[i])
    ensures ApplyOps(kv, a + b) == ApplyOps(ApplyOps(kv, a), b)
    decreases |a|
  {
    assert forall i :: 0 <= i < |a + b| ==> KnownOp((a + b)[i]) by {
      forall i | 0 <= i < |a + b| ensures KnownOp((a + b)[i]) {
        if i < |a| { assert (a + b)[i] == a[i]; } else { assert (a + b)[i] == b[i - |a|]; }
      }
    }
    if |a| > 0 {
      assert (a + b)[0] == a[0];
      assert (a + b)[1..] == a[1..] + b;
      ApplyOpsConcat(ApplyOp(kv, a[0]), a[1..], b);
    } else {
      assert a + b == b;
    }
  }

  /** The last operation on a key decides it: a trailing put is what is read. */
  lemma LaterOpWins(kv: Kv, ops: seq<Op>, op: Op)
    requires forall i :: 0 <= i < |ops| ==> KnownOp(ops[i])
    requires KnownOp(op)
    ensures forall i :: 0 <= i < |ops + [op]| ==> KnownOp((ops + [op])[i])
    ensures op.kind == OP_PUT ==> (op.prefix, op.key) in ApplyOps(kv, ops + [op]) &&
                                  ApplyOps(kv, ops + [op])[(op.prefix, op.key)] == op.bl
    ensures op.kind == OP_ERASE ==> (op.prefix, op.key) !in ApplyOps(kv, ops + [op])
  {
    ApplyOpsConcat(kv, ops, [op]);
    assert ApplyOps(ApplyOps(kv, ops), [op]) == ApplyOp(ApplyOps(kv, ops), op);
  }

  /** Lexicographic (byte-wise) order on keys, as the backing store sorts them. */
  predicate StrLe(a: string, b: string)
    decreases |a|
  {
    |a| == 0 || (|b| > 0 && (a[0] < b[0] || (a[0] == b[0] && StrLe(a[1..], b[1..]))))
  }

  lemma {:induction false} StrLeRefl(a: string)
    ensures StrLe(a, a)
    decreases |a|
  {
    if |a| > 0 { StrLeRefl(a[1..]); }
  }

  lemma {:induction false} StrLeAntisym(a: string, b: string)
    requires StrLe(a, b) && StrLe(b, a)
    ensures a == b
    decreases |a|
  {
    if |a| > 0 {
      StrLeAntisym(a[1..], b[1..]);
      assert a == [a[0]] + a[1..] && b == [b[0]] + b[1..];
    }
  }

  lemma {:induction false} StrLeTrans(a: string, b: string, c: string)
    requires StrLe(a, b) && StrLe(b, c)
    ensures StrLe(a, c)
    decreases |a|
  {
    if |a| > 0 && a[0] == b[0] && b[0] == c[0] {
      StrLeTrans(a[1..], b[1..], c[1..]);
    }
  }

  lemma {:induction false} StrLeTotal(a: string, b: string)
    ensures StrLe(a, b) || StrLe(b, a)
    decreases |a|
  {
    if |a| > 0 && |b| > 0 && a[0] == b[0] {
      StrLeTotal(a[1..], b[1..]);
    }
  }

  /** m is the first key at or after `key`, as an iterator's lower_bound finds it. */
  predicate IsLowerBound(keys: set<string>, key: string, m: string)
  {
    m in keys && StrLe(key, m) && forall k :: k in keys && StrLe(key, k) ==> StrLe(m, k)
  }

  /** Some key is at or after `key` exactly when a lower bound exists. */
  lemma {:induction false} LowerBoundExists(keys: set<string>, key: string)
    requires exists k :: k in keys && StrLe(key, k)
    ensures exists m :: IsLowerBound(keys, key, m)
    decreases |keys|
  {
    var k :| k in keys && StrLe(key, k);
    var rest := keys - {k};
    if exists k' :: k' in rest && StrLe(key, k') {
      LowerBoundExists(rest, key);
      var m :| IsLowerBound(rest, key, m);
      StrLeTotal(k, m);
      if StrLe(k, m) {
        forall k' | k' in keys && StrLe(key, k') ensures StrLe(k, k') {
          if k' != k { StrLeTrans(k, m, k'); } else { StrLeRefl(k); }
        }
        assert IsLowerBound(keys, key, k);
      } else {
        assert IsLowerBound(keys, key, m);
      }
    } else {
      forall k' | k' in keys && StrLe(key, k') ensures StrLe(k, k') {
        assert k' == k;
        StrLeRefl(k);
      }
      assert IsLowerBound(keys, key, k);
    }
  }

  ghost function LowerBound(keys: set<string>, key: string): (r: Option<string>)
    ensures r.Some? ==> IsLowerBound(keys, key, r.value)
    ensures r.None? ==> forall k :: k in keys ==> !StrLe(key, k)
  {
    if exists k :: k in keys && StrLe(key, k) then
      LowerBoundExists(keys, key);
      var m :| IsLowerBound(keys, key, m);
      Some(m)
    else
      None
  }

  class Store {
    var kv: Kv

    constructor (initial: Kv)
      ensures kv == initial
    {
      kv := initial;
    }

    /** The keys stored under one prefix. */
    ghost function KeysOf(prefix: string): set<string>
      reads this
    {
      set pk | pk in kv && pk.0 == prefix :: pk.1
    }

    /**
     * apply_transaction: every operation in order goes into one database
     * batch, which is then submitted synchronously; an unknown op type is a
     * failed assertion. The batch's outcome (submitResult) is what the
     * database answers: 0 stores the whole batch, anything else stores none
     * of it and is handed back.
     */
    method ApplyTransaction(t: Transaction, submitResult: int) returns (r: int)
      requires forall i :: 0 <= i < |t.ops| ==> KnownOp(t.ops[i])
      modifies this
      ensures r == submitResult
      ensures r == 0 ==> kv == ApplyOps(old(kv), t.ops)
      ensures r != 0 ==> kv == old(kv)
    {
      var batch := kv;
      var i := 0;
      while i < |t.ops|
        invariant 0 <= i <= |t.ops|
        invariant ApplyOps(kv, t.ops) == ApplyOps(batch, t.ops[i..])
      {
        var op := t.ops[i];
        assert t.ops[i..][1..] == t.ops[i + 1..];
        if op.kind == OP_PUT {
          batch := batch[(op.prefix, op.key) := op.bl];
        } else {
          batch := batch - {(op.prefix, op.key)};
        }
        i := i + 1;
      }
      r := submitResult;
      if r == 0 {
        kv := batch;
      }
    }

    /** get(prefix, key, bl): appends the stored value, if any, and returns 0. */
    method Get(prefix: string, key: string, bl: Bytes) returns (r: int, out: Bytes)
      ensures r == 0
      ensures (prefix, key) in kv ==> out == bl + kv[(prefix, key)]
      ensures (prefix, key) !in kv ==> out == bl
    {
      r := 0;
      out := bl;
      if (prefix, key) in kv {
        out := out + kv[(prefix, key)];
      }
    }

    /** get(prefix, ver, bl): the same under the decimal key of the version. */
    method GetAtVersion(prefix: string, ver: u64, bl: Bytes) returns (r: int, out: Bytes)
      ensures r == 0
      ensures (prefix, Decimal.NatToString(ver)) in kv ==> out == bl + kv[(prefix, Decimal.NatToString(ver))]
      ensures (prefix, Decimal.NatToString(ver)) !in kv ==> out == bl
    {
      r, out := Get(prefix, Decimal.NatToString(ver), bl);
    }

    /** get(prefix, key) as a version: an absent (or empty) value reads as 0; a
     *  value shorter than eight bytes makes decode fail, shown as None. */
    function GetVersion(prefix: string, key: string): (r: Option<nat>)
      reads this
      ensures (prefix, key) !in kv ==> r == Some(0)
      ensures (prefix, key) in kv && |kv[(prefix, key)]| == 0 ==> r == Some(0)
      ensures (prefix, key) in kv && 0 < |kv[(prefix, key)]| < 8 ==> r == None
      ensures (prefix, key) in kv && |kv[(prefix, key)]| >= 8 ==> r == Some(DecodeU64(kv[(prefix, key)]))
    {
      if (prefix, key) !in kv || |kv[(prefix, key)]| == 0 then Some(0)
      else if |kv[(prefix, key)]| < 8 then None
      else Some(DecodeU64(kv[(prefix, key)]))
    }

    /** exists(prefix, key): the lower bound of key under the prefix is key itself. */
    ghost predicate Exists(prefix: string, key: string)
      reads this
    {
      var lb := LowerBound(KeysOf(prefix), key);
      lb.Some? && lb.value == key
    }
  }

  /** exists holds iff the exact key is stored. */
  lemma ExistsIffStored(s: Store, prefix: string, key: string)
    ensures s.Exists(prefix, key) <==> (prefix, key) in s.kv
  {
    var keys := s.KeysOf(prefix);
    assert (prefix, key) in s.kv <==> key in keys;
    var lb := LowerBound(keys, key);
    if key in keys {
      StrLeRefl(key);
      assert lb.Some?;
      StrLeAntisym(lb.value, key);
    }
  }

  /** put(prefix, key, ver) followed by get(prefix, key) yields ver. */
  lemma PutVersionThenGet(kv: Kv, ops: seq<Op>, prefix: string, key: string, ver: u64)
    requires forall i :: 0 <= i < |ops| ==> KnownOp(ops[i])
    ensures forall i :: 0 <= i < |ops + [Op(OP_PUT, prefix, key, EncodeU64(ver))]| ==>
              KnownOp((ops + [Op(OP_PUT, prefix, key, EncodeU64(ver))])[i])
    ensures var kv' := ApplyOps(kv, ops + [Op(OP_PUT, prefix, key, EncodeU64(ver))]);
            (prefix, key) in kv' && kv'[(prefix, key)] == EncodeU64(ver) &&
            DecodeU64(kv'[(prefix, key)]) == ver
  {
    LaterOpWins(kv, ops, Op(OP_PUT, prefix, key, EncodeU64(ver)));
    EncodeDecodeU64(ver);
  }
}
