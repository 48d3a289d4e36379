/** Generic map helpers used where the source indexes a std::map with
 *  operator[] (which default-constructs a missing entry). */
module Collections {
  /** Lookup with a default, the way `m[k]` default-constructs a missing entry. */
  function GetOr<K, V>(m: map<K, V>, k: K, d: V): (v: V)
    ensures k in m ==> v == m[k]
    ensures k !in m ==> v == d
  {
    if k in m then m[k] else d
  }

  /** Takes some element of a non-empty set, the next key a loop over a
   *  std::map or std::set visits when the visiting order does not matter. */
  method Pick<K>(s: set<K>) returns (x: K)
    requires s != {}
    ensures x in s
  {
    x :| x in s;
  }

  /** Walks every entry of oCats and combines it into the running map, the
   *  way a loop over a std::map with `m[k].op(v)` does. */
  method MergeInto<K, V>(cats0: map<K, V>, oCats: map<K, V>, f: (V, V) -> V, zero: V)
    returns (cats: map<K, V>)
    ensures cats.Keys == cats0.Keys + oCats.Keys
    ensures forall k :: k in oCats ==> cats[k] == f(GetOr(cats0, k, zero), oCats[k])
    ensures forall k :: k in cats0 && k !in oCats ==> cats[k] == cats0[k]
  {
    cats := cats0;
    var todo := oCats.Keys;
    while todo != {}
      invariant forall k :: k in todo ==> k in oCats
      invariant forall k :: k in cats <==> k in cats0 || (k in oCats && k !in todo)
      invariant forall k :: k in oCats && k !in todo ==> cats[k] == f(GetOr(cats0, k, zero), oCats[k])
      invariant forall k :: k in cats0 && (k !in oCats || k in todo) ==> cats[k] == cats0[k]
      decreases todo
    {
      var k :| k in todo;
      var cur := GetOr(cats, k, zero);
      cats := cats[k := f(cur, oCats[k])];
      todo := todo - {k};
    }
  }

  /**
   * Some element of a non-empty set, for proofs: the lemma counterpart of
   * Pick, which lemmas cannot call. Choosing with `:|` directly over a
   * set<int> needs this generic step to find its witness.
   */
  lemma PickElem<T>(s: set<T>) returns (x: T)
    requires s != {}
    ensures x in s
  {
    x :| x in s;
  }

  lemma {:induction false} MinExists(s: set<int>)
    requires s != {}
    ensures exists m :: m in s && forall x :: x in s ==> m <= x
    decreases |s|
  {
    var y := PickElem(s);
    if s != {y} {
      var rest := s - {y};
      MinExists(rest);
      var m :| m in rest && forall x :: x in rest ==> m <= x;
      var least := if y < m then y else m;
      forall x | x in s ensures least <= x {
        if x != y { assert x in rest; }
      }
      assert least in s;
    } else {
      assert forall x :: x in s ==> y <= x;
    }
  }

  /** The least key of a non-empty key set: where a std::map's begin() is. */
  ghost function MinKey(s: set<int>): (m: int)
    requires s != {}
    ensures m in s && forall x :: x in s ==> m <= x
  {
    MinExists(s);
    var m :| m in s && forall x :: x in s ==> m <= x; m
  }

  /** Finds the least key by a walk over the set. */
  method FindMinKey(s: set<int>) returns (m: int)
    requires s != {}
    ensures m == MinKey(s)
  {
    m := Pick(s);
    var todo := s - {m};
    while todo != {}
      invariant m in s
      invariant forall x :: x in todo ==> x in s
      invariant forall x :: x in s && x !in todo ==> m <= x
      decreases todo
    {
      var x := Pick(todo);
      if x < m {
        m := x;
      }
      todo := todo - {x};
    }
  }
}
