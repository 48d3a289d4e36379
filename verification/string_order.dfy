/**
 * The ordering std::map<std::string, ...> keeps its keys in: lexicographic,
 * character by character, a proper prefix first.
 */
module StringOrder {
  predicate LexLess(a: string, b: string)
    decreases |a|
  {
    if |a| == 0 then |b| > 0
    else if |b| == 0 then false
    else a[0] < b[0] || (a[0] == b[0] && LexLess(a[1..], b[1..]))
  }

  lemma {:induction false} LexLessIrreflexive(a: string)
    ensures !LexLess(a, a)
    decreases |a|
  {
    if |a| > 0 {
      LexLessIrreflexive(a[1..]);
    }
  }

  lemma {:induction false} LexLessTransitive(a: string, b: string, c: string)
    requires LexLess(a, b) && LexLess(b, c)
    ensures LexLess(a, c)
    decreases |a|
  {
    if |a| > 0 && a[0] == b[0] && b[0] == c[0] {
      LexLessTransitive(a[1..], b[1..], c[1..]);
    }
  }

  /** Any two distinct strings are ordered one way. */
  lemma {:induction false} LexLessTotal(a: string, b: string)
    ensures a == b || LexLess(a, b) || LexLess(b, a)
    decreases |a|
  {
    if |a| > 0 && |b| > 0 && a[0] == b[0] {
      LexLessTotal(a[1..], b[1..]);
      if a[1..] == b[1..] {
        assert a == [a[0]] + a[1..];
        assert b == [b[0]] + b[1..];
      }
    }
  }

  lemma LexLessAsymmetric(a: string, b: string)
    requires LexLess(a, b)
    ensures !LexLess(b, a)
  {
    if LexLess(b, a) {
      LexLessTransitive(a, b, a);
      LexLessIrreflexive(a);
    }
  }

  predicate IsLeast(m: string, s: set<string>)
  {
    m in s && forall x :: x in s && x != m ==> LexLess(m, x)
  }

  /** A non-empty set of strings has a least element. */
  lemma {:induction false} FindLeast(s: set<string>) returns (m: string)
    requires s != {}
    ensures IsLeast(m, s)
    decreases s
  {
    var x :| x in s;
    if s == {x} {
      m := x;
    } else {
      var m' := FindLeast(s - {x});
      LexLessTotal(x, m');
      if LexLess(x, m') {
        m := x;
        forall y | y in s && y != m
          ensures LexLess(m, y)
        {
          if y != m' {
            LexLessTransitive(x, m', y);
          }
        }
      } else {
        m := m';
      }
    }
  }

  lemma LeastExists(s: set<string>)
    requires s != {}
    ensures exists m :: IsLeast(m, s)
  {
    var m := FindLeast(s);
  }

  /** The least element is unique. */
  lemma LeastUnique(m1: string, m2: string, s: set<string>)
    requires IsLeast(m1, s) && IsLeast(m2, s)
    ensures m1 == m2
  {
    if m1 != m2 {
      LexLessAsymmetric(m1, m2);
    }
  }

  /** The key std::map::begin() points at. */
  function Least(s: set<string>): (m: string)
    requires s != {}
    ensures IsLeast(m, s)
  {
    LeastExists(s);
    forall m1, m2 | IsLeast(m1, s) && IsLeast(m2, s)
      ensures m1 == m2
    {
      LeastUnique(m1, m2, s);
    }
    var m :| IsLeast(m, s);
    m
  }

  /** The keys of a std::map in the order iterating the map visits them. */
  function SortedKeys(s: set<string>): (r: seq<string>)
    ensures |r| == |s|
    ensures forall i :: 0 <= i < |r| ==> r[i] in s
    decreases |s|
  {
    if s == {} then []
    else
      var m := Least(s);
      var rest := SortedKeys(s - {m});
      assert forall i :: 1 <= i < |rest| + 1 ==> ([m] + rest)[i] == rest[i - 1];
      [m] + rest
  }

  /** Every key is visited, and nothing else. */
  lemma {:induction false} SortedKeysMembers(s: set<string>)
    ensures forall x :: x in SortedKeys(s) <==> x in s
    decreases |s|
  {
    if s != {} {
      var m := Least(s);
      SortedKeysMembers(s - {m});
    }
  }

  /** The keys are visited in ascending order, so each once. */
  lemma {:induction false} SortedKeysAscending(s: set<string>)
    ensures forall i, j :: 0 <= i < j < |SortedKeys(s)| ==> LexLess(SortedKeys(s)[i], SortedKeys(s)[j])
    decreases |s|
  {
    if s != {} {
      var m := Least(s);
      var r, rest := SortedKeys(s), SortedKeys(s - {m});
      SortedKeysAscending(s - {m});
      SortedKeysMembers(s - {m});
      forall i, j | 0 <= i < j < |r|
        ensures LexLess(r[i], r[j])
      {
        assert r[j] == rest[j - 1] && rest[j - 1] in s - {m};
        if i > 0 {
          assert r[i] == rest[i - 1];
        }
      }
    }
  }
}
