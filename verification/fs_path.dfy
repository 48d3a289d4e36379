/**
 * POSIX std::filesystem::path composition, as the path helpers use it:
 * operator/ and concat on paths held as strings.
 */
module FsPath {
  type Path = string

  predicate IsAbsolute(p: Path)
  {
    |p| > 0 && p[0] == '/'
  }

  /** A path has a file name unless it is empty or ends in a separator. */
  predicate HasFileName(p: Path)
  {
    |p| > 0 && p[|p| - 1] != '/'
  }

  /** A single relative component: non-empty and free of separators. */
  predicate IsComponent(c: string)
  {
    |c| > 0 && forall i :: 0 <= i < |c| ==> c[i] != '/'
  }

  /**
   * p / q: an absolute q replaces p; otherwise a separator is inserted
   * exactly when p has a file name.
   */
  function Join(p: Path, q: Path): (r: Path)
    ensures IsAbsolute(q) ==> r == q
    ensures !IsAbsolute(q) && HasFileName(p) ==> r == p + "/" + q
    ensures !IsAbsolute(q) && !HasFileName(p) ==> r == p + q
  {
    if IsAbsolute(q) then q
    else if HasFileName(p) then p + "/" + q
    else p + q
  }

  /** A relative path joined onto p extends p. */
  lemma JoinExtends(p: Path, q: Path)
    requires !IsAbsolute(q)
    ensures |Join(p, q)| >= |p| + |q| && Join(p, q)[..|p|] == p
  {
  }

  /** Joining a component onto a path with a file name keeps a file name. */
  lemma JoinComponentHasFileName(p: Path, c: string)
    requires IsComponent(c)
    ensures HasFileName(Join(p, c))
    ensures !IsAbsolute(c)
  {
    assert c[0] != '/';
  }

  /** Different components under the same parent give different paths. */
  lemma JoinInjective(p: Path, c1: string, c2: string)
    requires IsComponent(c1) && IsComponent(c2)
    requires Join(p, c1) == Join(p, c2)
    ensures c1 == c2
  {
    JoinComponentHasFileName(p, c1);
    JoinComponentHasFileName(p, c2);
    var r := Join(p, c1);
    var k := if HasFileName(p) then |p| + 1 else |p|;
    assert r[k..] == c1;
    assert Join(p, c2)[k..] == c2;
  }

  /** path::concat: plain appending, no separator. */
  function Concat(p: Path, s: string): (r: Path)
    ensures |r| == |p| + |s| && r[..|p|] == p && r[|p|..] == s
  {
    p + s
  }
}
