/** Paths over a binary relation, used to say "transitively redeems" for
    transactions and "transitively descends from" for blocks. */
module Reachability {

  /** `p` walks along edges of `edge`. */
  ghost predicate Path<T(!new)>(edge: (T, T) -> bool, p: seq<T>) {
    && |p| > 0
    && forall i :: 0 <= i < |p| - 1 ==> edge(p[i], p[i + 1])
  }

  /** `b` is `a` itself or follows from it by one or more edges. */
  ghost predicate Reaches<T(!new)>(edge: (T, T) -> bool, a: T, b: T) {
    exists p :: Path(edge, p) && p[0] == a && p[|p| - 1] == b
  }

  lemma ReachesSelf<T(!new)>(edge: (T, T) -> bool, a: T)
    ensures Reaches(edge, a, a)
  {
    assert Path(edge, [a]);
  }

  lemma ReachesStep<T(!new)>(edge: (T, T) -> bool, a: T, b: T, c: T)
    requires Reaches(edge, a, b) && edge(b, c)
    ensures Reaches(edge, a, c)
  {
    var p :| Path(edge, p) && p[0] == a && p[|p| - 1] == b;
    assert Path(edge, p + [c]);
  }

  lemma ReachesMore<T(!new)>(smaller: (T, T) -> bool, edge: (T, T) -> bool, a: T, b: T)
    requires Reaches(smaller, a, b) && forall x, y :: smaller(x, y) ==> edge(x, y)
    ensures Reaches(edge, a, b)
  {
    var p :| Path(smaller, p) && p[0] == a && p[|p| - 1] == b;
    assert Path(edge, p);
  }

  /** Prefixing an edge, and following the rest in a possibly smaller relation. */
  lemma ReachesFromSuccessor<T(!new)>(edge: (T, T) -> bool, smaller: (T, T) -> bool, a: T, b: T, c: T)
    requires edge(a, b) && Reaches(smaller, b, c)
    requires forall x, y :: smaller(x, y) ==> edge(x, y)
    ensures Reaches(edge, a, c)
  {
    var p :| Path(smaller, p) && p[0] == b && p[|p| - 1] == c;
    var q := [a] + p;
    forall i | 0 <= i < |q| - 1 ensures edge(q[i], q[i + 1]) {
      if i > 0 {
        assert smaller(p[i - 1], p[i]);
      }
    }
    assert Path(edge, q) && q[0] == a && q[|q| - 1] == c;
  }

  /** A set that holds `a` and is closed under `edge` holds everything `a` reaches. */
  lemma ReachesStaysInside<T(!new)>(edge: (T, T) -> bool, inside: T -> bool, a: T, b: T)
    requires inside(a) && Reaches(edge, a, b)
    requires forall x, y :: inside(x) && edge(x, y) ==> inside(y)
    ensures inside(b)
  {
    var p :| Path(edge, p) && p[0] == a && p[|p| - 1] == b;
    var i := 0;
    while i < |p| - 1
      invariant 0 <= i < |p| && inside(p[i])
    {
      assert edge(p[i], p[i + 1]);
      i := i + 1;
    }
  }
}
