/** Finite directed graphs: paths, reachability, and a rank that drops along every edge that is not
    on a cycle. */
module Graph {
  type Graph<!T> = map<T, set<T>>

  function Next<T>(g: Graph<T>, n: T): set<T> { if n in g then g[n] else {} }

  ghost predicate Path<T(!new)>(g: Graph<T>, p: seq<T>) {
    |p| >= 1 && forall i | 0 <= i < |p| - 1 :: p[i + 1] in Next(g, p[i])
  }

  ghost predicate Links<T(!new)>(g: Graph<T>, p: seq<T>, a: T, b: T) {
    Path(g, p) && p[0] == a && p[|p| - 1] == b
  }

  ghost predicate Reaches<T(!new)>(g: Graph<T>, a: T, b: T) {
    exists p :: Links(g, p, a, b)
  }

  lemma ReachesSelf<T(!new)>(g: Graph<T>, a: T)
    ensures Reaches(g, a, a)
  {
    assert Links(g, [a], a, a);
  }

  lemma ReachesBefore<T(!new)>(g: Graph<T>, a: T, b: T, c: T)
    requires b in Next(g, a) && Reaches(g, b, c)
    ensures Reaches(g, a, c)
  {
    var p :| Links(g, p, b, c);
    var q := [a] + p;
    forall i | 0 <= i < |q| - 1 ensures q[i + 1] in Next(g, q[i]) {
      if i > 0 { assert q[i] == p[i - 1] && q[i + 1] == p[i]; }
    }
    assert Links(g, q, a, c);
  }

  /** The first step of a path that is not trivial. */
  lemma FirstStep<T(!new)>(g: Graph<T>, a: T, c: T) returns (b: T)
    requires Reaches(g, a, c) && a != c
    ensures b in Next(g, a) && Reaches(g, b, c)
  {
    var p :| Links(g, p, a, c);
    b := p[1];
    var q := p[1..];
    forall i | 0 <= i < |q| - 1 ensures q[i + 1] in Next(g, q[i]) {
      assert q[i] == p[i + 1] && q[i + 1] == p[i + 2];
    }
    assert Links(g, q, b, c);
  }

  lemma {:induction false} ReachesTransitive<T(!new)>(g: Graph<T>, p: seq<T>, a: T, b: T, c: T)
    requires Links(g, p, a, b) && Reaches(g, b, c)
    ensures Reaches(g, a, c)
    decreases |p|
  {
    if |p| > 1 {
      var q := p[1..];
      forall i | 0 <= i < |q| - 1 ensures q[i + 1] in Next(g, q[i]) {
        assert q[i] == p[i + 1] && q[i + 1] == p[i + 2];
      }
      ReachesTransitive(g, q, p[1], b, c);
      ReachesBefore(g, a, p[1], c);
    }
  }

  lemma ReachesChain<T(!new)>(g: Graph<T>, a: T, b: T, c: T)
    requires Reaches(g, a, b) && Reaches(g, b, c)
    ensures Reaches(g, a, c)
  {
    var p :| Links(g, p, a, b);
    ReachesTransitive(g, p, a, b, c);
  }

  /** The node lies on a cycle. */
  ghost predicate OnCycle<T(!new)>(g: Graph<T>, a: T) {
    exists b :: b in Next(g, a) && Reaches(g, b, a)
  }

  function Nodes<T>(g: Graph<T>): set<T> { g.Keys + set a, b | a in g && b in g[a] :: b }

  /** Everything reachable from some node of a set. */
  ghost function Reach<T(!new)>(g: Graph<T>, from: set<T>): set<T> {
    set b | b in Nodes(g) + from && exists a :: a in from && Reaches(g, a, b)
  }

  lemma {:induction false} ReachedIsNode<T(!new)>(g: Graph<T>, p: seq<T>, a: T, b: T)
    requires Links(g, p, a, b)
    ensures b == a || b in Nodes(g)
  {
    if |p| > 1 {
      assert b in Next(g, p[|p| - 2]);
    }
  }

  lemma ReachIs<T(!new)>(g: Graph<T>, from: set<T>, a: T, b: T)
    requires a in from && Reaches(g, a, b)
    ensures b in Reach(g, from)
  {
    var p :| Links(g, p, a, b);
    ReachedIsNode(g, p, a, b);
  }

  lemma ReachMonotone<T(!new)>(g: Graph<T>, small: set<T>, large: set<T>)
    requires small <= large
    ensures Reach(g, small) <= Reach(g, large) && |Reach(g, small)| <= |Reach(g, large)|
  {
    Larger(Reach(g, small), Reach(g, large));
  }

  lemma {:induction false} Larger<T>(a: set<T>, b: set<T>)
    requires a <= b
    ensures |a| <= |b| && (a != b ==> |a| < |b|)
  {
    assert b == a + (b - a);
  }

  /** Following the edges of a node that is not on a cycle leaves the node behind. */
  lemma ReachDrops<T(!new)>(g: Graph<T>, a: T, from: set<T>)
    requires a in from && !OnCycle(g, a)
    ensures Reach(g, Next(g, a)) <= Reach(g, from) && |Reach(g, Next(g, a))| < |Reach(g, from)|
  {
    forall c | c in Reach(g, Next(g, a)) ensures c in Reach(g, from) {
      var b :| b in Next(g, a) && Reaches(g, b, c);
      ReachesBefore(g, a, b, c);
      ReachIs(g, from, a, c);
    }
    ReachesSelf(g, a);
    ReachIs(g, from, a, a);
    assert a !in Reach(g, Next(g, a));
    Larger(Reach(g, Next(g, a)), Reach(g, from));
  }
}
