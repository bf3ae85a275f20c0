/** Walks over a set of edges, and reachability as the existence of a walk. */
module Paths {
  import opened Graphs

  ghost predicate Linked<N>(es: set<Edge<N>>, p: seq<N>, i: nat)
    requires i + 1 < |p|
  {
    Edge(p[i], p[i + 1]) in es
  }

  /** `p` is a walk from `a` to `b`; the walk of one node has no edge. */
  ghost predicate IsPath<N>(es: set<Edge<N>>, a: N, b: N, p: seq<N>) {
    && p != [] && p[0] == a && p[|p| - 1] == b
    && forall i :: 0 <= i < |p| - 1 ==> Linked(es, p, i)
  }

  ghost predicate Reaches<N(!new)>(es: set<Edge<N>>, a: N, b: N) {
    exists p :: IsPath(es, a, b, p)
  }

  /** Reached by at least one edge. */
  ghost predicate ReachesByEdge<N(!new)>(es: set<Edge<N>>, a: N, b: N) {
    exists s :: EdgeThenReaches(es, a, s, b)
  }

  ghost predicate EdgeThenReaches<N(!new)>(es: set<Edge<N>>, a: N, s: N, b: N) {
    Edge(a, s) in es && Reaches(es, s, b)
  }

  lemma PathRefl<N(!new)>(es: set<Edge<N>>, a: N)
    ensures IsPath(es, a, a, [a]) && Reaches(es, a, a)
  {
    assert IsPath(es, a, a, [a]);
  }

  lemma PathSnoc<N(!new)>(es: set<Edge<N>>, a: N, b: N, c: N, p: seq<N>)
    requires IsPath(es, a, b, p) && Edge(b, c) in es
    ensures IsPath(es, a, c, p + [c]) && Reaches(es, a, c)
  {
    var q := p + [c];
    forall i | 0 <= i < |q| - 1 ensures Linked(es, q, i) {
      if i < |p| - 1 {
        assert Linked(es, p, i);
      }
    }
    assert IsPath(es, a, c, q);
  }

  /** A walk cut at position `i` gives a walk to that node and a walk from it. */
  lemma PathSplit<N>(es: set<Edge<N>>, a: N, b: N, p: seq<N>, i: nat)
    requires IsPath(es, a, b, p) && i < |p|
    ensures IsPath(es, a, p[i], p[..i + 1])
    ensures IsPath(es, p[i], b, p[i..])
  {
    var q := p[..i + 1];
    forall j | 0 <= j < |q| - 1 ensures Linked(es, q, j) {
      assert Linked(es, p, j);
    }
    forall j | 0 <= j < |p| - i - 1 ensures Linked(es, p[i..], j) {
      assert Linked(es, p, i + j);
    }
  }

  /** The last edge of a walk that has one. */
  lemma PathUnsnoc<N(!new)>(es: set<Edge<N>>, a: N, b: N, p: seq<N>) returns (m: N)
    requires IsPath(es, a, b, p) && |p| > 1
    ensures m == p[|p| - 2] && IsPath(es, a, m, p[..|p| - 1]) && Edge(m, b) in es && Reaches(es, a, m)
  {
    m := p[|p| - 2];
    PathSplit(es, a, b, p, |p| - 2);
    assert Linked(es, p, |p| - 2);
  }

  lemma PathConcat<N(!new)>(es: set<Edge<N>>, a: N, b: N, c: N, p: seq<N>, q: seq<N>)
    requires IsPath(es, a, b, p) && IsPath(es, b, c, q)
    ensures IsPath(es, a, c, p + q[1..])
  {
    var r := p + q[1..];
    forall i | 0 <= i < |r| - 1 ensures Linked(es, r, i) {
      if i < |p| - 1 {
        assert Linked(es, p, i);
      } else {
        assert Linked(es, q, i - |p| + 1);
      }
    }
  }

  lemma ReachesTrans<N(!new)>(es: set<Edge<N>>, a: N, b: N, c: N)
    requires Reaches(es, a, b) && Reaches(es, b, c)
    ensures Reaches(es, a, c)
  {
    var p :| IsPath(es, a, b, p);
    var q :| IsPath(es, b, c, q);
    PathConcat(es, a, b, c, p, q);
  }

  lemma ReachesStep<N(!new)>(es: set<Edge<N>>, a: N, b: N, c: N)
    requires Reaches(es, a, b) && Edge(b, c) in es
    ensures Reaches(es, a, c)
  {
    var p :| IsPath(es, a, b, p);
    PathSnoc(es, a, b, c, p);
  }

  lemma ReachesCons<N(!new)>(es: set<Edge<N>>, a: N, b: N, c: N)
    requires Edge(a, b) in es && Reaches(es, b, c)
    ensures Reaches(es, a, c)
  {
    PathRefl(es, a);
    ReachesStep(es, a, a, b);
    ReachesTrans(es, a, b, c);
  }

  /** Every node but the first is reached over an edge. */
  lemma ReachesUncons<N(!new)>(es: set<Edge<N>>, a: N, b: N)
    requires Reaches(es, a, b) && a != b
    ensures ReachesByEdge(es, a, b)
  {
    var p :| IsPath(es, a, b, p);
    PathSplit(es, a, b, p, 1);
    assert Linked(es, p, 0);
    assert EdgeThenReaches(es, a, p[1], b);
  }

  /** A set of nodes closed under the edges holds everything reached from its members. */
  lemma ClosedReaches<N(!new)>(es: set<Edge<N>>, closed: iset<N>, a: N, b: N)
    requires a in closed && forall e <- es :: e.src in closed ==> e.dst in closed
    requires Reaches(es, a, b)
    ensures b in closed
  {
    var p :| IsPath(es, a, b, p);
    ClosedPath(es, closed, a, b, p);
  }

  lemma {:induction false} ClosedPath<N(!new)>(es: set<Edge<N>>, closed: iset<N>, a: N, b: N, p: seq<N>)
    requires a in closed && forall e <- es :: e.src in closed ==> e.dst in closed
    requires IsPath(es, a, b, p)
    ensures b in closed
    decreases |p|
  {
    if |p| > 1 {
      var m := PathUnsnoc(es, a, b, p);
      ClosedPath(es, closed, a, m, p[..|p| - 1]);
    }
  }

  function Reverse<N>(p: seq<N>): (q: seq<N>)
    ensures |q| == |p| && forall i :: 0 <= i < |p| ==> q[i] == p[|p| - 1 - i]
  {
    seq(|p|, i requires 0 <= i < |p| => p[|p| - 1 - i])
  }

  /** Walking the flipped edges is walking the edges backwards. */
  lemma PathReverse<N(!new)>(es: set<Edge<N>>, a: N, b: N, p: seq<N>)
    requires IsPath(es, a, b, p)
    ensures IsPath(FlipAll(es), b, a, Reverse(p))
  {
    FlipAllMembers(es);
    var q := Reverse(p);
    forall i | 0 <= i < |q| - 1 ensures Linked(FlipAll(es), q, i) {
      assert Linked(es, p, |p| - 2 - i);
    }
  }

  lemma FlipTwice<N(!new)>(es: set<Edge<N>>)
    ensures FlipAll(FlipAll(es)) == es
  {
    FlipAllMembers(es);
    FlipAllMembers(FlipAll(es));
    forall e: Edge<N> ensures e in FlipAll(FlipAll(es)) <==> e in es {
      assert e == Edge(e.src, e.dst);
    }
  }
}
