/** Directed graphs in the manner of petgraph's `DiGraphMap`, without edge weights:
    the edges in the order of their first insertion, never the same edge twice. */
module Graphs {
  datatype Edge<N> = Edge(src: N, dst: N)

  datatype DiGraph<N(==)> = DiGraph(edges: seq<Edge<N>>) {
    /** The edges without their order. */
    ghost function EdgeSet(): (es: set<Edge<N>>)
      ensures forall e <- edges :: e in es
    {
      set e | e in edges
    }

    ghost predicate Valid() {
      Distinct(edges)
    }

    /** Adding a present edge only replaces its weight, so here it changes nothing. */
    function AddEdge(a: N, b: N): (g: DiGraph<N>)
      ensures g.EdgeSet() == EdgeSet() + {Edge(a, b)}
      ensures Valid() ==> g.Valid()
    {
      if Edge(a, b) in edges then this
      else
        assert Valid() ==> Distinct(edges + [Edge(a, b)]) by {
          if Valid() {
            DistinctSnoc(edges, Edge(a, b));
          }
        }
        DiGraph(edges + [Edge(a, b)])
    }

    /** `neighbors_directed(n, Outgoing)`, in insertion order; empty for an unknown node. */
    function Successors(n: N): (ns: seq<N>)
      ensures forall e <- EdgeSet() :: e.src == n ==> e.dst in ns
      ensures forall m <- ns :: Edge(n, m) in EdgeSet()
    {
      SuccessorsIn(edges, n)
    }

    /** `neighbors_directed(n, Incoming)`, in insertion order; empty for an unknown node. */
    function Predecessors(n: N): (ns: seq<N>)
      ensures forall e <- EdgeSet() :: e.dst == n ==> e.src in ns
      ensures forall m <- ns :: Edge(m, n) in EdgeSet()
    {
      PredecessorsIn(edges, n)
    }
  }

  ghost function Elems<T>(s: seq<T>): (r: set<T>)
    ensures forall x <- s :: x in r
    ensures forall x <- r :: x in s
  {
    set x | x in s
  }

  ghost predicate Differ<T>(s: seq<T>, i: nat, j: nat)
    requires i < |s| && j < |s|
  {
    s[i] != s[j]
  }

  ghost predicate Distinct<T>(s: seq<T>) {
    forall i, j :: 0 <= i < j < |s| ==> Differ(s, i, j)
  }

  lemma DistinctSnoc<T>(s: seq<T>, x: T)
    requires Distinct(s) && x !in s
    ensures Distinct(s + [x])
  {
    var t := s + [x];
    forall i, j | 0 <= i < j < |t| ensures Differ(t, i, j) {
      if j < |s| {
        assert Differ(s, i, j);
      }
    }
  }

  lemma DistinctPrefix<T>(s: seq<T>, n: nat)
    requires Distinct(s) && n <= |s|
    ensures Distinct(s[..n])
  {
    forall i, j | 0 <= i < j < n ensures Differ(s[..n], i, j) {
      assert Differ(s, i, j);
    }
  }

  lemma DistinctSuffix<T>(s: seq<T>, n: nat)
    requires Distinct(s) && n <= |s|
    ensures Distinct(s[n..])
  {
    forall i, j | 0 <= i < j < |s| - n ensures Differ(s[n..], i, j) {
      assert Differ(s, n + i, n + j);
    }
  }

  /** Equal entries of a sequence without repetition stand at the same position. */
  lemma SamePosition<T>(s: seq<T>, i: nat, j: nat)
    requires Distinct(s) && i < |s| && j < |s| && s[i] == s[j]
    ensures i == j
  {
    assert i < j ==> Differ(s, i, j);
    assert j < i ==> Differ(s, j, i);
  }

  function SuccessorsIn<N(==)>(edges: seq<Edge<N>>, n: N): (ns: seq<N>)
    ensures forall e <- edges :: e.src == n ==> e.dst in ns
    ensures forall m <- ns :: Edge(n, m) in edges
  {
    if edges == [] then []
    else if edges[0].src == n then [edges[0].dst] + SuccessorsIn(edges[1..], n)
    else SuccessorsIn(edges[1..], n)
  }

  function PredecessorsIn<N(==)>(edges: seq<Edge<N>>, n: N): (ns: seq<N>)
    ensures forall e <- edges :: e.dst == n ==> e.src in ns
    ensures forall m <- ns :: Edge(m, n) in edges
  {
    if edges == [] then []
    else if edges[0].dst == n then [edges[0].src] + PredecessorsIn(edges[1..], n)
    else PredecessorsIn(edges[1..], n)
  }

  /** A node is listed as predecessor only once. */
  lemma {:induction false} PredecessorsDistinct<N>(edges: seq<Edge<N>>, n: N)
    requires Distinct(edges)
    ensures Distinct(PredecessorsIn(edges, n))
  {
    if edges != [] {
      DistinctSuffix(edges, 1);
      PredecessorsDistinct(edges[1..], n);
      if edges[0].dst == n {
        var rest := PredecessorsIn(edges[1..], n);
        if edges[0].src in rest {
          var k :| 1 <= k < |edges| && edges[k] == edges[0];
          SamePosition(edges, 0, k);
        }
        forall i, j | 0 <= i < j < |rest| + 1 ensures Differ([edges[0].src] + rest, i, j) {
          if i > 0 {
            assert Differ(rest, i - 1, j - 1);
          }
        }
      }
    }
  }

  /** `e` with its direction reversed. */
  function Flip<N>(e: Edge<N>): Edge<N> {
    Edge(e.dst, e.src)
  }

  ghost function FlipAll<N>(es: set<Edge<N>>): set<Edge<N>> {
    set e <- es :: Flip(e)
  }

  lemma FlipAllMembers<N(!new)>(es: set<Edge<N>>)
    ensures forall a: N, b: N :: Edge(a, b) in FlipAll(es) <==> Edge(b, a) in es
  {
    forall a: N, b: N | Edge(b, a) in es ensures Edge(a, b) in FlipAll(es) {
      assert Flip(Edge(b, a)) == Edge(a, b);
    }
  }
}
