/** Dominance by its path definition, and what it means to be the dominator tree. */
module Dominance {
  import opened Graphs
  import opened Paths

  /** `d` lies on every walk from `root` to `b`. */
  ghost predicate Dominates<N(!new)>(es: set<Edge<N>>, root: N, d: N, b: N) {
    forall p :: IsPath(es, root, b, p) ==> d in p
  }

  ghost predicate StrictlyDominates<N(!new)>(es: set<Edge<N>>, root: N, d: N, b: N) {
    d != b && Dominates(es, root, d, b)
  }

  /** `i` is the strict dominator of `b` that all other strict dominators dominate. */
  ghost predicate ImmediatelyDominates<N(!new)>(es: set<Edge<N>>, root: N, i: N, b: N) {
    && Reaches(es, root, b)
    && StrictlyDominates(es, root, i, b)
    && forall d :: StrictlyDominates(es, root, d, b) ==> Dominates(es, root, d, i)
  }

  /** The edges of `tree` lead from each immediate dominator to the node it dominates,
      and no reachable node but the root is left without one. */
  ghost predicate IsDominatorTree<N(!new)>(es: set<Edge<N>>, root: N, tree: set<Edge<N>>) {
    && (forall i, b :: Edge(i, b) in tree <==> ImmediatelyDominates(es, root, i, b))
    && (forall b :: Reaches(es, root, b) && b != root ==> exists i :: Edge(i, b) in tree)
  }

  ghost function Vertices<N(!new)>(es: set<Edge<N>>, root: N): set<N> {
    {root} + (set e | e in es :: e.dst)
  }

  /** All dominators of a reachable node. */
  ghost function DomSet<N(!new)>(es: set<Edge<N>>, root: N, b: N): set<N> {
    set d | d in Vertices(es, root) && Dominates(es, root, d, b)
  }

  lemma DomSetIsDominators<N(!new)>(es: set<Edge<N>>, root: N, b: N)
    requires Reaches(es, root, b)
    ensures forall d :: d in DomSet(es, root, b) <==> Dominates(es, root, d, b)
    ensures b in DomSet(es, root, b) && root in DomSet(es, root, b)
  {
    var p :| IsPath(es, root, b, p);
    forall d | d in p ensures d in Vertices(es, root) {
      var i :| 0 <= i < |p| && p[i] == d;
      if i > 0 {
        assert Linked(es, p, i - 1);
      }
    }
  }

  /** A strict dominator of a node dominates the node's predecessors. */
  lemma DominatesPred<N(!new)>(es: set<Edge<N>>, root: N, d: N, m: N, b: N)
    requires StrictlyDominates(es, root, d, b) && Edge(m, b) in es
    ensures Dominates(es, root, d, m)
  {
    forall p | IsPath(es, root, m, p) ensures d in p {
      PathSnoc(es, root, m, b, p);
    }
  }

  lemma DominatesTrans<N(!new)>(es: set<Edge<N>>, root: N, a: N, b: N, c: N)
    requires Dominates(es, root, a, b) && Dominates(es, root, b, c)
    ensures Dominates(es, root, a, c)
  {
    forall p | IsPath(es, root, c, p) ensures a in p {
      var i :| 0 <= i < |p| && p[i] == b;
      PathSplit(es, root, c, p, i);
      assert a in p[..i + 1];
    }
  }

  /** Dominators of a reachable node are reachable. */
  lemma DominatorReachable<N(!new)>(es: set<Edge<N>>, root: N, d: N, b: N)
    requires Reaches(es, root, b) && Dominates(es, root, d, b)
    ensures Reaches(es, root, d)
  {
    var p :| IsPath(es, root, b, p);
    var i :| 0 <= i < |p| && p[i] == d;
    PathSplit(es, root, b, p, i);
  }

  /** Two different nodes cannot dominate each other: each walk to one would hold a shorter one. */
  lemma {:induction false} DominatesAntisym<N(!new)>(es: set<Edge<N>>, root: N, a: N, b: N, p: seq<N>)
    requires Dominates(es, root, a, b) && Dominates(es, root, b, a) && IsPath(es, root, a, p)
    ensures a == b
    decreases |p|
  {
    if a != b {
      var i :| 0 <= i < |p| && p[i] == b;
      PathSplit(es, root, a, p, i);
      var q := p[..i + 1];
      assert a in q;
      var j :| 0 <= j < |q| && q[j] == a;
      PathSplit(es, root, b, q, j);
      DominatesAntisym(es, root, a, b, q[..j + 1]);
    }
  }

  /** The root has no dominator but itself. */
  lemma OnlyRootDominatesRoot<N(!new)>(es: set<Edge<N>>, root: N, d: N)
    requires Dominates(es, root, d, root)
    ensures d == root
  {
    PathRefl(es, root);
    assert d in [root];
  }

  // ---------- Consequences of having the dominator tree ----------

  lemma ParentDomSet<N(!new)>(es: set<Edge<N>>, root: N, i: N, b: N)
    requires ImmediatelyDominates(es, root, i, b)
    ensures Reaches(es, root, i) && b !in DomSet(es, root, i)
    ensures DomSet(es, root, b) == DomSet(es, root, i) + {b}
  {
    DominatorReachable(es, root, i, b);
    DomSetIsDominators(es, root, b);
    DomSetIsDominators(es, root, i);
    forall d | Dominates(es, root, d, i) ensures Dominates(es, root, d, b) {
      DominatesTrans(es, root, d, i, b);
    }
    if Dominates(es, root, b, i) {
      var p :| IsPath(es, root, b, p);
      DominatesAntisym(es, root, b, i, p);
    }
  }

  /** Depth in the dominator tree. */
  ghost function Rank<N(!new)>(es: set<Edge<N>>, root: N, b: N): nat {
    |DomSet(es, root, b)|
  }

  lemma RankGrows<N(!new)>(es: set<Edge<N>>, root: N, i: N, b: N)
    requires ImmediatelyDominates(es, root, i, b)
    ensures Rank(es, root, b) == Rank(es, root, i) + 1
  {
    ParentDomSet(es, root, i, b);
  }

  /** No node has two parents. */
  lemma ParentUnique<N(!new)>(es: set<Edge<N>>, root: N, i: N, j: N, b: N)
    requires ImmediatelyDominates(es, root, i, b) && ImmediatelyDominates(es, root, j, b)
    ensures i == j
  {
    DominatorReachable(es, root, i, b);
    var p :| IsPath(es, root, i, p);
    DominatesAntisym(es, root, i, j, p);
  }

  /** The dominators of a node form a chain. */
  lemma {:induction false} DominatorsChain<N(!new)>(es: set<Edge<N>>, root: N, tree: set<Edge<N>>, a: N, b: N, c: N)
    requires IsDominatorTree(es, root, tree) && Reaches(es, root, c)
    requires Dominates(es, root, a, c) && Dominates(es, root, b, c)
    ensures Dominates(es, root, a, b) || Dominates(es, root, b, a)
    decreases Rank(es, root, c)
  {
    if a != c && b != c {
      if c == root {
        OnlyRootDominatesRoot(es, root, a);
        assert false;
      }
      var i :| Edge(i, c) in tree;
      RankGrows(es, root, i, c);
      DominatorReachable(es, root, i, c);
      DominatorsChain(es, root, tree, a, b, i);
    }
  }

  lemma {:induction false} TreePathDominates<N(!new)>(
      es: set<Edge<N>>, root: N, tree: set<Edge<N>>, a: N, b: N, p: seq<N>)
    requires IsDominatorTree(es, root, tree) && IsPath(tree, a, b, p)
    ensures a == b || (Reaches(es, root, b) && Dominates(es, root, a, b))
    decreases |p|
  {
    if |p| > 1 {
      var m := PathUnsnoc(tree, a, b, p);
      TreePathDominates(es, root, tree, a, m, p[..|p| - 1]);
      if a != m {
        DominatesTrans(es, root, a, m, b);
      }
    }
  }

  lemma {:induction false} DominatorHasTreePath<N(!new)>(es: set<Edge<N>>, root: N, tree: set<Edge<N>>, a: N, b: N)
    requires IsDominatorTree(es, root, tree) && Reaches(es, root, b) && Dominates(es, root, a, b)
    ensures Reaches(tree, a, b)
    decreases Rank(es, root, b)
  {
    if a == b {
      PathRefl(tree, a);
    } else {
      if b == root {
        OnlyRootDominatesRoot(es, root, a);
        assert false;
      }
      var i :| Edge(i, b) in tree;
      RankGrows(es, root, i, b);
      DominatorReachable(es, root, i, b);
      DominatorHasTreePath(es, root, tree, a, i);
      ReachesStep(tree, a, i, b);
    }
  }

  /** A path in the dominator tree is dominance; nodes that cannot be reached are their own
      only ancestors. */
  lemma TreePathIsDominance<N(!new)>(es: set<Edge<N>>, root: N, tree: set<Edge<N>>, a: N, b: N)
    requires IsDominatorTree(es, root, tree)
    ensures Reaches(tree, a, b) <==> a == b || (Reaches(es, root, b) && Dominates(es, root, a, b))
  {
    if Reaches(tree, a, b) {
      var p :| IsPath(tree, a, b, p);
      TreePathDominates(es, root, tree, a, b, p);
    }
    if a == b {
      PathRefl(tree, a);
    } else if Reaches(es, root, b) && Dominates(es, root, a, b) {
      DominatorHasTreePath(es, root, tree, a, b);
    }
  }
}
