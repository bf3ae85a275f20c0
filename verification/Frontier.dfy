/** Dominance frontiers by their path definition, and the recurrence over the dominator tree
    that computes them (Cytron, Ferrante, Rosen et al., Figure 10). */
module Frontier {
  import opened Graphs
  import opened Paths
  import opened Dominance

  /** `x` dominates a predecessor of `y`, but does not strictly dominate `y`. */
  ghost predicate InFrontier<N(!new)>(es: set<Edge<N>>, root: N, x: N, y: N) {
    && !StrictlyDominates(es, root, x, y)
    && exists s :: FrontierVia(es, root, x, y, s)
  }

  ghost predicate FrontierVia<N(!new)>(es: set<Edge<N>>, root: N, x: N, y: N, s: N) {
    Edge(s, y) in es && Reaches(es, root, s) && Dominates(es, root, x, s)
  }

  /** If `x` strictly dominates `y` without being its parent in the tree, the parent is strictly
      between them, and dominates every reachable predecessor of `y`. */
  lemma ParentBetween<N(!new)>(es: set<Edge<N>>, root: N, tree: set<Edge<N>>, x: N, y: N, s: N) returns (q: N)
    requires IsDominatorTree(es, root, tree) && Reaches(es, root, s) && Edge(s, y) in es
    requires StrictlyDominates(es, root, x, y) && Edge(x, y) !in tree
    ensures Edge(q, y) in tree && q != x && Dominates(es, root, x, q)
    ensures Dominates(es, root, q, s) && Dominates(es, root, q, y) && Reaches(es, root, q)
  {
    ReachesStep(es, root, s, y);
    if y == root {
      OnlyRootDominatesRoot(es, root, x);
      assert false;
    }
    q :| Edge(q, y) in tree;
    DominatesPred(es, root, q, s, y);
    DominatorReachable(es, root, q, y);
  }

  lemma Antisym<N(!new)>(es: set<Edge<N>>, root: N, a: N, b: N)
    requires Dominates(es, root, a, b) && Dominates(es, root, b, a) && Reaches(es, root, a)
    ensures a == b
  {
    var p :| IsPath(es, root, a, p);
    DominatesAntisym(es, root, a, b, p);
  }

  /** A successor of `x` that `x` is not the parent of is in the frontier of `x`. */
  lemma FrontierLocal<N(!new)>(es: set<Edge<N>>, root: N, tree: set<Edge<N>>, x: N, y: N)
    requires IsDominatorTree(es, root, tree) && Reaches(es, root, x)
    requires Edge(x, y) in es && Edge(x, y) !in tree
    ensures InFrontier(es, root, x, y)
  {
    assert FrontierVia(es, root, x, y, x);
    if StrictlyDominates(es, root, x, y) {
      var q := ParentBetween(es, root, tree, x, y, x);
      Antisym(es, root, q, x);
      assert false;
    }
  }

  /** What is in the frontier of a child is in the parent's, unless the parent is its parent too. */
  lemma FrontierUp<N(!new)>(es: set<Edge<N>>, root: N, tree: set<Edge<N>>, x: N, z: N, y: N)
    requires IsDominatorTree(es, root, tree)
    requires Edge(x, z) in tree && InFrontier(es, root, z, y) && Edge(x, y) !in tree
    ensures InFrontier(es, root, x, y)
  {
    var s :| FrontierVia(es, root, z, y, s);
    DominatesTrans(es, root, x, z, s);
    assert FrontierVia(es, root, x, y, s);
    if StrictlyDominates(es, root, x, y) {
      var q := ParentBetween(es, root, tree, x, y, s);
      DominatorsChain(es, root, tree, z, q, s);
      if Dominates(es, root, z, q) {
        DominatesTrans(es, root, z, q, y);  // so z is y, whose parent is not x
      } else {
        assert Dominates(es, root, q, x);
        Antisym(es, root, q, x);
      }
      assert false;
    }
  }

  /** The child of `x` on the way down the tree to `s`. */
  lemma {:induction false} ChildToward<N(!new)>(es: set<Edge<N>>, root: N, tree: set<Edge<N>>, x: N, s: N)
    returns (z: N)
    requires IsDominatorTree(es, root, tree) && Reaches(es, root, s) && StrictlyDominates(es, root, x, s)
    ensures Edge(x, z) in tree && Dominates(es, root, z, s)
    decreases Rank(es, root, s)
  {
    if s == root {
      OnlyRootDominatesRoot(es, root, x);
      assert false;
    }
    var i :| Edge(i, s) in tree;
    if i == x {
      z := s;
      assert Dominates(es, root, s, s) by {
        DomSetIsDominators(es, root, s);
      }
    } else {
      RankGrows(es, root, i, s);
      DominatorReachable(es, root, i, s);
      z := ChildToward(es, root, tree, x, i);
      DominatesTrans(es, root, z, i, s);
    }
  }

  /** Everything in the frontier of `x` is a successor of `x` or in the frontier of a child. */
  lemma FrontierDown<N(!new)>(es: set<Edge<N>>, root: N, tree: set<Edge<N>>, x: N, y: N)
    requires IsDominatorTree(es, root, tree) && InFrontier(es, root, x, y)
    ensures Reaches(es, root, x) && Edge(x, y) !in tree
    ensures Edge(x, y) in es || exists z :: Edge(x, z) in tree && InFrontier(es, root, z, y)
  {
    var s :| FrontierVia(es, root, x, y, s);
    DominatorReachable(es, root, x, s);
    if x != s {
      var z := ChildToward(es, root, tree, x, s);
      assert FrontierVia(es, root, z, y, s);
      if StrictlyDominates(es, root, z, y) {
        DominatesTrans(es, root, x, z, y);
        Antisym(es, root, x, z);
        assert false;
      }
    }
  }

  /** The frontier recurrence, in both directions. */
  lemma FrontierRecurrence<N(!new)>(es: set<Edge<N>>, root: N, tree: set<Edge<N>>, x: N, y: N)
    requires IsDominatorTree(es, root, tree) && Reaches(es, root, x)
    ensures InFrontier(es, root, x, y) <==>
            && Edge(x, y) !in tree
            && (Edge(x, y) in es || exists z :: Edge(x, z) in tree && InFrontier(es, root, z, y))
  {
    if InFrontier(es, root, x, y) {
      FrontierDown(es, root, tree, x, y);
    } else if Edge(x, y) !in tree {
      if Edge(x, y) in es {
        FrontierLocal(es, root, tree, x, y);
      }
      if z :| Edge(x, z) in tree && InFrontier(es, root, z, y) {
        FrontierUp(es, root, tree, x, z, y);
      }
    }
  }
}
