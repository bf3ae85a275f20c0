/** petgraph's depth-first walkers `Dfs` and `DfsPostOrder` and its `has_path_connecting`,
    as the functions of their explicit stacks that they are. */
module Traversal {
  import opened Graphs
  import opened Paths

  /** The nodes a walk over `g` with this stack can still discover. */
  ghost function Ahead<N>(g: DiGraph<N>, stack: seq<N>, seen: seq<N>): set<N> {
    (set n | n in stack) + (set e | e in g.edges :: e.dst) - (set n | n in seen)
  }

  function Unseen<N(==)>(ns: seq<N>, seen: seq<N>): (r: seq<N>)
    ensures forall n <- ns :: n !in seen ==> n in r
    ensures forall n <- r :: n in ns && n !in seen
  {
    if ns == [] then []
    else if ns[0] in seen then Unseen(ns[1..], seen)
    else [ns[0]] + Unseen(ns[1..], seen)
  }

  // ---------- Pre-order ----------

  /** The order in which petgraph's `Dfs` yields nodes: pop a node, and unless it was seen
      before, yield it and push its unseen successors. */
  function DfsFrom<N(==)>(g: DiGraph<N>, stack: seq<N>, seen: seq<N>): (order: seq<N>)
    decreases Ahead(g, stack, seen), |stack|
  {
    if stack == [] then seen
    else
      var n := stack[|stack| - 1];
      var rest := stack[..|stack| - 1];
      if n in seen then
        assert Ahead(g, rest, seen) == Ahead(g, stack, seen);
        DfsFrom(g, rest, seen)
      else
        var seen' := seen + [n];
        var stack' := rest + Unseen(g.Successors(n), seen');
        assert Ahead(g, stack', seen') < Ahead(g, stack, seen) by { AheadShrinks(g, stack, seen); }
        DfsFrom(g, stack', seen')
  }

  lemma AheadShrinks<N>(g: DiGraph<N>, stack: seq<N>, seen: seq<N>)
    requires stack != [] && stack[|stack| - 1] !in seen
    ensures var n := stack[|stack| - 1];
            var seen' := seen + [n];
            Ahead(g, stack[..|stack| - 1] + Unseen(g.Successors(n), seen'), seen') < Ahead(g, stack, seen)
  {
    var n := stack[|stack| - 1];
    var seen' := seen + [n];
    var stack' := stack[..|stack| - 1] + Unseen(g.Successors(n), seen');
    forall m | m in Ahead(g, stack', seen') ensures m in Ahead(g, stack, seen) {
      if m in Unseen(g.Successors(n), seen') {
        assert Edge(n, m) in g.edges;
      }
    }
    assert n in Ahead(g, stack, seen) && n !in Ahead(g, stack', seen');
  }

  function Dfs<N(==)>(g: DiGraph<N>, start: N): (order: seq<N>) {
    DfsFrom(g, [start], [])
  }

  /** Some node of `order[..i]` has an edge to `n`. */
  ghost predicate HasEarlierPred<N>(g: DiGraph<N>, order: seq<N>, i: nat, n: N)
    requires i <= |order|
  {
    exists j :: 0 <= j < i && Edge(order[j], n) in g.EdgeSet()
  }

  /** What a pre-order numbering offers: exactly the reachable nodes, each once, the start
      first, and every other node after one of its predecessors. */
  ghost predicate IsPreorder<N(!new)>(g: DiGraph<N>, start: N, order: seq<N>) {
    && Distinct(order)
    && (forall n :: n in order <==> Reaches(g.EdgeSet(), start, n))
    && order != [] && order[0] == start
    && forall i {:trigger HasEarlierPred(g, order, i, order[i])} :: 0 < i < |order| ==>
         HasEarlierPred(g, order, i, order[i])
  }

  ghost predicate DfsInvariant<N(!new)>(g: DiGraph<N>, start: N, stack: seq<N>, seen: seq<N>) {
    && Distinct(seen)
    && (forall n :: n in seen || n in stack ==> Reaches(g.EdgeSet(), start, n))
    && (forall e <- g.EdgeSet() :: e.src in seen ==> e.dst in seen || e.dst in stack)
    && (if seen == [] then stack == [start] else seen[0] == start)
    && (forall i :: 0 < i < |seen| ==> HasEarlierPred(g, seen, i, seen[i]))
    && (seen != [] ==> forall n <- stack :: n in seen || HasEarlierPred(g, seen, |seen|, n))
  }

  /** One more node at the end keeps every earlier predecessor. */
  lemma EarlierPredExtends<N>(g: DiGraph<N>, order: seq<N>, more: seq<N>, i: nat, k: nat, n: N)
    requires order <= more && i <= |order| && i <= k <= |more| && HasEarlierPred(g, order, i, n)
    ensures HasEarlierPred(g, more, k, n)
  {
    var j :| 0 <= j < i && Edge(order[j], n) in g.EdgeSet();
    assert Edge(more[j], n) in g.EdgeSet();
  }

  lemma DfsVisitKeepsOrder<N(!new)>(g: DiGraph<N>, start: N, stack: seq<N>, seen: seq<N>)
    requires DfsInvariant(g, start, stack, seen) && stack != [] && stack[|stack| - 1] !in seen
    ensures var n := stack[|stack| - 1];
            var seen' := seen + [n];
            && (forall i :: 0 < i < |seen'| ==> HasEarlierPred(g, seen', i, seen'[i]))
            && (forall m <- stack[..|stack| - 1] :: m in seen' || HasEarlierPred(g, seen', |seen'|, m))
            && (forall m <- g.Successors(n) :: HasEarlierPred(g, seen', |seen'|, m))
  {
    var n := stack[|stack| - 1];
    var seen' := seen + [n];
    forall i | 0 < i < |seen'| ensures HasEarlierPred(g, seen', i, seen'[i]) {
      EarlierPredExtends(g, seen, seen', i, i, seen'[i]);
    }
    forall m | m in stack[..|stack| - 1] ensures m in seen' || HasEarlierPred(g, seen', |seen'|, m) {
      if m !in seen && seen != [] {
        EarlierPredExtends(g, seen, seen', |seen|, |seen'|, m);
      }
    }
    forall m | m in g.Successors(n) ensures HasEarlierPred(g, seen', |seen'|, m) {
      assert Edge(seen'[|seen|], m) in g.EdgeSet();
    }
  }

  lemma DfsVisits<N(!new)>(g: DiGraph<N>, start: N, stack: seq<N>, seen: seq<N>)
    requires DfsInvariant(g, start, stack, seen) && stack != [] && stack[|stack| - 1] !in seen
    ensures var n := stack[|stack| - 1];
            var seen' := seen + [n];
            DfsInvariant(g, start, stack[..|stack| - 1] + Unseen(g.Successors(n), seen'), seen')
  {
    var n := stack[|stack| - 1];
    var seen' := seen + [n];
    var pushed := Unseen(g.Successors(n), seen');
    var stack' := stack[..|stack| - 1] + pushed;
    DfsVisitKeepsOrder(g, start, stack, seen);
    DistinctSnoc(seen, n);
    forall m | m in seen' || m in stack' ensures Reaches(g.EdgeSet(), start, m) {
      if m in pushed {
        ReachesStep(g.EdgeSet(), start, n, m);
      }
    }
    forall e | e in g.EdgeSet() && e.src in seen' ensures e.dst in seen' || e.dst in stack' {
      if e.src == n {
        assert e.dst in g.Successors(n);
      } else if e.dst !in seen' {
        assert e.dst in stack;
      }
    }
  }

  lemma {:induction false} DfsFromIsPreorder<N(!new)>(g: DiGraph<N>, start: N, stack: seq<N>, seen: seq<N>)
    requires DfsInvariant(g, start, stack, seen)
    ensures IsPreorder(g, start, DfsFrom(g, stack, seen))
    decreases Ahead(g, stack, seen), |stack|
  {
    if stack == [] {
      forall n | Reaches(g.EdgeSet(), start, n) ensures n in seen {
        ClosedReaches(g.EdgeSet(), (iset m | m in seen), start, n);
      }
    } else {
      var n := stack[|stack| - 1];
      var rest := stack[..|stack| - 1];
      if n in seen {
        assert Ahead(g, rest, seen) == Ahead(g, stack, seen);
        DfsFromIsPreorder(g, start, rest, seen);
      } else {
        var seen' := seen + [n];
        AheadShrinks(g, stack, seen);
        DfsVisits(g, start, stack, seen);
        DfsFromIsPreorder(g, start, rest + Unseen(g.Successors(n), seen'), seen');
      }
    }
  }

  /** The fact the dominator builder rests on: `Dfs` yields a pre-order. */
  lemma DfsIsPreorder<N(!new)>(g: DiGraph<N>, start: N)
    ensures IsPreorder(g, start, Dfs(g, start))
  {
    PathRefl(g.EdgeSet(), start);
    DfsFromIsPreorder(g, start, [start], []);
  }

  /** `has_path_connecting`: does a depth-first walk from `a` yield `b`? */
  predicate HasPathConnecting<N(==)>(g: DiGraph<N>, a: N, b: N) {
    b in Dfs(g, a)
  }

  lemma HasPathConnectingIsReachability<N(!new)>(g: DiGraph<N>, a: N, b: N)
    ensures HasPathConnecting(g, a, b) <==> Reaches(g.EdgeSet(), a, b)
  {
    DfsIsPreorder(g, a);
  }

  // ---------- Post-order ----------

  /** The order in which petgraph's `DfsPostOrder` yields nodes: a node stays on the stack while
      its undiscovered successors are pushed, and is yielded when it is next on top. */
  function PostFrom<N(==)>(g: DiGraph<N>, stack: seq<N>, seen: seq<N>, finished: seq<N>): (order: seq<N>)
    decreases Ahead(g, stack, seen), |stack|
  {
    if stack == [] then finished
    else
      var n := stack[|stack| - 1];
      if n !in seen then
        var seen' := seen + [n];
        var stack' := stack + Unseen(g.Successors(n), seen');
        assert Ahead(g, stack', seen') < Ahead(g, stack, seen) by { AheadShrinksOnPush(g, stack, seen); }
        PostFrom(g, stack', seen', finished)
      else
        var rest := stack[..|stack| - 1];
        assert Ahead(g, rest, seen) == Ahead(g, stack, seen);
        PostFrom(g, rest, seen, if n in finished then finished else finished + [n])
  }

  lemma AheadShrinksOnPush<N>(g: DiGraph<N>, stack: seq<N>, seen: seq<N>)
    requires stack != [] && stack[|stack| - 1] !in seen
    ensures var n := stack[|stack| - 1];
            var seen' := seen + [n];
            Ahead(g, stack + Unseen(g.Successors(n), seen'), seen') < Ahead(g, stack, seen)
  {
    var n := stack[|stack| - 1];
    var seen' := seen + [n];
    var stack' := stack + Unseen(g.Successors(n), seen');
    forall m | m in Ahead(g, stack', seen') ensures m in Ahead(g, stack, seen) {
      if m in Unseen(g.Successors(n), seen') {
        assert Edge(n, m) in g.edges;
      }
    }
    assert n in Ahead(g, stack, seen) && n !in Ahead(g, stack', seen');
  }

  function DfsPostOrder<N(==)>(g: DiGraph<N>, start: N): (order: seq<N>) {
    PostFrom(g, [start], [], [])
  }

  /** Exactly the reachable nodes, each once, and every node after all of its successors. */
  ghost predicate IsPostorder<N(!new)>(g: DiGraph<N>, start: N, order: seq<N>) {
    && Distinct(order)
    && (forall n :: n in order <==> Reaches(g.EdgeSet(), start, n))
    && forall i :: 0 <= i < |order| ==> forall e <- g.EdgeSet() :: e.src == order[i] ==> e.dst in order[..i]
  }

  /** `rank` grows along every edge, so the graph has no cycle. */
  ghost predicate Ranked<N(!new)>(g: DiGraph<N>, rank: N -> nat) {
    forall e <- g.EdgeSet() :: rank(e.src) < rank(e.dst)
  }

  /** Position `i` holds a discovered node that is not finished: everything above it ranks higher,
      and what is above it includes every successor not finished yet. */
  ghost predicate OpenAt<N(!new)>(g: DiGraph<N>, rank: N -> nat, stack: seq<N>, finished: seq<N>, n: N, i: nat) {
    && i < |stack| && stack[i] == n
    && (forall j :: i < j < |stack| ==> rank(n) < rank(stack[j]))
    && (forall e <- g.EdgeSet() :: e.src == n ==> e.dst in finished || e.dst in stack[i + 1..])
  }

  ghost predicate PostInvariant<N(!new)>(
      g: DiGraph<N>, rank: N -> nat, start: N, stack: seq<N>, seen: seq<N>, finished: seq<N>)
  {
    && Distinct(finished)
    && (forall n <- finished :: n in seen)
    && (forall n :: n in seen || n in stack ==> Reaches(g.EdgeSet(), start, n))
    && (start in stack || start in finished)
    && (forall i :: 0 <= i < |finished| ==>
          forall e <- g.EdgeSet() :: e.src == finished[i] ==> e.dst in finished[..i])
    && (forall n <- seen :: n in finished || exists i: nat :: OpenAt(g, rank, stack, finished, n, i))
  }

  lemma PostPush<N(!new)>(g: DiGraph<N>, rank: N -> nat, start: N, stack: seq<N>, seen: seq<N>, finished: seq<N>)
    requires Ranked(g, rank) && PostInvariant(g, rank, start, stack, seen, finished)
    requires stack != [] && stack[|stack| - 1] !in seen
    ensures var n := stack[|stack| - 1];
            var seen' := seen + [n];
            PostInvariant(g, rank, start, stack + Unseen(g.Successors(n), seen'), seen', finished)
  {
    var n := stack[|stack| - 1];
    var seen' := seen + [n];
    var pushed := Unseen(g.Successors(n), seen');
    var stack' := stack + pushed;
    forall m | m in seen' || m in stack' ensures Reaches(g.EdgeSet(), start, m) {
      if m in pushed {
        ReachesStep(g.EdgeSet(), start, n, m);
      }
    }
    forall m | m in seen' && m !in finished
      ensures exists i: nat :: OpenAt(g, rank, stack', finished, m, i)
    {
      if m == n {
        forall e | e in g.EdgeSet() && e.src == n ensures e.dst in finished || e.dst in pushed {
          if e.dst in seen && e.dst !in finished {
            assert false;  // an open node ranks below the top
          }
        }
        assert stack'[|stack|..] == pushed;
        forall j | |stack| - 1 < j < |stack'| ensures rank(n) < rank(stack'[j]) {
          assert stack'[j] in pushed;
          assert Edge(n, stack'[j]) in g.EdgeSet();
        }
        assert OpenAt(g, rank, stack', finished, n, |stack| - 1);
      } else {
        var i: nat :| OpenAt(g, rank, stack, finished, m, i);
        assert i < |stack| - 1;
        forall j | i < j < |stack'| ensures rank(m) < rank(stack'[j]) {
          if j >= |stack| {
            assert stack'[j] in pushed;
            assert Edge(n, stack'[j]) in g.EdgeSet();
            assert rank(m) < rank(stack[|stack| - 1]);
          }
        }
        assert stack'[i + 1..] == stack[i + 1..] + pushed;
        assert OpenAt(g, rank, stack', finished, m, i);
      }
    }
  }

  lemma PostPop<N(!new)>(g: DiGraph<N>, rank: N -> nat, start: N, stack: seq<N>, seen: seq<N>, finished: seq<N>)
    requires Ranked(g, rank) && PostInvariant(g, rank, start, stack, seen, finished)
    requires stack != [] && stack[|stack| - 1] in seen
    ensures var n := stack[|stack| - 1];
            PostInvariant(g, rank, start, stack[..|stack| - 1], seen,
                          if n in finished then finished else finished + [n])
  {
    var n := stack[|stack| - 1];
    var rest := stack[..|stack| - 1];
    var finished' := if n in finished then finished else finished + [n];
    if n !in finished {
      var i: nat :| OpenAt(g, rank, stack, finished, n, i);
      assert i == |stack| - 1;
      assert stack[i + 1..] == [];
      DistinctSnoc(finished, n);
      forall i | 0 <= i < |finished'|
        ensures forall e <- g.EdgeSet() :: e.src == finished'[i] ==> e.dst in finished'[..i]
      {
        if i < |finished| {
          assert finished'[..i] == finished[..i];
        } else {
          assert finished'[..i] == finished;
        }
      }
    }
    forall m | m in seen && m !in finished' ensures exists i: nat :: OpenAt(g, rank, rest, finished', m, i) {
      var i: nat :| OpenAt(g, rank, stack, finished, m, i);
      assert i < |rest|;
      assert stack[i + 1..] == rest[i + 1..] + [n];
      assert OpenAt(g, rank, rest, finished', m, i);
    }
  }

  lemma {:induction false} PostFromIsPostorder<N(!new)>(
      g: DiGraph<N>, rank: N -> nat, start: N, stack: seq<N>, seen: seq<N>, finished: seq<N>)
    requires Ranked(g, rank) && PostInvariant(g, rank, start, stack, seen, finished)
    ensures IsPostorder(g, start, PostFrom(g, stack, seen, finished))
    decreases Ahead(g, stack, seen), |stack|
  {
    if stack == [] {
      forall e | e in g.EdgeSet() && e.src in finished ensures e.dst in finished {
        var i :| 0 <= i < |finished| && finished[i] == e.src;
        assert e.dst in finished[..i];
      }
      forall n | Reaches(g.EdgeSet(), start, n) ensures n in finished {
        ClosedReaches(g.EdgeSet(), (iset m | m in finished), start, n);
      }
    } else {
      var n := stack[|stack| - 1];
      if n !in seen {
        var seen' := seen + [n];
        AheadShrinksOnPush(g, stack, seen);
        PostPush(g, rank, start, stack, seen, finished);
        PostFromIsPostorder(g, rank, start, stack + Unseen(g.Successors(n), seen'), seen', finished);
      } else {
        var rest := stack[..|stack| - 1];
        assert Ahead(g, rest, seen) == Ahead(g, stack, seen);
        PostPop(g, rank, start, stack, seen, finished);
        PostFromIsPostorder(g, rank, start, rest, seen, if n in finished then finished else finished + [n]);
      }
    }
  }

  /** On a graph without cycles `DfsPostOrder` yields a post-order. */
  lemma DfsPostOrderIsPostorder<N(!new)>(g: DiGraph<N>, rank: N -> nat, start: N)
    requires Ranked(g, rank)
    ensures IsPostorder(g, start, DfsPostOrder(g, start))
  {
    PathRefl(g.EdgeSet(), start);
    PostFromIsPostorder(g, rank, start, [start], [], []);
  }
}
