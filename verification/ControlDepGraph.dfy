/** The control dependence graph (control_dep_graph.rs): its construction, its transitive
    closures by worklist, and its path query. */
module ControlDepGraphs {
  import opened Wrappers
  import opened LlvmIr
  import opened Graphs
  import opened Paths
  import opened Traversal
  import opened Dominance
  import opened ControlFlowGraphs
  import opened DominatorQueries
  import opened Frontier

  /** By walks alone: `y` has a successor that can return and is postdominated by `x`,
      while `x` does not strictly postdominate `y` itself. */
  ghost predicate ControlDepends(cfg: ControlFlowGraph, x: CFGNode, y: CFGNode) {
    && !(x != y && PathPostdominates(cfg, x, y))
    && exists s :: DecidesVia(cfg, x, y, s)
  }

  ghost predicate DecidesVia(cfg: ControlFlowGraph, x: CFGNode, y: CFGNode, s: CFGNode) {
    Edge(y, s) in cfg.Es() && CanReturn(cfg, s) && PathPostdominates(cfg, x, s)
  }

  function BlockNames(nodes: seq<CFGNode>): (names: seq<Name>)
    requires forall n <- nodes :: n.Block?
    ensures forall n <- nodes :: n.name in names
    ensures forall n <- names :: Block(n) in nodes
  {
    if nodes == [] then [] else [nodes[0].name] + BlockNames(nodes[1..])
  }

  datatype ControlDependenceGraph = ControlDependenceGraph(graph: DiGraph<CFGNode>, entryNode: CFGNode) {
    ghost function Es(): set<Edge<CFGNode>> {
      graph.EdgeSet()
    }

    /** The names `node` depends on immediately; the original panics on `Return`. */
    function ImmControlDependencies(node: CFGNode): (names: seq<Name>)
      requires NoReturnTarget()
      ensures forall n <- names :: Edge(node, Block(n)) in Es()
      ensures forall e <- Es() :: e.src == node ==> e.dst.Block? && e.dst.name in names
    {
      BlockNames(graph.Successors(node))
    }

    function ImmControlDependents(node: CFGNode): seq<CFGNode> {
      graph.Predecessors(node)
    }

    ghost predicate NoReturnTarget() {
      forall e <- Es() :: e.dst.Block?
    }

    predicate IsControlDependent(a: Name, b: Name) {
      if a != b then
        HasPathConnecting(graph, Block(a), Block(b))
      else
        exists succ <- graph.Successors(Block(a)) :: HasPathConnecting(graph, succ, Block(a))
    }
  }

  /** The graph holds the immediate control dependences and nothing else. */
  ghost predicate IsCdgOf(cfg: ControlFlowGraph, cdg: ControlDependenceGraph) {
    && cdg.entryNode == cfg.entryNode
    && forall x, y :: Edge(x, y) in cdg.Es() <==> ControlDepends(cfg, x, y)
  }

  // ---------- Construction ----------

  lemma ControlDependsIsFrontier(cfg: ControlFlowGraph, x: CFGNode, y: CFGNode)
    ensures ControlDepends(cfg, x, y) <==> InFrontier(FlipAll(cfg.Es()), Return, x, y)
  {
    FlipAllMembers(cfg.Es());
    ReversedDominance(cfg, x, y);
    forall s ensures DecidesVia(cfg, x, y, s) <==> FrontierVia(FlipAll(cfg.Es()), Return, x, y, s) {
      ReversedDominance(cfg, x, s);
    }
    if InFrontier(FlipAll(cfg.Es()), Return, x, y) {
      var s :| FrontierVia(FlipAll(cfg.Es()), Return, x, y, s);
      assert DecidesVia(cfg, x, y, s);
    }
    if ControlDepends(cfg, x, y) {
      var s :| DecidesVia(cfg, x, y, s);
      assert FrontierVia(FlipAll(cfg.Es()), Return, x, y, s);
    }
  }

  lemma IpostdomIsTreeEdge(cfg: ControlFlowGraph, tree: PostDominatorTree, x: CFGNode, y: CFGNode)
    requires IsPostDomTreeOf(cfg, tree)
    ensures tree.IpostdomOfCfgnode(y) == Done(Some(x)) <==> Edge(x, y) in tree.graph.EdgeSet()
  {
    OnlyParentIsImmediate(FlipAll(cfg.Es()), Return, tree.graph, y);
    if Edge(x, y) in tree.graph.EdgeSet() {
      assert Edge(x, y).src in tree.graph.Predecessors(y);
      assert tree.IpostdomOfCfgnode(y).value.Some?;
      ParentUnique(FlipAll(cfg.Es()), Return, x, tree.IpostdomOfCfgnode(y).value.value, y);
    }
  }

  /** Of the nodes `ys`, those whose immediate postdominator is not `x`. */
  method Above(cfg: ControlFlowGraph, tree: PostDominatorTree, x: CFGNode, ys: seq<CFGNode>, before: seq<CFGNode>)
    returns (frontier: seq<CFGNode>)
    requires IsPostDomTreeOf(cfg, tree)
    ensures forall y :: y in frontier <==> y in before || (y in ys && Edge(x, y) !in tree.graph.EdgeSet())
  {
    frontier := before;
    for i := 0 to |ys|
      invariant forall y :: y in frontier <==> y in before || (y in ys[..i] && Edge(x, y) !in tree.graph.EdgeSet())
    {
      IpostdomIsTreeEdge(cfg, tree, x, ys[i]);
      if tree.IpostdomOfCfgnode(ys[i]) != Done(Some(x)) {
        frontier := frontier + [ys[i]];
      }
      assert ys[..i + 1] == ys[..i] + [ys[i]];
    }
    assert ys[..|ys|] == ys;
  }

  /** The frontier of `x` from its predecessors and what `graph` holds for its children. */
  method PostdominanceFrontier(cfg: ControlFlowGraph, tree: PostDominatorTree, graph: DiGraph<CFGNode>, x: CFGNode)
    returns (frontier: seq<CFGNode>)
    requires IsPostDomTreeOf(cfg, tree)
    ensures forall y :: y in frontier <==>
              && Edge(x, y) !in tree.graph.EdgeSet()
              && (|| Edge(y, x) in cfg.Es()
                  || exists z :: Edge(x, z) in tree.graph.EdgeSet() && Edge(z, y) in graph.EdgeSet())
  {
    var preds := cfg.PredsAsNodes(x);
    frontier := Above(cfg, tree, x, preds, []);
    ghost var local := frontier;
    forall y ensures y in preds <==> Edge(y, x) in cfg.Es() {
      assert Edge(y, x) in cfg.Es() ==> Edge(y, x).src in preds;
    }
    var children := tree.ChildrenOfCfgnode(x);
    for i := 0 to |children|
      invariant forall y :: y in frontier <==>
                  y in local || (Edge(x, y) !in tree.graph.EdgeSet() && FromChild(graph, children[..i], y))
    {
      var z := children[i];
      ghost var before := frontier;
      frontier := Above(cfg, tree, x, graph.Successors(z), frontier);
      forall y ensures y in graph.Successors(z) <==> Edge(z, y) in graph.EdgeSet() {
        assert Edge(z, y) in graph.EdgeSet() ==> Edge(z, y).dst in graph.Successors(z);
      }
      FromChildMore(graph, children, i);
    }
    assert children[..|children|] == children;
    forall y ensures FromChild(graph, children, y) <==>
                     exists z :: Edge(x, z) in tree.graph.EdgeSet() && Edge(z, y) in graph.EdgeSet()
    {
      if z :| Edge(x, z) in tree.graph.EdgeSet() && Edge(z, y) in graph.EdgeSet() {
        assert Edge(x, z).dst in children;
      }
    }
  }

  ghost predicate FromChild(graph: DiGraph<CFGNode>, zs: seq<CFGNode>, y: CFGNode) {
    exists z <- zs :: Edge(z, y) in graph.EdgeSet()
  }

  lemma FromChildMore(graph: DiGraph<CFGNode>, zs: seq<CFGNode>, i: nat)
    requires i < |zs|
    ensures forall y :: FromChild(graph, zs[..i + 1], y) <==>
              FromChild(graph, zs[..i], y) || Edge(zs[i], y) in graph.EdgeSet()
  {
    assert zs[..i + 1] == zs[..i] + [zs[i]];
  }

  method AddAll(graph: DiGraph<CFGNode>, x: CFGNode, ys: seq<CFGNode>) returns (g: DiGraph<CFGNode>)
    ensures forall e :: e in g.EdgeSet() <==> e in graph.EdgeSet() || (e.src == x && e.dst in ys)
  {
    g := graph;
    for i := 0 to |ys|
      invariant forall e :: e in g.EdgeSet() <==> e in graph.EdgeSet() || (e.src == x && e.dst in ys[..i])
    {
      g := g.AddEdge(x, ys[i]);
      assert ys[..i + 1] == ys[..i] + [ys[i]];
    }
    assert ys[..|ys|] == ys;
  }

  /** The edges collected so far: the frontiers of the nodes `done`. */
  ghost predicate Collected(cfg: ControlFlowGraph, es: set<Edge<CFGNode>>, done: seq<CFGNode>) {
    forall x, y :: Edge(x, y) in es <==> x in done && ControlDepends(cfg, x, y)
  }

  /** The walk of the tree visits the nodes that can return, children first. */
  lemma WalkOrder(cfg: ControlFlowGraph, tree: PostDominatorTree)
    requires IsPostDomTreeOf(cfg, tree)
    ensures IsPostorder(tree.graph, Return, DfsPostOrder(tree.graph, Return))
    ensures forall x :: x in DfsPostOrder(tree.graph, Return) <==> CanReturn(cfg, x)
  {
    var es := FlipAll(cfg.Es());
    var rank := (b: CFGNode) => Rank(es, Return, b);
    forall e | e in tree.graph.EdgeSet() ensures rank(e.src) < rank(e.dst) {
      assert Edge(e.src, e.dst) == e;
      RankGrows(es, Return, e.src, e.dst);
    }
    DfsPostOrderIsPostorder(tree.graph, rank, Return);
    forall x ensures Reaches(tree.graph.EdgeSet(), Return, x) <==> CanReturn(cfg, x) {
      TreePathIsDominance(es, Return, tree.graph.EdgeSet(), Return, x);
      ReversedDominance(cfg, Return, x);
      PathRefl(cfg.Es(), Return);
    }
  }

  /** One step of the walk: the computed frontier is the set of control dependences of `x`. */
  lemma FrontierIsControlDepends(cfg: ControlFlowGraph, tree: PostDominatorTree, es: set<Edge<CFGNode>>,
                                 done: seq<CFGNode>, x: CFGNode, y: CFGNode)
    requires IsPostDomTreeOf(cfg, tree) && Collected(cfg, es, done) && CanReturn(cfg, x)
    requires forall e <- tree.graph.EdgeSet() :: e.src == x ==> e.dst in done
    ensures ControlDepends(cfg, x, y) <==>
            && Edge(x, y) !in tree.graph.EdgeSet()
            && (Edge(y, x) in cfg.Es() || exists z :: Edge(x, z) in tree.graph.EdgeSet() && Edge(z, y) in es)
  {
    var t := tree.graph.EdgeSet();
    ControlDependsIsFrontier(cfg, x, y);
    ReversedDominance(cfg, x, x);
    FlipAllMembers(cfg.Es());
    FrontierRecurrence(FlipAll(cfg.Es()), Return, t, x, y);
    forall z | Edge(x, z) in t
      ensures Edge(z, y) in es <==> InFrontier(FlipAll(cfg.Es()), Return, z, y)
    {
      assert Edge(x, z).dst in done;
      ControlDependsIsFrontier(cfg, z, y);
    }
  }

  /** `ControlDependenceGraph::new`: an edge from `x` to `y` exactly when `x` is control dependent
      on `y` by the path definition. */
  method New(cfg: ControlFlowGraph, tree: PostDominatorTree) returns (cdg: ControlDependenceGraph)
    requires IsPostDomTreeOf(cfg, tree)
    ensures IsCdgOf(cfg, cdg)
  {
    var graph: DiGraph<CFGNode> := DiGraph([]);
    var order := DfsPostOrder(tree.graph, Return);
    WalkOrder(cfg, tree);
    for i := 0 to |order|
      invariant Collected(cfg, graph.EdgeSet(), order[..i])
    {
      var x := order[i];
      var frontier := PostdominanceFrontier(cfg, tree, graph, x);
      forall y ensures y in frontier <==> ControlDepends(cfg, x, y) {
        FrontierIsControlDepends(cfg, tree, graph.EdgeSet(), order[..i], x, y);
      }
      graph := AddAll(graph, x, frontier);
      assert order[..i + 1] == order[..i] + [x];
    }
    cdg := ControlDependenceGraph(graph, cfg.entryNode);
    assert order[..|order|] == order;
    forall x, y | ControlDepends(cfg, x, y) ensures x in order {
      ControlDependsIsFrontier(cfg, x, y);
      FrontierDown(FlipAll(cfg.Es()), Return, tree.graph.EdgeSet(), x, y);
      ReversedDominance(cfg, x, x);
    }
  }

  /** `Return` takes no part in control dependence, so the panic guarding that never happens. */
  lemma ReturnNotInvolved(f: Function, cfg: ControlFlowGraph, cdg: ControlDependenceGraph)
    requires IsCfgOf(f, cfg) && IsCdgOf(cfg, cdg)
    ensures cdg.NoReturnTarget()
    ensures forall e <- cdg.Es() :: e.src != Return && e.dst != Return
  {
    forall e | e in cdg.Es() ensures e.src != Return && e.dst != Return {
      assert e == Edge(e.src, e.dst);
      assert ControlDepends(cfg, e.src, e.dst);
      var s :| DecidesVia(cfg, e.src, e.dst, s);
      ReturnHasNoSuccessor(f, cfg, s);
      assert PathPostdominates(cfg, Return, e.dst);
    }
  }

  // ---------- Transitive dependence ----------

  lemma ByEdgeSnoc(es: set<Edge<CFGNode>>, a: CFGNode, b: CFGNode, c: CFGNode)
    requires Reaches(es, a, b) && Edge(b, c) in es
    ensures ReachesByEdge(es, a, c)
  {
    if a == b {
      PathRefl(es, c);
      assert EdgeThenReaches(es, a, c, c);
    } else {
      ReachesUncons(es, a, b);
      var s :| EdgeThenReaches(es, a, s, b);
      ReachesStep(es, s, b, c);
      assert EdgeThenReaches(es, a, s, c);
    }
  }

  lemma ByEdgeReaches(es: set<Edge<CFGNode>>, a: CFGNode, b: CFGNode)
    requires ReachesByEdge(es, a, b)
    ensures Reaches(es, a, b)
  {
    var s :| EdgeThenReaches(es, a, s, b);
    ReachesCons(es, a, s, b);
  }

  /** A set with all successors of `a` and of its own members has everything reached from `a`. */
  lemma ClosureComplete(es: set<Edge<CFGNode>>, a: CFGNode, closed: iset<CFGNode>, b: CFGNode)
    requires forall e <- es :: e.src == a || e.src in closed ==> e.dst in closed
    requires ReachesByEdge(es, a, b)
    ensures b in closed
  {
    var s :| EdgeThenReaches(es, a, s, b);
    assert Edge(a, s).dst in closed;
    ClosedReaches(es, closed, s, b);
  }

  /** The same walk seen from its other end. */
  lemma ByEdgeFlips(es: set<Edge<CFGNode>>, a: CFGNode, b: CFGNode)
    requires ReachesByEdge(es, a, b)
    ensures ReachesByEdge(FlipAll(es), b, a)
  {
    FlipAllMembers(es);
    var s :| EdgeThenReaches(es, a, s, b);
    var p :| IsPath(es, s, b, p);
    PathReverse(es, s, b, p);
    ByEdgeSnoc(FlipAll(es), b, s, a);
  }

  // Both worklists, as sets of nodes: what was found, and what is pending.

  /** In the middle of a worklist loop: only what `start` reaches over an edge, and the successors of
      `start` and of everything found are found or pending. */
  ghost predicate Collecting(es: set<Edge<CFGNode>>, start: CFGNode, found: set<CFGNode>, pending: set<CFGNode>) {
    && (forall n {:trigger ReachesByEdge(es, start, n)} :: n in pending || n in found ==> ReachesByEdge(es, start, n))
    && forall e <- es :: e.src == start || e.src in found ==> e.dst in found || e.dst in pending
  }

  /** The targets not found yet. */
  ghost function Unfound(es: set<Edge<CFGNode>>, found: set<CFGNode>): set<CFGNode> {
    set e | e in es && e.dst !in found :: e.dst
  }

  lemma CollectingStart(es: set<Edge<CFGNode>>, start: CFGNode, pending: set<CFGNode>)
    requires forall n :: n in pending <==> Edge(start, n) in es
    ensures Collecting(es, start, {}, pending)
  {
    PathRefl(es, start);
    forall n | n in pending ensures ReachesByEdge(es, start, n) {
      ByEdgeSnoc(es, start, start, n);
    }
    forall e | e in es && e.src == start ensures e.dst in pending {
      assert e == Edge(e.src, e.dst);
    }
  }

  /** Taking a node that was found before off the worklist. */
  lemma CollectingSkip(es: set<Edge<CFGNode>>, start: CFGNode, found: set<CFGNode>, pending: set<CFGNode>, b: CFGNode,
                       rest: set<CFGNode>)
    requires Collecting(es, start, found, pending) && b in found
    requires rest <= pending <= rest + {b}
    ensures Collecting(es, start, found, rest)
  {
  }

  /** Taking a new node off the worklist and putting its successors on it. */
  lemma CollectingVisit(es: set<Edge<CFGNode>>, start: CFGNode, found: set<CFGNode>, pending: set<CFGNode>,
                        b: CFGNode, rest: set<CFGNode>, more: set<CFGNode>)
    requires Collecting(es, start, found, pending) && b in pending
    requires rest <= pending <= rest + {b}
    requires forall n :: n in more <==> Edge(b, n) in es
    ensures Collecting(es, start, found + {b}, rest + more)
  {
    ByEdgeReaches(es, start, b);
    forall n | n in more ensures ReachesByEdge(es, start, n) {
      ByEdgeSnoc(es, start, b, n);
    }
    forall e | e in es && e.src == b ensures e.dst in more {
      assert e == Edge(e.src, e.dst);
    }
  }

  lemma UnfoundShrinks(es: set<Edge<CFGNode>>, start: CFGNode, found: set<CFGNode>, b: CFGNode)
    requires ReachesByEdge(es, start, b) && b !in found
    ensures Unfound(es, found + {b}) < Unfound(es, found)
  {
    LastEdge(es, start, b);
    assert b in Unfound(es, found);
  }

  /** What is reached over an edge is the target of an edge. */
  lemma LastEdge(es: set<Edge<CFGNode>>, a: CFGNode, b: CFGNode)
    requires ReachesByEdge(es, a, b)
    ensures exists e <- es :: e.dst == b
  {
    var s :| EdgeThenReaches(es, a, s, b);
    var p :| IsPath(es, s, b, p);
    if |p| > 1 {
      var m := PathUnsnoc(es, s, b, p);
      assert Edge(m, b).dst == b;
    } else {
      assert Edge(a, b).dst == b;
    }
  }

  lemma CollectingDone(es: set<Edge<CFGNode>>, start: CFGNode, found: set<CFGNode>, n: CFGNode)
    requires Collecting(es, start, found, {})
    ensures n in found <==> ReachesByEdge(es, start, n)
  {
    if ReachesByEdge(es, start, n) {
      ClosureComplete(es, start, (iset m | m in found), n);
    }
  }

  /** The names of a worklist as nodes. */
  ghost function BlockSet(names: seq<Name>): set<CFGNode> {
    set n | n in names :: Block(n)
  }

  lemma BlockSetPop(names: seq<Name>)
    requires names != []
    ensures Block(names[|names| - 1]) in BlockSet(names)
    ensures var rest := BlockSet(names[..|names| - 1]); rest <= BlockSet(names) <= rest + {Block(names[|names| - 1])}
  {
    assert names == names[..|names| - 1] + [names[|names| - 1]];
  }

  lemma BlockSetPush(names: seq<Name>, more: seq<Name>)
    ensures BlockSet(names + more) == BlockSet(names) + BlockSet(more)
  {
  }

  lemma ElemsPop<T>(s: seq<T>)
    requires s != []
    ensures s[|s| - 1] in Elems(s) && Elems(s[..|s| - 1]) <= Elems(s) <= Elems(s[..|s| - 1]) + {s[|s| - 1]}
  {
    assert s == s[..|s| - 1] + [s[|s| - 1]];
  }

  lemma ElemsPush<T>(s: seq<T>, more: seq<T>)
    ensures Elems(s + more) == Elems(s) + Elems(more)
  {
  }

  /** `get_control_dependencies`: everything the block depends on over one edge or more. */
  method ControlDependencies(cdg: ControlDependenceGraph, block: Name) returns (deps: set<Name>)
    requires cdg.NoReturnTarget()
    ensures forall n :: n in deps <==> ReachesByEdge(cdg.Es(), Block(block), Block(n))
  {
    var worklist := cdg.ImmControlDependencies(Block(block));
    deps := {};
    ghost var found: set<CFGNode> := {};  // `deps` as nodes
    ImmDependenciesAreEdges(cdg, Block(block));
    CollectingStart(cdg.Es(), Block(block), BlockSet(worklist));
    while worklist != []
      invariant Collecting(cdg.Es(), Block(block), found, BlockSet(worklist))
      invariant forall n :: n in deps <==> Block(n) in found
      decreases Unfound(cdg.Es(), found), |worklist|
    {
      var b := worklist[|worklist| - 1];
      ghost var pending := BlockSet(worklist);
      BlockSetPop(worklist);
      worklist := worklist[..|worklist| - 1];
      ghost var rest := BlockSet(worklist);
      if b !in deps {
        var more := cdg.ImmControlDependencies(Block(b));
        ImmDependenciesAreEdges(cdg, Block(b));
        CollectingVisit(cdg.Es(), Block(block), found, pending, Block(b), rest, BlockSet(more));
        UnfoundShrinks(cdg.Es(), Block(block), found, Block(b));
        deps := deps + {b};
        found := found + {Block(b)};
        BlockSetPush(worklist, more);
        worklist := worklist + more;
      } else {
        CollectingSkip(cdg.Es(), Block(block), found, pending, Block(b), rest);
      }
    }
    forall n ensures n in deps <==> ReachesByEdge(cdg.Es(), Block(block), Block(n)) {
      CollectingDone(cdg.Es(), Block(block), found, Block(n));
    }
  }

  lemma ImmDependenciesAreEdges(cdg: ControlDependenceGraph, node: CFGNode)
    requires cdg.NoReturnTarget()
    ensures forall n :: n in BlockSet(cdg.ImmControlDependencies(node)) <==> Edge(node, n) in cdg.Es()
  {
    forall n ensures n in BlockSet(cdg.ImmControlDependencies(node)) <==> Edge(node, n) in cdg.Es() {
      if Edge(node, n) in cdg.Es() {
        assert Edge(node, n).src == node && Edge(node, n).dst == n;
      }
    }
  }

  /** `get_control_dependents`: everything that depends on the block over one edge or more. */
  method ControlDependents(cdg: ControlDependenceGraph, block: Name) returns (deps: set<CFGNode>)
    ensures forall n :: n in deps <==> ReachesByEdge(cdg.Es(), n, Block(block))
  {
    ghost var es := FlipAll(cdg.Es());
    var worklist := cdg.ImmControlDependents(Block(block));
    deps := {};
    ImmDependentsAreEdges(cdg, Block(block));
    CollectingStart(es, Block(block), Elems(worklist));
    while worklist != []
      invariant Collecting(es, Block(block), deps, Elems(worklist))
      decreases Unfound(es, deps), |worklist|
    {
      var b := worklist[|worklist| - 1];
      ghost var pending := Elems(worklist);
      ElemsPop(worklist);
      worklist := worklist[..|worklist| - 1];
      ghost var rest := Elems(worklist);
      if b !in deps {
        var more := cdg.ImmControlDependents(b);
        ImmDependentsAreEdges(cdg, b);
        CollectingVisit(es, Block(block), deps, pending, b, rest, Elems(more));
        UnfoundShrinks(es, Block(block), deps, b);
        deps := deps + {b};
        ElemsPush(worklist, more);
        worklist := worklist + more;
      } else {
        CollectingSkip(es, Block(block), deps, pending, b, rest);
      }
    }
    forall n ensures n in deps <==> ReachesByEdge(cdg.Es(), n, Block(block)) {
      CollectingDone(es, Block(block), deps, n);
      ByEdgeFlipsBack(cdg.Es(), n, Block(block));
    }
  }

  lemma ImmDependentsAreEdges(cdg: ControlDependenceGraph, node: CFGNode)
    ensures forall n :: n in Elems(cdg.ImmControlDependents(node)) <==> Edge(node, n) in FlipAll(cdg.Es())
  {
    FlipAllMembers(cdg.Es());
    forall n ensures n in Elems(cdg.ImmControlDependents(node)) <==> Edge(n, node) in cdg.Es() {
      if Edge(n, node) in cdg.Es() {
        assert Edge(n, node).src == n && Edge(n, node).dst == node;
      }
    }
  }

  lemma ByEdgeFlipsBack(es: set<Edge<CFGNode>>, a: CFGNode, b: CFGNode)
    ensures ReachesByEdge(es, a, b) <==> ReachesByEdge(FlipAll(es), b, a)
  {
    FlipTwice(es);
    if ReachesByEdge(es, a, b) {
      ByEdgeFlips(es, a, b);
    }
    if ReachesByEdge(FlipAll(es), b, a) {
      ByEdgeFlips(FlipAll(es), b, a);
    }
  }

  /** `is_control_dependent` is the same relation as the two closures: a walk with an edge,
      also from a block to itself. */
  lemma IsControlDependentIsReachability(cdg: ControlDependenceGraph, a: Name, b: Name)
    ensures cdg.IsControlDependent(a, b) <==> ReachesByEdge(cdg.Es(), Block(a), Block(b))
  {
    var es := cdg.Es();
    forall x, y ensures HasPathConnecting(cdg.graph, x, y) <==> Reaches(es, x, y) {
      HasPathConnectingIsReachability(cdg.graph, x, y);
    }
    if a != b {
      if Reaches(es, Block(a), Block(b)) {
        ReachesUncons(es, Block(a), Block(b));
      }
      if ReachesByEdge(es, Block(a), Block(b)) {
        ByEdgeReaches(es, Block(a), Block(b));
      }
    } else {
      if s :| EdgeThenReaches(es, Block(a), s, Block(a)) {
        assert Edge(Block(a), s).dst in cdg.graph.Successors(Block(a));
      }
      if s :| s in cdg.graph.Successors(Block(a)) && HasPathConnecting(cdg.graph, s, Block(a)) {
        assert EdgeThenReaches(es, Block(a), s, Block(a));
      }
    }
  }
}
