/** The queries of `DominatorTree` and `PostDominatorTree` (dominator_tree.rs) and what their
    answers say about the walks and the runs of a function. */
module DominatorQueries {
  import opened Wrappers
  import opened LlvmIr
  import opened Graphs
  import opened Paths
  import opened Traversal
  import opened Dominance
  import opened ControlFlowGraphs
  import opened DominatorTrees

  /** At most one parent is expected in a tree; `idom` and `ipostdom` panic on a second one. */
  function OnlyParent(graph: DiGraph<CFGNode>, node: CFGNode): Outcome<Option<CFGNode>> {
    var parents := graph.Predecessors(node);
    if parents == [] then Done(None)
    else if |parents| > 1 then Panic
    else Done(Some(parents[0]))
  }

  /** Both `idom` queries panic on the parent `Return` as well. */
  function OnlyParentBlock(graph: DiGraph<CFGNode>, node: CFGNode): Outcome<Option<Name>> {
    match OnlyParent(graph, node)
    case Panic => Panic
    case Done(None) => Done(None)
    case Done(Some(Block(b))) => Done(Some(b))
    case Done(Some(Return)) => Panic
  }

  datatype DominatorTree = DominatorTree(graph: DiGraph<CFGNode>, entryNode: CFGNode) {
    function Idom(block: Name): Outcome<Option<Name>> {
      OnlyParentBlock(graph, Block(block))
    }

    function IdomOfReturn(): Outcome<Option<Name>> {
      OnlyParentBlock(graph, Return)
    }

    /** Whichever of the two queries asks about `node`. */
    ghost function IdomOf(node: CFGNode): Outcome<Option<Name>> {
      match node
      case Block(block) => Idom(block)
      case Return => IdomOfReturn()
    }

    predicate Dominates(a: CFGNode, b: CFGNode) {
      HasPathConnecting(graph, a, b)
    }

    predicate StrictlyDominates(a: CFGNode, b: CFGNode) {
      a != b && Dominates(a, b)
    }
  }

  datatype PostDominatorTree = PostDominatorTree(graph: DiGraph<CFGNode>) {
    function IpostdomOfCfgnode(node: CFGNode): Outcome<Option<CFGNode>> {
      OnlyParent(graph, node)
    }

    function ChildrenOfCfgnode(node: CFGNode): seq<CFGNode> {
      graph.Successors(node)
    }

    predicate Postdominates(a: CFGNode, b: CFGNode) {
      HasPathConnecting(graph, a, b)
    }

    predicate StrictlyPostdominates(a: CFGNode, b: CFGNode) {
      a != b && Postdominates(a, b)
    }
  }

  // ---------- Construction ----------

  ghost predicate IsDomTreeOf(cfg: ControlFlowGraph, tree: DominatorTree) {
    && tree.graph.Valid()
    && tree.entryNode == cfg.entryNode
    && IsDominatorTree(cfg.Es(), cfg.entryNode, tree.graph.EdgeSet())
  }

  ghost predicate IsPostDomTreeOf(cfg: ControlFlowGraph, tree: PostDominatorTree) {
    && tree.graph.Valid()
    && IsDominatorTree(FlipAll(cfg.Es()), Return, tree.graph.EdgeSet())
  }

  method NewDominatorTree(cfg: ControlFlowGraph) returns (tree: DominatorTree)
    ensures IsDomTreeOf(cfg, tree)
  {
    var builder := new DomTreeBuilder(cfg);
    var graph, sweeps := builder.Build();
    tree := DominatorTree(graph, cfg.entryNode);
  }

  method NewPostDominatorTree(cfg: ControlFlowGraph) returns (tree: PostDominatorTree)
    ensures IsPostDomTreeOf(cfg, tree)
  {
    var builder := new DomTreeBuilder(cfg.Reversed());
    var graph, sweeps := builder.Build();
    tree := PostDominatorTree(graph);
  }

  // ---------- Dominance ----------

  /** `dominates` is dominance by the path definition, on reachable blocks; `strictly_dominates` is
      strict dominance there and false elsewhere. */
  lemma DominatesIsPathDominance(cfg: ControlFlowGraph, tree: DominatorTree, a: CFGNode, b: CFGNode)
    requires IsDomTreeOf(cfg, tree)
    ensures tree.Dominates(a, b) <==>
            a == b || (Reaches(cfg.Es(), cfg.entryNode, b) && Dominance.Dominates(cfg.Es(), cfg.entryNode, a, b))
    ensures tree.StrictlyDominates(a, b) <==>
            Reaches(cfg.Es(), cfg.entryNode, b) && Dominance.StrictlyDominates(cfg.Es(), cfg.entryNode, a, b)
  {
    HasPathConnectingIsReachability(tree.graph, a, b);
    TreePathIsDominance(cfg.Es(), cfg.entryNode, tree.graph.EdgeSet(), a, b);
  }

  /** Dominance is a partial order, and the dominators of any node form a chain. */
  lemma DominatesIsChainOrder(cfg: ControlFlowGraph, tree: DominatorTree, a: CFGNode, b: CFGNode, c: CFGNode)
    requires IsDomTreeOf(cfg, tree)
    ensures tree.Dominates(a, a)
    ensures tree.Dominates(a, b) && tree.Dominates(b, a) ==> a == b
    ensures tree.Dominates(a, b) && tree.Dominates(b, c) ==> tree.Dominates(a, c)
    ensures tree.Dominates(a, c) && tree.Dominates(b, c) ==> tree.Dominates(a, b) || tree.Dominates(b, a)
  {
    var es, r := cfg.Es(), cfg.entryNode;
    forall x, y ensures tree.Dominates(x, y) <==>
                        x == y || (Reaches(es, r, y) && Dominance.Dominates(es, r, x, y))
    {
      DominatesIsPathDominance(cfg, tree, x, y);
    }
    if tree.Dominates(a, b) && tree.Dominates(b, a) && a != b {
      var p :| IsPath(es, r, a, p);
      DominatesAntisym(es, r, a, b, p);
    }
    if tree.Dominates(a, b) && tree.Dominates(b, c) && a != b && b != c {
      DominatesTrans(es, r, a, b, c);
    }
    if tree.Dominates(a, c) && tree.Dominates(b, c) && a != c && b != c {
      DominatorReachable(es, r, a, c);
      DominatorReachable(es, r, b, c);
      DominatorsChain(es, r, tree.graph.EdgeSet(), a, b, c);
    }
  }

  /** No node of a dominator tree has two parents, so the second-parent panics never happen. */
  lemma OnlyParentIsImmediate(es: set<Edge<CFGNode>>, root: CFGNode, graph: DiGraph<CFGNode>, node: CFGNode)
    requires graph.Valid() && IsDominatorTree(es, root, graph.EdgeSet())
    ensures OnlyParent(graph, node).Done?
    ensures OnlyParent(graph, node).value.None? <==> node == root || !Reaches(es, root, node)
    ensures OnlyParent(graph, node).value.Some? ==>
              ImmediatelyDominates(es, root, OnlyParent(graph, node).value.value, node)
  {
    var parents := graph.Predecessors(node);
    if |parents| > 1 {
      PredecessorsDistinct(graph.edges, node);
      assert Differ(parents, 0, 1);
      assert parents[0] in parents && parents[1] in parents;
      ParentUnique(es, root, parents[0], parents[1], node);
      assert false;
    }
    if parents != [] {
      assert parents[0] in parents;
      assert Edge(parents[0], node) in graph.EdgeSet();
      if node == root {
        OnlyRootDominatesRoot(es, root, parents[0]);
      }
    }
    if Reaches(es, root, node) && node != root {
      var i :| Edge(i, node) in graph.EdgeSet();
      assert Edge(i, node).src in parents;
    }
  }

  /** `idom` and `idom_of_return` never panic; they answer with the immediate dominator, and with
      nothing exactly for the entry and for unreachable nodes. */
  lemma IdomIsImmediate(f: Function, cfg: ControlFlowGraph, tree: DominatorTree, node: CFGNode)
    requires IsCfgOf(f, cfg) && IsDomTreeOf(cfg, tree)
    ensures tree.IdomOf(node).Done?
    ensures tree.IdomOf(node).value.None? <==>
            node == cfg.entryNode || !Reaches(cfg.Es(), cfg.entryNode, node)
    ensures tree.IdomOf(node).value.Some? ==>
              ImmediatelyDominates(cfg.Es(), cfg.entryNode, Block(tree.IdomOf(node).value.value), node)
  {
    OnlyParentIsImmediate(cfg.Es(), cfg.entryNode, tree.graph, node);
    var parent := OnlyParent(tree.graph, node).value;
    if parent == Some(Return) {
      ReturnDominatesOnlyItself(f, cfg, node);
      assert false;
    }
  }

  /** Nothing follows `Return`, so it lies on no walk to another node, or on no walk's inside. */
  lemma ReturnDominatesOnlyItself(f: Function, cfg: ControlFlowGraph, node: CFGNode)
    requires IsCfgOf(f, cfg) && Reaches(cfg.Es(), cfg.entryNode, node)
    requires Dominance.Dominates(cfg.Es(), cfg.entryNode, Return, node)
    ensures node == Return
  {
    var p :| IsPath(cfg.Es(), cfg.entryNode, node, p);
    var i :| 0 <= i < |p| && p[i] == Return;
    if i + 1 < |p| {
      assert Linked(cfg.Es(), p, i);
      ReturnHasNoSuccessor(f, cfg, p[i + 1]);
    }
  }

  /** Every run from the entry that reaches a block has visited its `idom` before. */
  lemma RunVisitsIdom(f: Function, cfg: ControlFlowGraph, tree: DominatorTree, run: seq<CFGNode>, k: nat)
    requires IsCfgOf(f, cfg) && IsDomTreeOf(cfg, tree)
    requires IsRun(f.basicBlocks, run) && k < |run| && run[0] == cfg.entryNode
    requires run[k] != cfg.entryNode
    ensures exists i, idom :: 0 <= i < k && run[i] == Block(idom) && tree.IdomOf(run[k]) == Done(Some(idom))
  {
    RunIsPath(f, cfg, run);
    PathSplit(cfg.Es(), cfg.entryNode, run[|run| - 1], run, k);
    IdomIsImmediate(f, cfg, tree, run[k]);
    var idom := tree.IdomOf(run[k]).value.value;
    assert Block(idom) in run[..k + 1];
    var i :| 0 <= i < |run[..k + 1]| && run[..k + 1][i] == Block(idom);
    assert i < k && run[i] == Block(idom);
  }

  // ---------- Postdominance ----------

  /** `a` lies on every walk from `b` to `Return`. */
  ghost predicate PathPostdominates(cfg: ControlFlowGraph, a: CFGNode, b: CFGNode) {
    forall p :: IsPath(cfg.Es(), b, Return, p) ==> a in p
  }

  ghost predicate CanReturn(cfg: ControlFlowGraph, b: CFGNode) {
    Reaches(cfg.Es(), b, Return)
  }

  /** Postdominance is dominance on the reversed graph. */
  lemma ReversedDominance(cfg: ControlFlowGraph, a: CFGNode, b: CFGNode)
    ensures Dominance.Dominates(FlipAll(cfg.Es()), Return, a, b) <==> PathPostdominates(cfg, a, b)
    ensures Reaches(FlipAll(cfg.Es()), Return, b) <==> CanReturn(cfg, b)
  {
    var es, flipped := cfg.Es(), FlipAll(cfg.Es());
    FlipTwice(es);
    forall p | IsPath(es, b, Return, p) ensures IsPath(flipped, Return, b, Reverse(p)) {
      PathReverse(es, b, Return, p);
    }
    forall p | IsPath(flipped, Return, b, p) ensures IsPath(es, b, Return, Reverse(p)) {
      PathReverse(flipped, Return, b, p);
    }
    if PathPostdominates(cfg, a, b) {
      forall p | IsPath(flipped, Return, b, p) ensures a in p {
        assert a in Reverse(p);
      }
    }
    if Dominance.Dominates(flipped, Return, a, b) {
      forall p | IsPath(es, b, Return, p) ensures a in p {
        assert a in Reverse(p);
      }
    }
  }

  /** `postdominates(a, b)`: `a` lies on every walk from `b` to `Return`, if there is one;
      a node that cannot return is postdominated by itself alone. */
  lemma PostdominatesIsPathPostdominance(cfg: ControlFlowGraph, tree: PostDominatorTree, a: CFGNode, b: CFGNode)
    requires IsPostDomTreeOf(cfg, tree)
    ensures tree.Postdominates(a, b) <==> a == b || (CanReturn(cfg, b) && PathPostdominates(cfg, a, b))
    ensures tree.StrictlyPostdominates(a, b) <==> a != b && CanReturn(cfg, b) && PathPostdominates(cfg, a, b)
  {
    HasPathConnectingIsReachability(tree.graph, a, b);
    TreePathIsDominance(FlipAll(cfg.Es()), Return, tree.graph.EdgeSet(), a, b);
    ReversedDominance(cfg, a, b);
  }

  /** `ipostdom` never panics; it answers with nothing exactly for `Return` and for nodes that cannot
      return, and otherwise with the strict postdominator that all others postdominate. */
  lemma IpostdomIsNearest(cfg: ControlFlowGraph, tree: PostDominatorTree, node: CFGNode)
    requires IsPostDomTreeOf(cfg, tree)
    ensures tree.IpostdomOfCfgnode(node).Done?
    ensures tree.IpostdomOfCfgnode(node).value.None? <==> node == Return || !CanReturn(cfg, node)
    ensures tree.IpostdomOfCfgnode(node).value.Some? ==>
              var i := tree.IpostdomOfCfgnode(node).value.value;
              && i != node && PathPostdominates(cfg, i, node)
              && forall d :: d != node && PathPostdominates(cfg, d, node) ==> PathPostdominates(cfg, d, i)
  {
    OnlyParentIsImmediate(FlipAll(cfg.Es()), Return, tree.graph, node);
    ReversedDominance(cfg, node, node);
    var parent := tree.IpostdomOfCfgnode(node).value;
    if parent.Some? {
      ReversedDominance(cfg, parent.value, node);
      forall d | d != node && PathPostdominates(cfg, d, node) ensures PathPostdominates(cfg, d, parent.value) {
        ReversedDominance(cfg, d, node);
        ReversedDominance(cfg, d, parent.value);
      }
    }
  }

  /** Every run from a block that reaches `Return` visits the block's `ipostdom` after the block. */
  lemma RunVisitsIpostdom(f: Function, cfg: ControlFlowGraph, tree: PostDominatorTree, run: seq<CFGNode>, k: nat)
    requires IsCfgOf(f, cfg) && IsPostDomTreeOf(cfg, tree)
    requires IsRun(f.basicBlocks, run) && k < |run| && run[|run| - 1] == Return
    requires run[k] != Return
    ensures exists i :: k < i < |run| && tree.IpostdomOfCfgnode(run[k]) == Done(Some(run[i]))
  {
    RunIsPath(f, cfg, run);
    PathSplit(cfg.Es(), run[0], Return, run, k);
    IpostdomIsNearest(cfg, tree, run[k]);
    var ipostdom := tree.IpostdomOfCfgnode(run[k]).value.value;
    assert ipostdom in run[k..];
    var i :| 0 <= i < |run[k..]| && run[k..][i] == ipostdom;
    assert run[k + i] == ipostdom;
  }
}
