/** The control flow graph of a function (control_flow_graph.rs), and the runs it stands for. */
module ControlFlowGraphs {
  import opened LlvmIr
  import opened Graphs
  import opened Paths

  datatype CFGNode = Block(name: Name) | Return

  datatype ControlFlowGraph = ControlFlowGraph(graph: DiGraph<CFGNode>, entryNode: CFGNode) {
    ghost function Es(): set<Edge<CFGNode>> {
      graph.EdgeSet()
    }

    function PredsAsNodes(node: CFGNode): seq<CFGNode> {
      graph.Predecessors(node)
    }

    /** Every edge turned around, with `Return` as the entry. */
    function Reversed(): (r: ControlFlowGraph)
      ensures r.entryNode == Return
      ensures r.Es() == FlipAll(Es())
    {
      var edges := graph.edges;
      var flipped := DiGraph(seq(|edges|, i requires 0 <= i < |edges| => Flip(edges[i])));
      assert flipped.EdgeSet() == FlipAll(Es()) by {
        forall e | e in graph.edges ensures Flip(e) in flipped.edges {
          var i :| 0 <= i < |graph.edges| && graph.edges[i] == e;
          assert flipped.edges[i] == Flip(e);
        }
      }
      ControlFlowGraph(flipped, Return)
    }
  }

  // ---------- What a terminator allows ----------

  /** Where control may go from a block with this terminator; `Return` stands for leaving
      the function. */
  ghost predicate MayContinue(term: Terminator, next: CFGNode) {
    match term
    case Br(dest) => next == Block(dest)
    case CondBr(t, f) => next == Block(t) || next == Block(f)
    case IndirectBr(dests) => next.Block? && next.name in dests
    case Switch(default, dests) => next == Block(default) || (next.Block? && next.name in dests)
    case Ret => next == Return
    case Resume => next == Return
    case Invoke(_, normal, exception) => next == Block(normal) || next == Block(exception)
    case CleanupRet(unwind) => next == if unwind.Some? then Block(unwind.value) else Return
    case CatchRet(successor) => next == Block(successor)
    case CatchSwitch(handlers, unwind) =>
      || next == (if unwind.Some? then Block(unwind.value) else Return)
      || (next.Block? && next.name in handlers)
    case CallBr => false
    case Unreachable => false
  }

  /** Control may go from node `a` to node `b` in one step of the function. */
  ghost predicate MayStep(blocks: seq<BasicBlock>, a: CFGNode, b: CFGNode) {
    exists bb <- blocks :: a == Block(bb.name) && MayContinue(bb.term, b)
  }

  /** A run: each next node is allowed by the previous block's terminator. */
  ghost predicate IsRun(blocks: seq<BasicBlock>, run: seq<CFGNode>) {
    forall i :: 0 <= i < |run| - 1 ==> StepsAt(blocks, run, i)
  }

  ghost predicate StepsAt(blocks: seq<BasicBlock>, run: seq<CFGNode>, i: nat)
    requires i + 1 < |run|
  {
    MayStep(blocks, run[i], run[i + 1])
  }

  /** The functions the analyses accept: at least one block, and no `callbr`. */
  ghost predicate Supported(f: Function) {
    f.basicBlocks != [] && forall bb <- f.basicBlocks :: !bb.term.CallBr?
  }

  /** `es` is exactly what the blocks allow. */
  ghost predicate Allows(blocks: seq<BasicBlock>, es: set<Edge<CFGNode>>) {
    forall a, b :: Edge(a, b) in es <==> MayStep(blocks, a, b)
  }

  ghost predicate IsCfgOf(f: Function, cfg: ControlFlowGraph) {
    && f.basicBlocks != []
    && cfg.entryNode == Block(f.basicBlocks[0].name)
    && cfg.graph.Valid()
    && Allows(f.basicBlocks, cfg.Es())
  }

  // ---------- Construction ----------

  method AddDests(graph: DiGraph<CFGNode>, from: CFGNode, dests: seq<Name>) returns (g: DiGraph<CFGNode>)
    requires graph.Valid()
    ensures g.Valid()
    ensures forall e :: e in g.EdgeSet() <==>
              e in graph.EdgeSet() || (e.src == from && e.dst.Block? && e.dst.name in dests)
  {
    g := graph;
    for i := 0 to |dests|
      invariant g.Valid()
      invariant forall e :: e in g.EdgeSet() <==>
                  e in graph.EdgeSet() || (e.src == from && e.dst.Block? && e.dst.name in dests[..i])
    {
      g := g.AddEdge(from, Block(dests[i]));
      assert dests[..i + 1] == dests[..i] + [dests[i]];
    }
    assert dests[..|dests|] == dests;
  }

  /** The edges of one block. */
  method AddBlock(graph: DiGraph<CFGNode>, bb: BasicBlock) returns (g: DiGraph<CFGNode>)
    requires graph.Valid() && !bb.term.CallBr?
    ensures g.Valid()
    ensures forall e :: e in g.EdgeSet() <==>
              e in graph.EdgeSet() || (e.src == Block(bb.name) && MayContinue(bb.term, e.dst))
  {
    g := graph;
    var from := Block(bb.name);
    match bb.term {
      case Br(dest) =>
        g := g.AddEdge(from, Block(dest));
      case CondBr(trueDest, falseDest) =>
        g := g.AddEdge(from, Block(trueDest));
        g := g.AddEdge(from, Block(falseDest));
      case IndirectBr(dests) =>
        g := AddDests(g, from, dests);
      case Switch(default, dests) =>
        g := g.AddEdge(from, Block(default));
        g := AddDests(g, from, dests);
      case Ret =>
        g := g.AddEdge(from, Return);
      case Resume =>
        g := g.AddEdge(from, Return);
      case Invoke(_, normal, exception) =>
        g := g.AddEdge(from, Block(normal));
        g := g.AddEdge(from, Block(exception));
      case CleanupRet(unwind) =>
        if unwind.Some? {
          g := g.AddEdge(from, Block(unwind.value));
        } else {
          g := g.AddEdge(from, Return);
        }
      case CatchRet(successor) =>
        g := g.AddEdge(from, Block(successor));
      case CatchSwitch(handlers, unwind) =>
        if unwind.Some? {
          g := g.AddEdge(from, Block(unwind.value));
        } else {
          g := g.AddEdge(from, Return);
        }
        g := AddDests(g, from, handlers);
      case Unreachable =>
    }
  }

  /** `ControlFlowGraph::new`: the graph has an edge exactly where a terminator allows a step. */
  method New(f: Function) returns (cfg: ControlFlowGraph)
    requires Supported(f)
    ensures IsCfgOf(f, cfg)
  {
    var graph: DiGraph<CFGNode> := DiGraph([]);
    for i := 0 to |f.basicBlocks|
      invariant graph.Valid()
      invariant Allows(f.basicBlocks[..i], graph.EdgeSet())
    {
      var bb := f.basicBlocks[i];
      ghost var before := graph.EdgeSet();
      graph := AddBlock(graph, bb);
      assert f.basicBlocks[..i + 1] == f.basicBlocks[..i] + [bb];
      forall a, b ensures Edge(a, b) in graph.EdgeSet() <==> MayStep(f.basicBlocks[..i + 1], a, b) {
        assert Edge(a, b) in before <==> MayStep(f.basicBlocks[..i], a, b);
      }
    }
    assert f.basicBlocks[..|f.basicBlocks|] == f.basicBlocks;
    cfg := ControlFlowGraph(graph, Block(f.basicBlocks[0].name));
  }

  /** Runs are the walks over the graph. */
  lemma RunIsPath(f: Function, cfg: ControlFlowGraph, run: seq<CFGNode>)
    requires IsCfgOf(f, cfg) && run != []
    ensures IsRun(f.basicBlocks, run) <==> IsPath(cfg.Es(), run[0], run[|run| - 1], run)
  {
    forall i | 0 <= i < |run| - 1
      ensures StepsAt(f.basicBlocks, run, i) <==> Linked(cfg.Es(), run, i)
    {
    }
    if IsPath(cfg.Es(), run[0], run[|run| - 1], run) {
      forall i | 0 <= i < |run| - 1 ensures StepsAt(f.basicBlocks, run, i) {
        assert Linked(cfg.Es(), run, i);
      }
    }
    if IsRun(f.basicBlocks, run) {
      forall i | 0 <= i < |run| - 1 ensures Linked(cfg.Es(), run, i) {
        assert StepsAt(f.basicBlocks, run, i);
      }
    }
  }

  /** Nothing follows `Return`. */
  lemma ReturnHasNoSuccessor(f: Function, cfg: ControlFlowGraph, b: CFGNode)
    requires IsCfgOf(f, cfg)
    ensures Edge(Return, b) !in cfg.Es()
  {
    assert Edge(Return, b) in cfg.Es() <==> MayStep(f.basicBlocks, Return, b);
  }
}
