/** All analyses of one function together (lib.rs), and control dependence in terms of the
    function's runs. */
module FunctionAnalyses {
  import opened LlvmIr
  import opened Graphs
  import opened Paths
  import opened ControlFlowGraphs
  import opened DominatorQueries
  import CDG = ControlDepGraphs

  /** The analyses of a function, each built from the ones before; none of their constructors
      or queries meets a case it panics on. */
  method Analyze(f: Function)
    returns (cfg: ControlFlowGraph, domtree: DominatorTree,
             postdomtree: PostDominatorTree, cdg: CDG.ControlDependenceGraph)
    requires Supported(f)
    ensures IsCfgOf(f, cfg) && IsDomTreeOf(cfg, domtree) && IsPostDomTreeOf(cfg, postdomtree)
    ensures CDG.IsCdgOf(cfg, cdg) && cdg.NoReturnTarget()
  {
    cfg := ControlFlowGraphs.New(f);
    domtree := NewDominatorTree(cfg);
    postdomtree := NewPostDominatorTree(cfg);
    cdg := CDG.New(cfg, postdomtree);
    CDG.ReturnNotInvolved(f, cfg, cdg);
  }

  ghost predicate IsReturningRun(f: Function, run: seq<CFGNode>, from: CFGNode) {
    run != [] && run[0] == from && run[|run| - 1] == Return && IsRun(f.basicBlocks, run)
  }

  ghost predicate MayAvoid(f: Function, from: CFGNode, x: CFGNode) {
    exists run :: IsReturningRun(f, run, from) && x !in run
  }

  /** From `s` the function may return, and only by way of `x`. */
  ghost predicate CommitsTo(f: Function, s: CFGNode, x: CFGNode) {
    && (exists run :: IsReturningRun(f, run, s))
    && (forall run :: IsReturningRun(f, run, s) ==> x in run)
  }

  lemma ReturningRunIsPath(f: Function, cfg: ControlFlowGraph, run: seq<CFGNode>, from: CFGNode)
    requires IsCfgOf(f, cfg)
    ensures IsReturningRun(f, run, from) <==> IsPath(cfg.Es(), from, Return, run)
  {
    if run != [] {
      RunIsPath(f, cfg, run);
    }
  }

  /** A node `x` is immediately control dependent on `y` exactly when `y` decides about it: one of the
      steps from `y` commits every returning run to `x`, and, unless `x` is `y` itself, some run
      from `y` returns without it. */
  lemma ControlDependenceIsDecision(
      f: Function, cfg: ControlFlowGraph, cdg: CDG.ControlDependenceGraph, x: CFGNode, y: CFGNode)
    requires IsCfgOf(f, cfg) && CDG.IsCdgOf(cfg, cdg)
    ensures Edge(x, y) in cdg.Es() <==>
            && (x == y || MayAvoid(f, y, x))
            && exists s :: MayStep(f.basicBlocks, y, s) && CommitsTo(f, s, x)
  {
    forall run, from ensures IsReturningRun(f, run, from) <==> IsPath(cfg.Es(), from, Return, run) {
      ReturningRunIsPath(f, cfg, run, from);
    }
    assert PathPostdominates(cfg, x, y) <==> !MayAvoid(f, y, x);
    forall s ensures CDG.DecidesVia(cfg, x, y, s) <==> MayStep(f.basicBlocks, y, s) && CommitsTo(f, s, x) {
      assert Edge(y, s) in cfg.Es() <==> MayStep(f.basicBlocks, y, s);
      assert PathPostdominates(cfg, x, s) <==> forall run :: IsReturningRun(f, run, s) ==> x in run;
    }
    if s :| CDG.DecidesVia(cfg, x, y, s) {
      assert MayStep(f.basicBlocks, y, s) && CommitsTo(f, s, x);
    }
    if s :| MayStep(f.basicBlocks, y, s) && CommitsTo(f, s, x) {
      assert CDG.DecidesVia(cfg, x, y, s);
    }
  }
}
