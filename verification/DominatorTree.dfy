/** Dominator and postdominator trees (dominator_tree.rs): the builder with its table of
    estimates updated in place, and the queries on the finished trees. */
module DominatorTrees {
  import opened Wrappers
  import opened Graphs
  import opened Traversal
  import opened Dominance
  import opened EstimateTree
  import opened ControlFlowGraphs

  /** Pairs the nodes with 1, 2, 3, ... in their order. */
  function ZipFrom1(order: seq<CFGNode>): (num: map<CFGNode, nat>)
    ensures forall k :: k in num <==> k in order
    ensures Distinct(order) ==> forall i :: 0 <= i < |order| ==> num[order[i]] == i + 1
  {
    if order == [] then map[]
    else
      var last := order[|order| - 1];
      var init := order[..|order| - 1];
      assert Distinct(order) ==> Distinct(init) && last !in init by {
        if Distinct(order) {
          DistinctPrefix(order, |init|);
          if last in init {
            var i :| 0 <= i < |init| && init[i] == last;
            SamePosition(order, i, |init|);
          }
        }
      }
      ZipFrom1(init)[last := |order|]
  }

  class DomTreeBuilder {
    const cfg: ControlFlowGraph
    const rpoNumbers: map<CFGNode, nat>
    var idoms: map<CFGNode, Option<CFGNode>>

    constructor (cfg: ControlFlowGraph)
      ensures this.cfg == cfg && idoms == map[]
      ensures ValidNumbering(Nb())
    {
      this.cfg := cfg;
      this.rpoNumbers := ZipFrom1(Dfs(cfg.graph, cfg.entryNode));
      this.idoms := map[];
      DfsIsPreorder(cfg.graph, cfg.entryNode);
    }

    ghost function Nb(): Numbering<CFGNode> {
      Numbering(cfg.graph, cfg.entryNode, Dfs(cfg.graph, cfg.entryNode), rpoNumbers)
    }

    /** The two-finger walk: on every tree of estimates it ends, never steps above the entry,
        and finds the nearest common ancestor. */
    method CommonDominator(a: CFGNode, b: CFGNode) returns (r: CFGNode)
      requires ValidNumbering(Nb()) && IsTree(Nb(), idoms) && a in idoms && b in idoms
      ensures r in idoms && Anc(Nb(), idoms, r) == SharedAnc(Nb(), idoms, a, b)
    {
      ghost var nb := Nb();
      var nodeA, nodeB := a, b;
      ghost var common := SharedAnc(nb, idoms, a, b);
      while rpoNumbers[nodeA] != rpoNumbers[nodeB]
        invariant nodeA in idoms && nodeB in idoms
        invariant SharedAnc(nb, idoms, nodeA, nodeB) == common
        decreases rpoNumbers[nodeA] + rpoNumbers[nodeB]
      {
        if rpoNumbers[nodeA] < rpoNumbers[nodeB] {
          FingerStep(nb, idoms, nodeA, nodeB);
          nodeB := idoms[nodeB].value;  // not the entry, which has the smallest number
        } else {
          FingerStep(nb, idoms, nodeB, nodeA);
          nodeA := idoms[nodeA].value;
        }
      }
      NumbersDiffer(nb, nodeA, nodeB);
      r := nodeA;
    }

    /** The predecessors of `block` that already have an estimate. */
    function ReachablePreds(block: CFGNode): (ps: seq<CFGNode>)
      reads this
      ensures Elems(ps) == Nb().Preds(idoms, block)
    {
      var ps := Estimated(cfg.PredsAsNodes(block));
      assert forall p <- Nb().Preds(idoms, block) :: Edge(p, block).src in cfg.PredsAsNodes(block);
      ps
    }

    function Estimated(nodes: seq<CFGNode>): (r: seq<CFGNode>)
      reads this
      ensures forall n :: n in r <==> n in nodes && n in idoms
    {
      if nodes == [] then []
      else if nodes[0] in idoms then [nodes[0]] + Estimated(nodes[1..])
      else Estimated(nodes[1..])
    }

    /** `None` for the entry; for any other node the meet of its predecessors' estimates. */
    method ComputeIdom(block: CFGNode) returns (idom: Option<CFGNode>)
      requires ValidNumbering(Nb()) && IsTree(Nb(), idoms)
      requires block != cfg.entryNode ==> Nb().Preds(idoms, block) != {}
      ensures idom.None? <==> block == cfg.entryNode
      ensures idom.Some? ==> IsMeet(Nb(), idoms, Nb().Preds(idoms, block), idom.value)
    {
      if block == cfg.entryNode {
        return None;
      }
      var ps := ReachablePreds(block);
      if ps == [] {
        assert false;  // a reachable block has at least one reachable predecessor
      }
      ghost var nb := Nb();
      var r := ps[0];
      MeetOfOne(nb, idoms, r);
      assert Elems(ps[..1]) == {r};
      for i := 1 to |ps|
        invariant Elems(ps[..i]) <= idoms.Keys && IsMeet(nb, idoms, Elems(ps[..i]), r)
      {
        var r' := CommonDominator(r, ps[i]);
        MeetOfMore(nb, idoms, Elems(ps[..i]), r, ps[i], r');
        ElemsMore(ps, i);
        r := r';
      }
      assert ps[..|ps|] == ps;
      idom := Some(r);
    }

    /** First estimates: one pass in pre-order, each block from the predecessors done before. */
    method FirstEstimates()
      requires ValidNumbering(Nb()) && idoms == map[]
      modifies this
      ensures FirstPass(Nb(), idoms, |Nb().order|)
    {
      var order := Dfs(cfg.graph, cfg.entryNode);
      FirstPassRoot(Nb());
      for i := 0 to |order|
        invariant FirstPass(Nb(), idoms, i)
      {
        var block := order[i];
        NumberedAt(Nb(), i);
        if i > 0 {
          var p := EarlierPredNumbered(Nb(), block);
          assert p in Nb().Preds(idoms, block);
        }
        var idom := ComputeIdom(block);
        if idom.Some? {
          FirstPassStep(Nb(), idoms, i, block, idom.value);
        } else {
          assert idoms == map[];
        }
        idoms := idoms[block := idom];
      }
    }

    /** One sweep over the blocks in pre-order. Estimates only sink; a sweep that changes
        nothing has found the fixpoint. */
    method Sweep() returns (changed: bool)
      requires ValidNumbering(Nb()) && IsTree(Nb(), idoms) && IsSafe(Nb(), idoms)
      requires idoms.Keys == Nb().num.Keys && Bracketed(Nb(), idoms, |Nb().order|)
      modifies this
      ensures IsTree(Nb(), idoms) && IsSafe(Nb(), idoms)
      ensures idoms.Keys == Nb().num.Keys && Bracketed(Nb(), idoms, |Nb().order|)
      ensures old(IsTree(Nb(), idoms)) && old(idoms).Keys == idoms.Keys && Sunk(Nb(), old(idoms), idoms)
      ensures changed <==> idoms != old(idoms)
      ensures !changed ==> IsFixpoint(Nb(), idoms)
    {
      changed := false;
      ghost var start := idoms;
      var order := Dfs(cfg.graph, cfg.entryNode);
      SweepStart(Nb(), idoms);
      for i := 0 to |order|
        invariant MidSweep(Nb(), start, idoms, i) && IsSafe(Nb(), idoms)
        invariant Flagged(start, i, changed)
      {
        changed := SweepBlock(order[i], i, start, changed);
      }
      SweepSinks(Nb(), start, idoms, |order|);
      if !changed {
        SettledAll(Nb(), idoms);
      }
    }

    /** `changed` tells whether one of the first `i` blocks has a new estimate; if not,
        the estimates of all these blocks are settled. */
    ghost predicate Flagged(start: Estimates<CFGNode>, i: nat, changed: bool)
      requires IsTree(Nb(), idoms)
      reads this
    {
      if changed then
        exists k :: k in idoms && k in start && rpoNumbers[k] <= i && idoms[k] != start[k]
      else
        idoms == start && SettledUpTo(Nb(), idoms, i)
    }

    /** The body of the sweep's loop. */
    method SweepBlock(block: CFGNode, ghost i: nat, ghost start: Estimates<CFGNode>, before: bool)
      returns (changed: bool)
      requires ValidNumbering(Nb()) && MidSweep(Nb(), start, idoms, i) && IsSafe(Nb(), idoms)
      requires i < |Nb().order| && block == Nb().order[i]
      requires Flagged(start, i, before)
      modifies this
      ensures MidSweep(Nb(), start, idoms, i + 1) && IsSafe(Nb(), idoms)
      ensures Flagged(start, i + 1, changed)
    {
      changed := before;
      NumberedAt(Nb(), i);
      if block != cfg.entryNode {
        var p := EarlierPredNumbered(Nb(), block);
        assert p in Nb().Preds(idoms, block);
      }
      var idom := ComputeIdom(block);
      var prevIdom := idoms[block];
      if block == cfg.entryNode {
        SweepStepRoot(Nb(), start, idoms);
      } else {
        SweepStep(Nb(), start, idoms, i, block, idom.value);
        UpdateKeepsSafe(Nb(), idoms, block, idom.value);
      }
      if idom != prevIdom {
        idoms := idoms[block := idom];
        changed := true;
        assert idoms[block] != start[block];
      } else {
        assert idoms == idoms[block := idom];
        if !changed {
          SettledMore(Nb(), idoms, i, block);
        }
      }
    }

    /** `build`: sweep until nothing changes, then turn the estimates into a graph. Its edges are
        exactly the immediate dominators; with `n` reachable nodes at most
        (n-1)(n-2)/2 + 1 sweeps are made. */
    method Build() returns (tree: DiGraph<CFGNode>, ghost sweeps: nat)
      requires ValidNumbering(Nb()) && idoms == map[]
      modifies this
      ensures tree.Valid() && IsDominatorTree(cfg.Es(), cfg.entryNode, tree.EdgeSet())
      ensures var n := |Nb().order|; 2 * (sweeps - 1) <= (n - 1) * (n - 2)
    {
      FirstEstimates();
      ghost var nb := Nb();
      ghost var n := |nb.order|;
      FirstPassDone(nb, idoms);
      ParentSumBounds(nb, idoms, n);
      ghost var budget := n * (n - 1);
      sweeps := 0;
      var changed := true;
      while changed
        invariant IsTree(nb, idoms) && IsSafe(nb, idoms)
        invariant idoms.Keys == nb.num.Keys && Bracketed(nb, idoms, n)
        invariant !changed ==> IsFixpoint(nb, idoms)
        invariant n - 1 <= ParentSum(nb, idoms, n)
        invariant 2 * (ParentSum(nb, idoms, n) + sweeps - if changed then 0 else 1) <= budget
        decreases ParentSum(nb, idoms, n), changed
      {
        ghost var start := idoms;
        changed := Sweep();
        sweeps := sweeps + 1;
        SweepAccount(nb, start, idoms);
      }
      SweepBound(n, ParentSum(nb, idoms, n), sweeps);
      FixpointIsDominatorTree(nb, idoms);
      tree := FromEstimates();
    }

    /** `DiGraphMap::from_edges` over the table, whose entries come in no particular order. */
    method FromEstimates() returns (tree: DiGraph<CFGNode>)
      ensures tree.Valid() && tree.EdgeSet() == EstimateEdges(idoms)
    {
      tree := DiGraph([]);
      var rest := idoms.Keys;
      while rest != {}
        invariant rest <= idoms.Keys && tree.Valid()
        invariant tree.EdgeSet() == EstimateEdges(map k | k in idoms && k !in rest :: idoms[k])
      {
        var block :| block in rest;
        ghost var done := map k | k in idoms && k !in rest :: idoms[k];
        rest := rest - {block};
        if idoms[block].Some? {
          tree := tree.AddEdge(idoms[block].value, block);
        }
        EstimateEdgesMore(done, block, idoms[block]);
        assert done[block := idoms[block]] == map k | k in idoms && k !in rest :: idoms[k];
      }
      assert idoms == map k | k in idoms && k !in rest :: idoms[k];
    }
  }
}
