/** The estimates of immediate dominators seen as a tree, and why sweeping them in pre-order
    ends in the dominator tree: what one update keeps, what a whole sweep keeps, how far the
    estimates sink, and what the fixpoint is. */
module EstimateTree {
  import opened Wrappers
  import opened Graphs
  import opened Paths
  import opened Traversal
  import opened Dominance

  type Estimates<N> = map<N, Option<N>>

  /** A graph with its root and the pre-order numbers, from 1, of the nodes its root reaches. */
  datatype Numbering<N(==)> = Numbering(g: DiGraph<N>, root: N, order: seq<N>, num: map<N, nat>) {
    ghost function Es(): set<Edge<N>> {
      g.EdgeSet()
    }

    /** The predecessors that have an estimate. */
    ghost function Preds(idoms: Estimates<N>, k: N): set<N> {
      set p | p in idoms && Edge(p, k) in Es()
    }
  }

  ghost predicate ValidNumbering<N(!new)>(nb: Numbering<N>) {
    && IsPreorder(nb.g, nb.root, nb.order)
    && (forall k :: k in nb.num <==> k in nb.order)
    && (forall i :: 0 <= i < |nb.order| ==> nb.num[nb.order[i]] == i + 1)
  }

  lemma NumberedNodes<N(!new)>(nb: Numbering<N>)
    requires ValidNumbering(nb)
    ensures nb.root in nb.num && nb.num[nb.root] == 1
    ensures forall k :: k in nb.num <==> Reaches(nb.Es(), nb.root, k)
    ensures forall k <- nb.num :: 1 <= nb.num[k] <= |nb.order| && nb.order[nb.num[k] - 1] == k
    ensures forall k <- nb.num :: k != nb.root ==> nb.num[k] > 1
  {
    forall k | k in nb.num ensures 1 <= nb.num[k] <= |nb.order| && nb.order[nb.num[k] - 1] == k {
      var i :| 0 <= i < |nb.order| && nb.order[i] == k;
    }
  }

  lemma NumberedAt<N(!new)>(nb: Numbering<N>, i: nat)
    requires ValidNumbering(nb) && i < |nb.order|
    ensures nb.order[i] in nb.num && nb.num[nb.order[i]] == i + 1
    ensures nb.order[i] == nb.root <==> i == 0
  {
  }

  lemma NumberedBetween<N(!new)>(nb: Numbering<N>, k: N)
    requires ValidNumbering(nb) && k in nb.num
    ensures 1 <= nb.num[k] <= |nb.order| && nb.order[nb.num[k] - 1] == k
  {
    NumberedNodes(nb);
  }

  lemma NumbersDiffer<N(!new)>(nb: Numbering<N>, u: N, v: N)
    requires ValidNumbering(nb) && u in nb.num && v in nb.num && nb.num[u] == nb.num[v]
    ensures u == v
  {
    NumberedNodes(nb);
  }

  lemma EarlierPredNumbered<N(!new)>(nb: Numbering<N>, k: N) returns (p: N)
    requires ValidNumbering(nb) && k in nb.num && k != nb.root
    ensures p in nb.num && nb.num[p] < nb.num[k] && Edge(p, k) in nb.Es()
  {
    NumberedNodes(nb);
    var i := nb.num[k] - 1;
    assert HasEarlierPred(nb.g, nb.order, i, nb.order[i]);
    var j :| 0 <= j < i && Edge(nb.order[j], nb.order[i]) in nb.Es();
    p := nb.order[j];
  }

  // ---------- Trees of estimates and their ancestors ----------

  ghost function Parent<N>(idoms: Estimates<N>, k: N): N
    requires k in idoms && idoms[k].Some?
  {
    idoms[k].value
  }

  /** Only the root has no parent, and every parent has an estimate and a smaller number. */
  ghost predicate IsTree<N(!new)>(nb: Numbering<N>, idoms: Estimates<N>) {
    && idoms.Keys <= nb.num.Keys
    && (forall k {:trigger idoms[k]} | k in idoms :: idoms[k].None? <==> k == nb.root)
    && (forall k {:trigger Parent(idoms, k)} | k in idoms && idoms[k].Some? ::
          Parent(idoms, k) in idoms && nb.num[Parent(idoms, k)] < nb.num[k])
  }

  /** `k` and everything above it. */
  ghost function Anc<N(!new)>(nb: Numbering<N>, idoms: Estimates<N>, k: N): set<N>
    requires IsTree(nb, idoms) && k in idoms
    decreases nb.num[k]
  {
    {k} + if idoms[k].None? then {} else Anc(nb, idoms, Parent(idoms, k))
  }

  lemma {:induction false} AncSmaller<N(!new)>(nb: Numbering<N>, idoms: Estimates<N>, k: N)
    requires IsTree(nb, idoms) && k in idoms
    ensures forall x <- Anc(nb, idoms, k) :: x in idoms && (x == k || nb.num[x] < nb.num[k])
    decreases nb.num[k]
  {
    if idoms[k].Some? {
      AncSmaller(nb, idoms, Parent(idoms, k));
    }
  }

  lemma {:induction false} AncTrans<N(!new)>(nb: Numbering<N>, idoms: Estimates<N>, x: N, k: N)
    requires IsTree(nb, idoms) && k in idoms && x in Anc(nb, idoms, k)
    ensures x in idoms && Anc(nb, idoms, x) <= Anc(nb, idoms, k)
    decreases nb.num[k]
  {
    if x != k {
      AncTrans(nb, idoms, x, Parent(idoms, k));
    }
  }

  lemma {:induction false} AncChain<N(!new)>(nb: Numbering<N>, idoms: Estimates<N>, x: N, y: N, k: N)
    requires IsTree(nb, idoms) && k in idoms && x in Anc(nb, idoms, k) && y in Anc(nb, idoms, k)
    ensures x in idoms && y in idoms && (x in Anc(nb, idoms, y) || y in Anc(nb, idoms, x))
    decreases nb.num[k]
  {
    AncSmaller(nb, idoms, k);
    if x != k && y != k {
      AncChain(nb, idoms, x, y, Parent(idoms, k));
    }
  }

  /** Ancestors depend only on the estimates of nodes with smaller or equal number. */
  lemma {:induction false} AncAgree<N(!new)>(nb: Numbering<N>, idoms: Estimates<N>, other: Estimates<N>, k: N)
    requires IsTree(nb, idoms) && IsTree(nb, other) && k in idoms
    requires forall v <- idoms :: nb.num[v] <= nb.num[k] ==> v in other && other[v] == idoms[v]
    ensures Anc(nb, other, k) == Anc(nb, idoms, k)
    decreases nb.num[k]
  {
    if idoms[k].Some? {
      AncAgree(nb, idoms, other, Parent(idoms, k));
    }
  }

  lemma MoveIsTree<N(!new)>(nb: Numbering<N>, idoms: Estimates<N>, k: N, r: N)
    requires IsTree(nb, idoms) && k in nb.num && k != nb.root
    requires r in idoms && nb.num[r] < nb.num[k]
    ensures IsTree(nb, idoms[k := Some(r)])
  {
    var idoms' := idoms[k := Some(r)];
    forall v | v in idoms' && idoms'[v].Some?
      ensures Parent(idoms', v) in idoms' && nb.num[Parent(idoms', v)] < nb.num[v]
    {
      if v != k {
        assert Parent(idoms', v) == Parent(idoms, v);
      }
    }
  }

  /** Moving one parent to one of its own ancestors only takes ancestors away. */
  lemma {:induction false} AncShrinks<N(!new)>(nb: Numbering<N>, idoms: Estimates<N>, k: N, r: N, v: N)
    requires IsTree(nb, idoms) && k in idoms && idoms[k].Some? && v in idoms
    requires r in Anc(nb, idoms, Parent(idoms, k))
    ensures IsTree(nb, idoms[k := Some(r)])
    ensures Anc(nb, idoms[k := Some(r)], v) <= Anc(nb, idoms, v)
    decreases nb.num[v]
  {
    AncSmaller(nb, idoms, Parent(idoms, k));
    var idoms' := idoms[k := Some(r)];
    assert Parent(idoms, k) in idoms;
    MoveIsTree(nb, idoms, k, r);
    if v == k {
      AncTrans(nb, idoms, r, Parent(idoms, k));
      AncShrinks(nb, idoms, k, r, r);
    } else if idoms[v].Some? {
      AncShrinks(nb, idoms, k, r, Parent(idoms, v));
    }
  }

  /** `r` is the nearest common ancestor of the nodes `ps`. */
  ghost predicate IsMeet<N(!new)>(nb: Numbering<N>, idoms: Estimates<N>, ps: set<N>, r: N)
    requires IsTree(nb, idoms) && ps <= idoms.Keys
  {
    && r in idoms
    && forall x :: x in Anc(nb, idoms, r) <==> forall p <- ps :: x in Anc(nb, idoms, p)
  }

  ghost function SharedAnc<N(!new)>(nb: Numbering<N>, idoms: Estimates<N>, a: N, b: N): set<N>
    requires IsTree(nb, idoms) && a in idoms && b in idoms
  {
    Anc(nb, idoms, a) * Anc(nb, idoms, b)
  }

  lemma ElemsMore<N>(ps: seq<N>, i: nat)
    requires i < |ps|
    ensures Elems(ps[..i + 1]) == Elems(ps[..i]) + {ps[i]}
  {
    assert ps[..i + 1] == ps[..i] + [ps[i]];
  }

  /** Of two nodes the one with the larger number is no ancestor of the other, so stepping
      from it to its parent keeps the common ancestors. */
  lemma FingerStep<N(!new)>(nb: Numbering<N>, idoms: Estimates<N>, a: N, b: N)
    requires ValidNumbering(nb) && IsTree(nb, idoms) && a in idoms && b in idoms
    requires nb.num[a] < nb.num[b]
    ensures idoms[b].Some? && idoms[b].value in idoms && nb.num[idoms[b].value] < nb.num[b]
    ensures SharedAnc(nb, idoms, a, idoms[b].value) == SharedAnc(nb, idoms, a, b)
    ensures SharedAnc(nb, idoms, idoms[b].value, a) == SharedAnc(nb, idoms, b, a)
  {
    assert b != nb.root by { NumberedNodes(nb); }
    assert Parent(idoms, b) in idoms;
    AncSmaller(nb, idoms, a);
  }

  lemma MeetOfOne<N(!new)>(nb: Numbering<N>, idoms: Estimates<N>, p: N)
    requires IsTree(nb, idoms) && p in idoms
    ensures IsMeet(nb, idoms, {p}, p)
  {
  }

  lemma MeetOfMore<N(!new)>(nb: Numbering<N>, idoms: Estimates<N>, ps: set<N>, r: N, p: N, r': N)
    requires IsTree(nb, idoms) && ps <= idoms.Keys && p in idoms && IsMeet(nb, idoms, ps, r)
    requires r' in idoms && Anc(nb, idoms, r') == SharedAnc(nb, idoms, r, p)
    ensures IsMeet(nb, idoms, ps + {p}, r')
  {
  }

  // ---------- No dominator is ever lost ----------

  /** Every strict dominator of a node dominates the node's estimate. */
  ghost predicate IsSafe<N(!new)>(nb: Numbering<N>, idoms: Estimates<N>) {
    forall k {:trigger Parent(idoms, k)} | k in idoms && idoms[k].Some? ::
      forall d :: StrictlyDominates(nb.Es(), nb.root, d, k) ==> Dominates(nb.Es(), nb.root, d, Parent(idoms, k))
  }

  lemma {:induction false} SafeDominatorIsAncestor<N(!new)>(nb: Numbering<N>, idoms: Estimates<N>, d: N, k: N)
    requires IsTree(nb, idoms) && IsSafe(nb, idoms) && k in idoms
    requires Dominates(nb.Es(), nb.root, d, k)
    ensures d in Anc(nb, idoms, k)
    decreases nb.num[k]
  {
    if d != k {
      if k == nb.root {
        OnlyRootDominatesRoot(nb.Es(), nb.root, d);
        assert false;
      }
      SafeDominatorIsAncestor(nb, idoms, d, Parent(idoms, k));
    }
  }

  /** A dominator of `k` dominates every ancestor of `k` that is not above it. */
  lemma {:induction false} SafeDominatorAlong<N(!new)>(nb: Numbering<N>, idoms: Estimates<N>, d: N, r: N, k: N)
    requires IsTree(nb, idoms) && IsSafe(nb, idoms) && k in idoms
    requires r in Anc(nb, idoms, k) && r in idoms && d in Anc(nb, idoms, r)
    requires Dominates(nb.Es(), nb.root, d, k)
    ensures Dominates(nb.Es(), nb.root, d, r)
    decreases nb.num[k]
  {
    AncSmaller(nb, idoms, k);
    AncSmaller(nb, idoms, r);
    if k != r {
      SafeDominatorAlong(nb, idoms, d, r, Parent(idoms, k));
    }
  }

  /** The meet of a node's predecessors is a safe estimate for it. */
  lemma MeetIsSafe<N(!new)>(nb: Numbering<N>, idoms: Estimates<N>, k: N, r: N, d: N)
    requires IsTree(nb, idoms) && IsSafe(nb, idoms)
    requires nb.Preds(idoms, k) != {} && IsMeet(nb, idoms, nb.Preds(idoms, k), r)
    requires StrictlyDominates(nb.Es(), nb.root, d, k)
    ensures Dominates(nb.Es(), nb.root, d, r)
  {
    forall p | p in nb.Preds(idoms, k) ensures d in Anc(nb, idoms, p) {
      DominatesPred(nb.Es(), nb.root, d, p, k);
      SafeDominatorIsAncestor(nb, idoms, d, p);
    }
    var p :| p in nb.Preds(idoms, k);
    DominatesPred(nb.Es(), nb.root, d, p, k);
    assert r in Anc(nb, idoms, r);
    SafeDominatorAlong(nb, idoms, d, r, p);
  }

  // ---------- The fixpoint ----------

  /** Every reachable node has an estimate, and each is the meet of the node's predecessors. */
  ghost predicate IsFixpoint<N(!new)>(nb: Numbering<N>, idoms: Estimates<N>)
    requires IsTree(nb, idoms)
  {
    && idoms.Keys == nb.num.Keys
    && forall k {:trigger Parent(idoms, k)} | k in idoms && idoms[k].Some? ::
         IsMeet(nb, idoms, nb.Preds(idoms, k), Parent(idoms, k))
  }

  lemma {:induction false} FixpointAncestorOnPath<N(!new)>(
      nb: Numbering<N>, idoms: Estimates<N>, a: N, k: N, p: seq<N>)
    requires ValidNumbering(nb) && IsTree(nb, idoms) && IsFixpoint(nb, idoms)
    requires k in idoms && a in Anc(nb, idoms, k) && IsPath(nb.Es(), nb.root, k, p)
    ensures a in p
    decreases |p|
  {
    if a != k {
      assert |p| > 1;
      var m := PathUnsnoc(nb.Es(), nb.root, k, p);
      NumberedNodes(nb);
      assert m in nb.Preds(idoms, k);
      FixpointAncestorOnPath(nb, idoms, a, m, p[..|p| - 1]);
    }
  }

  lemma FixpointEstimate<N(!new)>(nb: Numbering<N>, idoms: Estimates<N>, k: N)
    requires ValidNumbering(nb) && IsTree(nb, idoms) && IsSafe(nb, idoms) && IsFixpoint(nb, idoms)
    requires k in idoms && idoms[k].Some?
    ensures ImmediatelyDominates(nb.Es(), nb.root, Parent(idoms, k), k)
  {
    NumberedNodes(nb);
    var i := Parent(idoms, k);
    assert i in Anc(nb, idoms, i);
    forall p | IsPath(nb.Es(), nb.root, k, p) ensures i in p {
      FixpointAncestorOnPath(nb, idoms, i, k, p);
    }
  }

  ghost function EstimateEdges<N(!new)>(idoms: Estimates<N>): set<Edge<N>> {
    set k | k in idoms && idoms[k].Some? :: Edge(Parent(idoms, k), k)
  }

  lemma EstimateEdgesMore<N(!new)>(idoms: Estimates<N>, k: N, idom: Option<N>)
    requires k !in idoms
    ensures EstimateEdges(idoms[k := idom]) ==
            EstimateEdges(idoms) + if idom.Some? then {Edge(idom.value, k)} else {}
  {
    var more := idoms[k := idom];
    forall v | v in idoms ensures v in more && more[v] == idoms[v] {
    }
    forall e | e in EstimateEdges(idoms) ensures e in EstimateEdges(more) {
      var v :| v in idoms && idoms[v].Some? && e == Edge(idoms[v].value, v);
      assert v in more;
    }
    assert k in more && more[k] == idom;
  }

  /** A safe fixpoint is the dominator tree. */
  lemma FixpointIsDominatorTree<N(!new)>(nb: Numbering<N>, idoms: Estimates<N>)
    requires ValidNumbering(nb) && IsTree(nb, idoms) && IsSafe(nb, idoms) && IsFixpoint(nb, idoms)
    ensures IsDominatorTree(nb.Es(), nb.root, EstimateEdges(idoms))
  {
    NumberedNodes(nb);
    forall k | k in idoms && idoms[k].Some?
      ensures ImmediatelyDominates(nb.Es(), nb.root, Parent(idoms, k), k)
    {
      FixpointEstimate(nb, idoms, k);
    }
    forall i, b | ImmediatelyDominates(nb.Es(), nb.root, i, b)
      ensures Edge(i, b) in EstimateEdges(idoms)
    {
      if b == nb.root {
        OnlyRootDominatesRoot(nb.Es(), nb.root, i);
        assert false;
      }
      ParentUnique(nb.Es(), nb.root, i, Parent(idoms, b), b);
    }
    forall b | Reaches(nb.Es(), nb.root, b) && b != nb.root
      ensures exists i :: Edge(i, b) in EstimateEdges(idoms)
    {
      assert Edge(Parent(idoms, b), b) in EstimateEdges(idoms);
    }
  }

  // ---------- What a sweep keeps ----------

  /** The estimate of `k` is above every earlier predecessor, and is at or below
      everything that is above all predecessors. */
  ghost predicate IsBracketed<N(!new)>(nb: Numbering<N>, idoms: Estimates<N>, k: N)
    requires IsTree(nb, idoms) && k in idoms && idoms[k].Some?
  {
    && (forall p <- nb.Preds(idoms, k) :: nb.num[p] < nb.num[k] ==> Parent(idoms, k) in Anc(nb, idoms, p))
    && (forall x :: (forall p <- nb.Preds(idoms, k) :: x in Anc(nb, idoms, p)) ==>
            x in Anc(nb, idoms, Parent(idoms, k)))
  }

  /** The nodes numbered up to `i` are bracketed. */
  ghost predicate Bracketed<N(!new)>(nb: Numbering<N>, idoms: Estimates<N>, i: nat)
    requires IsTree(nb, idoms)
  {
    forall k {:trigger IsBracketed(nb, idoms, k)} | k in idoms && idoms[k].Some? && nb.num[k] <= i ::
      IsBracketed(nb, idoms, k)
  }

  /** Every estimate is still, or again, an ancestor of what it was at the start. */
  ghost predicate Climbed<N(!new)>(nb: Numbering<N>, start: Estimates<N>, idoms: Estimates<N>)
    requires IsTree(nb, start) && IsTree(nb, idoms) && start.Keys == idoms.Keys
  {
    && (forall k {:trigger Parent(idoms, k)} | k in idoms && idoms[k].Some? ::
          Parent(idoms, k) in Anc(nb, idoms, Parent(start, k)))
    && (forall k {:trigger Anc(nb, idoms, k)} | k in idoms :: Anc(nb, idoms, k) <= Anc(nb, start, k))
  }

  /** In the middle of a sweep that began with `start`: the first `i` nodes are updated. */
  ghost predicate MidSweep<N(!new)>(nb: Numbering<N>, start: Estimates<N>, idoms: Estimates<N>, i: nat) {
    && i <= |nb.order|
    && IsTree(nb, start) && IsTree(nb, idoms)
    && start.Keys == nb.num.Keys && idoms.Keys == nb.num.Keys
    && (forall k <- idoms :: nb.num[k] > i ==> idoms[k] == start[k])
    && Bracketed(nb, start, |nb.order|)
    && Bracketed(nb, idoms, i)
    && Climbed(nb, start, idoms)
  }

  /** Nodes swept already kept their old ancestors in order: what is still above `v`, and was
      above its old ancestor `u`, is still above `u`. */
  lemma {:induction false} SweptKeepsChain<N(!new)>(
      nb: Numbering<N>, start: Estimates<N>, idoms: Estimates<N>, i: nat, v: N, u: N, x: N)
    requires MidSweep(nb, start, idoms, i) && v in idoms
    requires u in Anc(nb, start, v) && u in start
    requires x in Anc(nb, idoms, v) && x in Anc(nb, start, u)
    ensures x in Anc(nb, idoms, u)
    decreases nb.num[v]
  {
    if u != v {
      AncSmaller(nb, start, v);
      AncSmaller(nb, start, u);
      assert x != v;
      AncTrans(nb, idoms, Parent(idoms, v), Parent(start, v));
      SweptKeepsChain(nb, start, idoms, i, Parent(start, v), u, x);
    }
  }

  /** The meet of a node's predecessors is one of the current ancestors of its estimate. */
  lemma UpdateClimbs<N(!new)>(nb: Numbering<N>, start: Estimates<N>, idoms: Estimates<N>, i: nat, k: N, r: N)
    requires ValidNumbering(nb) && MidSweep(nb, start, idoms, i)
    requires k in idoms && k != nb.root && nb.num[k] == i + 1
    requires IsMeet(nb, idoms, nb.Preds(idoms, k), r)
    ensures r in Anc(nb, idoms, Parent(idoms, k))
  {
    assert r in Anc(nb, idoms, r);
    var q := Parent(start, k);
    assert nb.Preds(idoms, k) == nb.Preds(start, k);
    forall p | p in nb.Preds(start, k) ensures r in Anc(nb, start, p) {
      assert r in Anc(nb, idoms, p);
    }
    assert IsBracketed(nb, start, k);
    assert r in Anc(nb, start, q);
    var p := EarlierPredNumbered(nb, k);
    assert p in nb.Preds(idoms, k);
    SweptKeepsChain(nb, start, idoms, i, p, q, r);
  }

  lemma BracketSurvives<N(!new)>(nb: Numbering<N>, idoms: Estimates<N>, k: N, r: N, v: N)
    requires IsTree(nb, idoms) && k in idoms && idoms[k].Some? && r in Anc(nb, idoms, Parent(idoms, k))
    requires v in idoms && idoms[v].Some? && nb.num[v] < nb.num[k] && IsBracketed(nb, idoms, v)
    ensures IsTree(nb, idoms[k := Some(r)]) && IsBracketed(nb, idoms[k := Some(r)], v)
  {
    var idoms' := idoms[k := Some(r)];
    AncShrinks(nb, idoms, k, r, k);
    assert nb.Preds(idoms', v) == nb.Preds(idoms, v);
    AncAgree(nb, idoms, idoms', Parent(idoms, v));
    forall p | p in nb.Preds(idoms, v) && nb.num[p] < nb.num[v]
      ensures Parent(idoms', v) in Anc(nb, idoms', p)
    {
      AncAgree(nb, idoms, idoms', p);
    }
    forall x | forall p <- nb.Preds(idoms', v) :: x in Anc(nb, idoms', p)
      ensures x in Anc(nb, idoms', Parent(idoms', v))
    {
      forall p | p in nb.Preds(idoms, v) ensures x in Anc(nb, idoms, p) {
        AncShrinks(nb, idoms, k, r, p);
        assert x in Anc(nb, idoms', p);
      }
    }
  }

  lemma UpdateIsBracketed<N(!new)>(nb: Numbering<N>, idoms: Estimates<N>, k: N, r: N)
    requires IsTree(nb, idoms) && k in idoms && idoms[k].Some? && r in Anc(nb, idoms, Parent(idoms, k))
    requires IsMeet(nb, idoms, nb.Preds(idoms, k), r)
    ensures IsTree(nb, idoms[k := Some(r)]) && IsBracketed(nb, idoms[k := Some(r)], k)
  {
    var idoms' := idoms[k := Some(r)];
    AncShrinks(nb, idoms, k, r, k);
    AncSmaller(nb, idoms, Parent(idoms, k));
    assert nb.Preds(idoms', k) == nb.Preds(idoms, k);
    AncAgree(nb, idoms, idoms', r);
    assert r in Anc(nb, idoms, r);
    forall p | p in nb.Preds(idoms, k) && nb.num[p] < nb.num[k] ensures r in Anc(nb, idoms', p) {
      AncAgree(nb, idoms, idoms', p);
    }
    forall x | forall p <- nb.Preds(idoms', k) :: x in Anc(nb, idoms', p) ensures x in Anc(nb, idoms', r) {
      forall p | p in nb.Preds(idoms, k) ensures x in Anc(nb, idoms, p) {
        AncShrinks(nb, idoms, k, r, p);
        assert x in Anc(nb, idoms', p);
      }
    }
  }

  lemma StepKeepsBrackets<N(!new)>(nb: Numbering<N>, idoms: Estimates<N>, i: nat, k: N, r: N)
    requires IsTree(nb, idoms) && Bracketed(nb, idoms, i)
    requires k in idoms && idoms[k].Some? && nb.num[k] == i + 1 && r in Anc(nb, idoms, Parent(idoms, k))
    requires forall v <- idoms :: nb.num[v] == i + 1 ==> v == k
    requires IsMeet(nb, idoms, nb.Preds(idoms, k), r)
    ensures IsTree(nb, idoms[k := Some(r)]) && Bracketed(nb, idoms[k := Some(r)], i + 1)
  {
    var idoms' := idoms[k := Some(r)];
    AncShrinks(nb, idoms, k, r, k);
    forall v | v in idoms' && idoms'[v].Some? && nb.num[v] <= i + 1 ensures IsBracketed(nb, idoms', v) {
      if v == k {
        UpdateIsBracketed(nb, idoms, k, r);
      } else {
        assert IsBracketed(nb, idoms, v);
        BracketSurvives(nb, idoms, k, r, v);
      }
    }
  }

  lemma StepKeepsClimbed<N(!new)>(nb: Numbering<N>, start: Estimates<N>, idoms: Estimates<N>, i: nat, k: N, r: N)
    requires IsTree(nb, start) && IsTree(nb, idoms) && start.Keys == idoms.Keys && Climbed(nb, start, idoms)
    requires forall v <- idoms :: nb.num[v] > i ==> idoms[v] == start[v]
    requires k in idoms && idoms[k].Some? && nb.num[k] == i + 1 && r in Anc(nb, idoms, Parent(idoms, k))
    ensures IsTree(nb, idoms[k := Some(r)]) && Climbed(nb, start, idoms[k := Some(r)])
  {
    var idoms' := idoms[k := Some(r)];
    AncShrinks(nb, idoms, k, r, k);
    forall v | v in idoms' && idoms'[v].Some? ensures Parent(idoms', v) in Anc(nb, idoms', Parent(start, v)) {
      var q := Parent(start, v);
      if v == k || nb.num[v] <= i {
        assert q in idoms && nb.num[q] <= i;
        AncAgree(nb, idoms, idoms', q);
        assert v != k ==> Parent(idoms', v) == Parent(idoms, v);
      } else {
        assert Parent(idoms', v) == q;
      }
    }
    forall v | v in idoms' ensures Anc(nb, idoms', v) <= Anc(nb, start, v) {
      AncShrinks(nb, idoms, k, r, v);
    }
  }

  /** One update in sweep order leads from one mid-sweep state to the next. */
  lemma SweepStep<N(!new)>(nb: Numbering<N>, start: Estimates<N>, idoms: Estimates<N>, i: nat, k: N, r: N)
    requires ValidNumbering(nb) && MidSweep(nb, start, idoms, i)
    requires k in idoms && k != nb.root && nb.num[k] == i + 1
    requires IsMeet(nb, idoms, nb.Preds(idoms, k), r)
    ensures MidSweep(nb, start, idoms[k := Some(r)], i + 1)
  {
    var idoms' := idoms[k := Some(r)];
    assert i + 1 <= |nb.order| by { NumberedNodes(nb); }
    UpdateClimbs(nb, start, idoms, i, k, r);
    assert IsTree(nb, idoms') && Bracketed(nb, idoms', i + 1) by {
      forall v | v in idoms && nb.num[v] == i + 1 ensures v == k {
        NumbersDiffer(nb, v, k);
      }
      StepKeepsBrackets(nb, idoms, i, k, r);
    }
    assert Climbed(nb, start, idoms') by { StepKeepsClimbed(nb, start, idoms, i, k, r); }
  }

  /** Nothing happens at the root. */
  lemma SweepStepRoot<N(!new)>(nb: Numbering<N>, start: Estimates<N>, idoms: Estimates<N>)
    requires ValidNumbering(nb) && MidSweep(nb, start, idoms, 0)
    ensures MidSweep(nb, start, idoms, 1)
  {
    NumberedNodes(nb);
  }

  /** The first `i` nodes have the meet of their predecessors as estimate. */
  ghost predicate SettledUpTo<N(!new)>(nb: Numbering<N>, idoms: Estimates<N>, i: nat)
    requires IsTree(nb, idoms)
  {
    forall k {:trigger Parent(idoms, k)} | k in idoms && idoms[k].Some? && nb.num[k] <= i ::
      IsMeet(nb, idoms, nb.Preds(idoms, k), Parent(idoms, k))
  }

  lemma SettledMore<N(!new)>(nb: Numbering<N>, idoms: Estimates<N>, i: nat, k: N)
    requires ValidNumbering(nb) && IsTree(nb, idoms) && SettledUpTo(nb, idoms, i)
    requires k in idoms && nb.num[k] == i + 1
    requires idoms[k].Some? ==> IsMeet(nb, idoms, nb.Preds(idoms, k), idoms[k].value)
    ensures SettledUpTo(nb, idoms, i + 1)
  {
    forall v | v in idoms && idoms[v].Some? && nb.num[v] <= i + 1
      ensures IsMeet(nb, idoms, nb.Preds(idoms, v), Parent(idoms, v))
    {
      if nb.num[v] == i + 1 {
        NumbersDiffer(nb, v, k);
      }
    }
  }

  lemma SettledAll<N(!new)>(nb: Numbering<N>, idoms: Estimates<N>)
    requires ValidNumbering(nb) && IsTree(nb, idoms) && idoms.Keys == nb.num.Keys
    requires SettledUpTo(nb, idoms, |nb.order|)
    ensures IsFixpoint(nb, idoms)
  {
    forall k | k in idoms && idoms[k].Some?
      ensures IsMeet(nb, idoms, nb.Preds(idoms, k), Parent(idoms, k))
    {
      NumberedBetween(nb, k);
    }
  }

  lemma SweepStart<N(!new)>(nb: Numbering<N>, idoms: Estimates<N>)
    requires IsTree(nb, idoms) && idoms.Keys == nb.num.Keys
    requires ValidNumbering(nb) && Bracketed(nb, idoms, |nb.order|)
    ensures MidSweep(nb, idoms, idoms, 0)
  {
  }

  // ---------- The first estimates ----------

  /** The first `i` nodes have estimates. */
  ghost predicate FirstPass<N(!new)>(nb: Numbering<N>, idoms: Estimates<N>, i: nat) {
    && i <= |nb.order|
    && IsTree(nb, idoms) && IsSafe(nb, idoms)
    && (forall k :: k in idoms <==> k in nb.num && nb.num[k] <= i)
    && Bracketed(nb, idoms, i)
  }

  lemma FirstPassRoot<N(!new)>(nb: Numbering<N>)
    requires ValidNumbering(nb)
    ensures FirstPass(nb, map[], 0) && FirstPass(nb, map[nb.root := None], 1)
  {
    NumberedNodes(nb);
  }

  lemma FirstPassBracket<N(!new)>(nb: Numbering<N>, idoms: Estimates<N>, k: N, r: N, v: N)
    requires IsTree(nb, idoms) && k in nb.num && k != nb.root && k !in idoms
    requires forall j <- idoms :: nb.num[j] < nb.num[k]
    requires IsMeet(nb, idoms, nb.Preds(idoms, k), r)
    requires IsTree(nb, idoms[k := Some(r)])
    requires v == k || (v in idoms && idoms[v].Some? && IsBracketed(nb, idoms, v))
    ensures IsBracketed(nb, idoms[k := Some(r)], v)
  {
    var idoms' := idoms[k := Some(r)];
    assert r in Anc(nb, idoms, r);
    forall u | u in idoms ensures Anc(nb, idoms', u) == Anc(nb, idoms, u) {
      AncAgree(nb, idoms, idoms', u);
    }
    assert nb.Preds(idoms, v) <= nb.Preds(idoms', v);
  }

  lemma UpdateKeepsSafe<N(!new)>(nb: Numbering<N>, idoms: Estimates<N>, k: N, r: N)
    requires IsTree(nb, idoms) && IsSafe(nb, idoms)
    requires nb.Preds(idoms, k) != {} && IsMeet(nb, idoms, nb.Preds(idoms, k), r)
    ensures IsSafe(nb, idoms[k := Some(r)])
  {
    var idoms' := idoms[k := Some(r)];
    forall v, d | v in idoms' && idoms'[v].Some? && StrictlyDominates(nb.Es(), nb.root, d, v)
      ensures Dominates(nb.Es(), nb.root, d, Parent(idoms', v))
    {
      if v == k {
        MeetIsSafe(nb, idoms, k, r, d);
      } else {
        assert Parent(idoms', v) == Parent(idoms, v);
      }
    }
  }

  lemma FirstPassBrackets<N(!new)>(nb: Numbering<N>, idoms: Estimates<N>, i: nat, k: N, r: N)
    requires IsTree(nb, idoms) && Bracketed(nb, idoms, i)
    requires k in nb.num && k != nb.root && nb.num[k] == i + 1 && k !in idoms
    requires forall j <- idoms :: nb.num[j] <= i
    requires IsMeet(nb, idoms, nb.Preds(idoms, k), r)
    ensures IsTree(nb, idoms[k := Some(r)]) && Bracketed(nb, idoms[k := Some(r)], i + 1)
  {
    var idoms' := idoms[k := Some(r)];
    MoveIsTree(nb, idoms, k, r);
    forall v | v in idoms' && idoms'[v].Some? ensures IsBracketed(nb, idoms', v) {
      if v != k {
        assert IsBracketed(nb, idoms, v);
      }
      FirstPassBracket(nb, idoms, k, r, v);
    }
  }

  /** The meet of the predecessors that have estimates is a good first estimate. */
  lemma FirstPassStep<N(!new)>(nb: Numbering<N>, idoms: Estimates<N>, i: nat, k: N, r: N)
    requires ValidNumbering(nb) && FirstPass(nb, idoms, i)
    requires k in nb.num && k != nb.root && nb.num[k] == i + 1
    requires nb.Preds(idoms, k) != {} && IsMeet(nb, idoms, nb.Preds(idoms, k), r)
    ensures FirstPass(nb, idoms[k := Some(r)], i + 1)
  {
    UpdateKeepsSafe(nb, idoms, k, r);
    FirstPassBrackets(nb, idoms, i, k, r);
    forall v | v in nb.num && nb.num[v] == i + 1 ensures v == k {
      NumbersDiffer(nb, v, k);
    }
    assert nb.num[k] <= |nb.order| by { NumberedNodes(nb); }
  }

  lemma FirstPassDone<N(!new)>(nb: Numbering<N>, idoms: Estimates<N>)
    requires ValidNumbering(nb) && FirstPass(nb, idoms, |nb.order|)
    ensures idoms.Keys == nb.num.Keys
  {
    forall k | k in nb.num ensures k in idoms {
      NumberedBetween(nb, k);
    }
  }

  // ---------- How far the estimates can sink ----------

  /** The sum of the numbers of the parents of the first `i` nodes. */
  ghost function ParentSum<N(!new)>(nb: Numbering<N>, idoms: Estimates<N>, i: nat): nat
    requires IsTree(nb, idoms) && idoms.Keys == nb.num.Keys && i <= |nb.order|
    requires forall k <- nb.order :: k in nb.num
  {
    if i == 0 then 0
    else
      var k := nb.order[i - 1];
      ParentSum(nb, idoms, i - 1) + if idoms[k].None? then 0 else nb.num[Parent(idoms, k)]
  }

  lemma TriangleStep(i: nat, sum: nat, parent: nat)
    requires 1 < i && 2 * sum <= (i - 1) * (i - 2) && parent <= i - 1
    ensures 2 * (sum + parent) <= i * (i - 1)
  {
    assert (i - 1) * (i - 2) == i * (i - 1) - 2 * (i - 1);
  }

  lemma {:induction false} ParentSumBounds<N(!new)>(nb: Numbering<N>, idoms: Estimates<N>, i: nat)
    requires ValidNumbering(nb) && IsTree(nb, idoms) && idoms.Keys == nb.num.Keys && 1 <= i <= |nb.order|
    ensures i - 1 <= ParentSum(nb, idoms, i)
    ensures 2 * ParentSum(nb, idoms, i) <= i * (i - 1)
  {
    var k := nb.order[i - 1];
    NumberedAt(nb, i - 1);
    if i > 1 {
      ParentSumBounds(nb, idoms, i - 1);
      NumberedBetween(nb, Parent(idoms, k));
      TriangleStep(i, ParentSum(nb, idoms, i - 1), nb.num[Parent(idoms, k)]);
    } else {
      assert ParentSum(nb, idoms, 0) == 0;
    }
  }

  /** No estimate has grown, and one that changed has a smaller number. */
  ghost predicate Sunk<N(!new)>(nb: Numbering<N>, start: Estimates<N>, idoms: Estimates<N>)
    requires IsTree(nb, start) && IsTree(nb, idoms) && start.Keys == idoms.Keys
  {
    forall k {:trigger Parent(idoms, k)} | k in idoms && idoms[k] != start[k] ::
      idoms[k].Some? && start[k].Some? && nb.num[Parent(idoms, k)] < nb.num[Parent(start, k)]
  }

  lemma SweepSinks<N(!new)>(nb: Numbering<N>, start: Estimates<N>, idoms: Estimates<N>, i: nat)
    requires MidSweep(nb, start, idoms, i)
    ensures Sunk(nb, start, idoms)
  {
    forall k | k in idoms && idoms[k] != start[k]
      ensures idoms[k].Some? && start[k].Some? && nb.num[Parent(idoms, k)] < nb.num[Parent(start, k)]
    {
      AncSmaller(nb, idoms, Parent(start, k));
    }
  }

  lemma {:induction false} SunkLowersSum<N(!new)>(nb: Numbering<N>, start: Estimates<N>, idoms: Estimates<N>, i: nat)
    requires IsTree(nb, start) && IsTree(nb, idoms)
    requires start.Keys == idoms.Keys == nb.num.Keys && (forall k <- nb.order :: k in nb.num)
    requires Sunk(nb, start, idoms) && i <= |nb.order|
    ensures ParentSum(nb, idoms, i) <= ParentSum(nb, start, i)
    ensures (exists j :: 0 <= j < i && idoms[nb.order[j]] != start[nb.order[j]]) ==>
              ParentSum(nb, idoms, i) < ParentSum(nb, start, i)
  {
    if i > 0 {
      SunkLowersSum(nb, start, idoms, i - 1);
      var k := nb.order[i - 1];
      assert k in nb.num && k in idoms && k in start;
      if exists j :: 0 <= j < i && idoms[nb.order[j]] != start[nb.order[j]] {
        var j :| 0 <= j < i && idoms[nb.order[j]] != start[nb.order[j]];
        if j < i - 1 {
          assert ParentSum(nb, idoms, i - 1) < ParentSum(nb, start, i - 1);
        }
      }
    }
  }

  /** A sweep that changed something lowered the sum; in any case the sum is bounded. */
  lemma SweepAccount<N(!new)>(nb: Numbering<N>, start: Estimates<N>, idoms: Estimates<N>)
    requires ValidNumbering(nb) && IsTree(nb, start) && IsTree(nb, idoms)
    requires start.Keys == idoms.Keys == nb.num.Keys && Sunk(nb, start, idoms)
    ensures |nb.order| - 1 <= ParentSum(nb, idoms, |nb.order|)
    ensures ParentSum(nb, idoms, |nb.order|) <= ParentSum(nb, start, |nb.order|)
    ensures idoms != start ==> ParentSum(nb, idoms, |nb.order|) < ParentSum(nb, start, |nb.order|)
  {
    ParentSumBounds(nb, idoms, |nb.order|);
    SunkLowersSum(nb, start, idoms, |nb.order|);
    if idoms != start {
      var k :| k in idoms && idoms[k] != start[k];
      NumberedBetween(nb, k);
    }
  }

  lemma SweepBound(n: nat, sum: nat, sweeps: nat)
    requires 1 <= n && n - 1 <= sum && 2 * (sum + sweeps - 1) <= n * (n - 1)
    ensures 2 * (sweeps - 1) <= (n - 1) * (n - 2)
  {
    assert (n - 1) * (n - 2) == n * (n - 1) - 2 * (n - 1);
  }
}
