/** `bubble_transitive_capabilities` (graph.rs): capabilities climb the call graph until nothing
    changes. */
module CapabilityBubbling {
  import opened Graphs
  import opened Paths
  import opened Reports
  import opened Functions

  /** Every edge leads between functions of the table. */
  ghost predicate Indexed(es: set<Edge<nat>>, n: nat) {
    forall e <- es :: e.src < n && e.dst < n
  }

  /** Function `i` reaches a function that began with `cap`. */
  ghost predicate Inherits(es: set<Edge<nat>>, before: seq<Function>, i: nat, cap: Capability) {
    exists j: nat :: j < |before| && Reaches(es, i, j) && cap in before[j].capabilities
  }

  /** `after` is `before` with capabilities inherited along the edges: exactly the capabilities of
      everything reached, where only the function's own keep their type. */
  ghost predicate IsBubbled(es: set<Edge<nat>>, before: seq<Function>, after: seq<Function>) {
    && |after| == |before|
    && (forall i {:trigger KeepsOwn(before[i], after[i])} :: 0 <= i < |after| ==> KeepsOwn(before[i], after[i]))
    && (forall i, cap {:trigger Inherits(es, before, i, cap)} :: 0 <= i < |after| ==>
            (cap in after[i].capabilities <==> Inherits(es, before, i, cap)))
  }

  /** Own capabilities keep their type, additional ones are transitive, nothing else changes. */
  ghost predicate KeepsOwn(before: Function, after: Function) {
    && after == before.(capabilities := after.capabilities)
    && (forall cap <- before.capabilities ::
          cap in after.capabilities && after.capabilities[cap] == before.capabilities[cap])
    && (forall cap <- after.capabilities ::
          cap !in before.capabilities ==> after.capabilities[cap] == Transitive)
  }

  /** In the middle of bubbling: nothing lost, nothing that is not inherited. */
  ghost predicate Sound(es: set<Edge<nat>>, before: seq<Function>, now: seq<Function>) {
    && |now| == |before|
    && (forall i {:trigger KeepsOwn(before[i], now[i])} :: 0 <= i < |now| ==> KeepsOwn(before[i], now[i]))
    && (forall i, cap {:trigger Inherits(es, before, i, cap)} ::
          0 <= i < |now| && cap in now[i].capabilities ==> Inherits(es, before, i, cap))
  }

  ghost predicate Flows(now: seq<Function>, e: Edge<nat>) {
    e.src < |now| && e.dst < |now| && now[e.dst].capabilities.Keys <= now[e.src].capabilities.Keys
  }

  /** The capabilities that functions do not have yet. */
  ghost function Missing(now: seq<Function>): set<(int, Capability)> {
    set i, cap: Capability | 0 <= i < |now| && cap !in now[i].capabilities :: (i, cap)
  }

  ghost function Deficit(now: seq<Function>): nat {
    |Missing(now)|
  }

  lemma SoundStart(es: set<Edge<nat>>, before: seq<Function>)
    ensures Sound(es, before, before)
  {
    forall i, cap | 0 <= i < |before| && cap in before[i].capabilities ensures Inherits(es, before, i, cap) {
      PathRefl(es, i);
    }
  }

  lemma SoundStep(es: set<Edge<nat>>, before: seq<Function>, now: seq<Function>, e: Edge<nat>, cap: Capability)
    requires Sound(es, before, now) && e in es && e.src < |now| && e.dst < |now|
    requires cap in now[e.dst].capabilities && cap !in now[e.src].capabilities
    ensures Sound(es, before, now[e.src := WithCapability(now[e.src], cap, Transitive)])
  {
    assert Inherits(es, before, e.dst, cap);
    var j: nat :| j < |before| && Reaches(es, e.dst, j) && cap in before[j].capabilities;
    assert e == Edge(e.src, e.dst);
    ReachesCons(es, e.src, e.dst, j);
    assert Inherits(es, before, e.src, cap);
    var after := now[e.src := WithCapability(now[e.src], cap, Transitive)];
    assert KeepsOwn(before[e.src], now[e.src]);
    forall i | 0 <= i < |after| ensures KeepsOwn(before[i], after[i]) {
      if i != e.src {
        assert KeepsOwn(before[i], now[i]) && after[i] == now[i];
      }
    }
    forall i, c | 0 <= i < |after| && c in after[i].capabilities ensures Inherits(es, before, i, c) {
      if i != e.src || c != cap {
        assert c in now[i].capabilities;
      }
    }
  }

  /** When nothing flows any more, everything inherited has arrived. */
  lemma {:induction false} FlowsAlongPath(es: set<Edge<nat>>, now: seq<Function>, i: nat, j: nat, p: seq<nat>)
    requires forall e <- es :: Flows(now, e)
    requires i < |now| && j < |now| && IsPath(es, i, j, p)
    ensures now[j].capabilities.Keys <= now[i].capabilities.Keys
    decreases |p|
  {
    if |p| > 1 {
      var m := PathUnsnoc(es, i, j, p);
      assert Flows(now, Edge(m, j));
      FlowsAlongPath(es, now, i, m, p[..|p| - 1]);
    }
  }

  lemma FixpointIsBubbled(es: set<Edge<nat>>, before: seq<Function>, now: seq<Function>)
    requires Sound(es, before, now) && forall e <- es :: Flows(now, e)
    ensures IsBubbled(es, before, now)
  {
    forall i: nat, cap | i < |now| && Inherits(es, before, i, cap) ensures cap in now[i].capabilities {
      var j: nat :| j < |before| && Reaches(es, i, j) && cap in before[j].capabilities;
      var p :| IsPath(es, i, j, p);
      FlowsAlongPath(es, now, i, j, p);
      assert KeepsOwn(before[j], now[j]);
    }
  }

  /** The capabilities of one callee climb to one caller. */
  method BubbleEdge(ghost es: set<Edge<nat>>, ghost before: seq<Function>, functions: FunctionMap, caller: nat,
                    callee: nat)
    returns (changed: bool)
    requires functions.Valid() && Sound(es, before, functions.functions)
    requires Edge(caller, callee) in es && caller < |functions.functions| && callee < |functions.functions|
    modifies functions`functions
    ensures functions.Valid() && Sound(es, before, functions.functions)
    ensures changed ==> Deficit(functions.functions) < Deficit(old(functions.functions))
    ensures !changed ==> functions.functions == old(functions.functions)
    ensures !changed ==> Flows(functions.functions, Edge(caller, callee))
  {
    changed := false;
    var calleeCaps := functions.functions[callee].capabilities.Keys;
    var left := calleeCaps;
    while left != {}
      invariant functions.Valid() && Sound(es, before, functions.functions)
      invariant left <= calleeCaps <= functions.functions[callee].capabilities.Keys
      invariant changed ==> Deficit(functions.functions) < Deficit(old(functions.functions))
      invariant !changed ==> functions.functions == old(functions.functions)
      invariant calleeCaps - left <= functions.functions[caller].capabilities.Keys
    {
      var cap :| cap in left;
      if cap !in functions.functions[caller].capabilities {
        ghost var now := functions.functions;
        SoundStep(es, before, now, Edge(caller, callee), cap);
        InsertCounts(now, caller, cap);
        functions.PutCapability(caller, cap, Transitive);
        changed := true;
      }
      left := left - {cap};
    }
  }

  lemma InsertCounts(now: seq<Function>, caller: nat, cap: Capability)
    requires caller < |now| && cap !in now[caller].capabilities
    ensures Deficit(now[caller := WithCapability(now[caller], cap, Transitive)]) < Deficit(now)
  {
    var after := now[caller := WithCapability(now[caller], cap, Transitive)];
    assert Missing(now) == Missing(after) + {(caller as int, cap)};
    assert (caller as int, cap) !in Missing(after);
  }

  /** One pass over all edges in their order. */
  method BubbleSweep(graph: DiGraph<nat>, ghost before: seq<Function>, functions: FunctionMap) returns (changed: bool)
    requires functions.Valid() && Indexed(graph.EdgeSet(), |functions.functions|)
    requires Sound(graph.EdgeSet(), before, functions.functions)
    modifies functions`functions
    ensures functions.Valid() && Sound(graph.EdgeSet(), before, functions.functions)
    ensures changed ==> Deficit(functions.functions) < Deficit(old(functions.functions))
    ensures !changed ==> functions.functions == old(functions.functions)
    ensures !changed ==> forall e <- graph.EdgeSet() :: Flows(functions.functions, e)
  {
    changed := false;
    ghost var es := graph.EdgeSet();
    for i := 0 to |graph.edges|
      invariant functions.Valid() && Sound(es, before, functions.functions)
      invariant changed ==> Deficit(functions.functions) < Deficit(old(functions.functions))
      invariant !changed ==> functions.functions == old(functions.functions)
      invariant !changed ==> forall j :: 0 <= j < i ==> Flows(functions.functions, graph.edges[j])
    {
      var e := graph.edges[i];
      assert e in es && e == Edge(e.src, e.dst);
      var c := BubbleEdge(es, before, functions, e.src, e.dst);
      changed := changed || c;
    }
  }

  /** Bubbling ends, for every order of the edges and for cyclic graphs, with exactly
      the inherited capabilities. */
  method BubbleTransitiveCapabilities(graph: DiGraph<nat>, functions: FunctionMap)
    requires functions.Valid() && Indexed(graph.EdgeSet(), |functions.functions|)
    modifies functions`functions
    ensures functions.Valid()
    ensures IsBubbled(graph.EdgeSet(), old(functions.functions), functions.functions)
  {
    ghost var before := functions.functions;
    SoundStart(graph.EdgeSet(), before);
    var changed := true;
    while changed
      invariant functions.Valid() && Sound(graph.EdgeSet(), before, functions.functions)
      invariant !changed ==> forall e <- graph.EdgeSet() :: Flows(functions.functions, e)
      decreases Deficit(functions.functions), changed
    {
      changed := BubbleSweep(graph, before, functions);
    }
    FixpointIsBubbled(graph.EdgeSet(), before, functions.functions);
  }

  /** The result of bubbling is determined by the edges, not by their order or by how often
      they were swept. */
  lemma BubblingUnique(es: set<Edge<nat>>, before: seq<Function>, a: seq<Function>, b: seq<Function>)
    requires IsBubbled(es, before, a) && IsBubbled(es, before, b)
    ensures a == b
  {
    forall i: nat | i < |a| ensures a[i] == b[i] {
      assert KeepsOwn(before[i], a[i]) && KeepsOwn(before[i], b[i]);
      forall cap ensures cap in a[i].capabilities <==> cap in b[i].capabilities {
        assert cap in a[i].capabilities <==> Inherits(es, before, i, cap);
      }
      SameOwn(before[i], a[i], b[i]);
    }
  }

  lemma SameOwn(before: Function, a: Function, b: Function)
    requires KeepsOwn(before, a) && KeepsOwn(before, b)
    requires forall cap :: cap in a.capabilities <==> cap in b.capabilities
    ensures a == b
  {
    assert a.capabilities == b.capabilities;
  }
}
