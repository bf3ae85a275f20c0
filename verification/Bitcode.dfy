/** The static analysis (static/bitcode.rs): modules are added one by one to a function table and
    a call graph over indices, and capabilities are bubbled for the report. */
module Bitcode {
  import opened Wrappers
  import opened Graphs
  import opened Paths
  import opened Reports
  import opened Functions
  import opened CapabilityBubbling
  import LlvmIr
  import CallGraphs

  type Module = LlvmIr.Module

  // ---------- What the modules say, independently of any table ----------

  /** The name is defined or declared in the module. */
  ghost predicate Mentions(m: Module, name: string) {
    name in m.funcDeclarations || exists f <- m.functions :: f.name == name
  }

  ghost predicate AnyMentions(modules: seq<Module>, name: string) {
    exists m <- modules :: Mentions(m, name)
  }

  /** A call site of `caller` in `m` names `callee`, or calls a pointer at the type that the
      function `callee` is defined with in `m`. */
  ghost predicate MayCallIn(m: Module, caller: string, callee: string) {
    CallGraphs.ModuleCalls(m, CallGraphs.DefinedIn([m]), caller, callee)
  }

  ghost predicate AnyMayCall(modules: seq<Module>, caller: string, callee: string) {
    exists m <- modules :: MayCallIn(m, caller, callee)
  }

  /** The calls of `m` can be translated once `modules` are in the table: call sites name functions
      by text, and only functions that some module defines or declares. */
  ghost predicate Resolves(modules: seq<Module>, m: Module) {
    forall f <- m.functions :: CallGraphs.NamedCalls(f) && ResolvedCalls(modules, f)
  }

  ghost predicate ResolvedCalls(modules: seq<Module>, f: LlvmIr.Function) {
    forall site :: CallGraphs.FunctionCalls(f, site) && site.GlobalReference? && site.name.Name? ==>
      AnyMentions(modules, site.name.text)
  }

  ghost predicate AllResolve(modules: seq<Module>) {
    forall m <- modules :: Resolves(modules, m)
  }

  lemma ResolvesMore(modules: seq<Module>, more: seq<Module>, m: Module)
    requires Resolves(modules, m) && forall other <- modules :: other in more
    ensures Resolves(more, m)
  {
    forall f | f in m.functions ensures ResolvedCalls(more, f) {
      assert ResolvedCalls(modules, f);
    }
  }

  lemma MayCallMentions(modules: seq<Module>, m: Module, caller: string, callee: string)
    requires m in modules && Resolves(modules, m) && MayCallIn(m, caller, callee)
    ensures AnyMentions(modules, caller) && AnyMentions(modules, callee)
  {
    var typed := CallGraphs.DefinedIn([m]);
    var f :| f in m.functions && f.name == caller && CallGraphs.FunctionMayCall(f, typed, callee);
    assert Mentions(m, caller);
    var site :| CallGraphs.FunctionCalls(f, site) && CallGraphs.MayLandOn(site, typed, callee);
    if site.GlobalReference? {
      assert ResolvedCalls(modules, f);
    } else {
      assert Mentions(m, callee);
    }
  }

  ghost predicate MentionsParse(demangle: Demangler, m: Module) {
    forall n :: Mentions(m, n) ==> Nameable(demangle, n)
  }

  /** What a module mentions, in order: the functions it defines, then those it declares. */
  ghost function NamesIn(m: Module): seq<string> {
    FunctionNames(m.functions) + m.funcDeclarations
  }

  /** The names of the modules in the order of their first mention. */
  ghost function FirstMentions(modules: seq<Module>): seq<string> {
    if modules == [] then []
    else AddNew(FirstMentions(modules[..|modules| - 1]), NamesIn(modules[|modules| - 1]))
  }

  ghost predicate ChainLink(modules: seq<Module>, chain: seq<string>, i: nat)
    requires i + 1 < |chain|
  {
    AnyMayCall(modules, chain[i], chain[i + 1])
  }

  /** A chain of calls from `f` to `g` through any of the modules; a function chains to itself. */
  ghost predicate IsCallChain(modules: seq<Module>, f: string, g: string, chain: seq<string>) {
    && chain != [] && chain[0] == f && chain[|chain| - 1] == g
    && forall i :: 0 <= i < |chain| - 1 ==> ChainLink(modules, chain, i)
  }

  ghost predicate CallChain(modules: seq<Module>, f: string, g: string) {
    exists chain :: IsCallChain(modules, f, g, chain)
  }

  /** Some function that `f` chains to has `cap` listed. */
  ghost predicate ChainsToListed(
      demangle: Demangler, functionCaps: FunctionCaps, modules: seq<Module>, f: string, cap: Capability)
  {
    exists g :: CallChain(modules, f, g) && AnyMentions(modules, g) && cap in Listed(demangle, functionCaps, g)
  }

  /** What the report must say, in terms of the modules alone. `names` are the mangled names
      of the report's functions, which the report itself does not show. */
  ghost predicate ReportOf(
      demangle: Demangler, functionCaps: FunctionCaps, report: Report, names: seq<string>, modules: seq<Module>)
  {
    var p := report.process;
    && report.children == []
    && Distinct(names) && |names| == |p.functions|
    && (forall n :: n in names <==> AnyMentions(modules, n))
    && (forall i {:trigger p.functions[i]} :: 0 <= i < |names| ==>
          FunctionOf(demangle, functionCaps, p.functions[i], names[i], modules))
    && EdgesOf(names, (set e | e in p.edges), modules)
    && (forall cap :: cap in p.capabilities <==>
          exists n :: AnyMentions(modules, n) && cap in Listed(demangle, functionCaps, n))
  }

  /** A function's entry: its parsed name, and every capability listed for a function it chains to,
      direct if listed for the function itself and transitive otherwise. */
  ghost predicate FunctionOf(
      demangle: Demangler, functionCaps: FunctionCaps, f: Function, mangled: string, modules: seq<Module>)
  {
    && IsNameOf(demangle, mangled, f.name)
    && f.syscalls == {}
    && (forall cap :: cap in f.capabilities <==> ChainsToListed(demangle, functionCaps, modules, mangled, cap))
    && (forall cap <- f.capabilities ::
          f.capabilities[cap] == if cap in Listed(demangle, functionCaps, mangled) then Direct else Transitive)
  }

  // ---------- The state of the builder, in terms of the modules added ----------

  /** The table lists exactly the names mentioned, each with the capabilities listed for it. */
  ghost predicate TableOf(demangle: Demangler, functionCaps: FunctionCaps, t: Table, mentioned: iset<string>) {
    && ValidTable(t)
    && (forall n :: n in t.names <==> n in mentioned)
    && (forall i {:trigger t.functions[i]} :: 0 <= i < |t.names| ==>
          IsEntryOf(demangle, functionCaps, t.names[i], t.functions[i]))
  }

  ghost function Mentioned(modules: seq<Module>): iset<string> {
    iset n: string | AnyMentions(modules, n)
  }

  ghost function NameSet(names: seq<string>): iset<string> {
    iset n | n in names
  }

  ghost predicate NamesParse(demangle: Demangler, names: seq<string>) {
    forall n <- names :: Nameable(demangle, n)
  }

  /** The name at `k` is the first that fails. */
  ghost predicate FirstFailing(demangle: Demangler, names: seq<string>, k: nat, error: NameError) {
    k < |names| && NamesParse(demangle, names[..k]) && NameFails(demangle, names[k], error)
  }

  /** One more of `names`. */
  lemma OneMoreName(demangle: Demangler, known: seq<string>, names: seq<string>, i: nat)
    requires i < |names|
    ensures NameSet(names[..i + 1]) == NameSet(names[..i]) + iset{names[i]}
    ensures AddNew(known, names[..i + 1]) == AddNew(AddNew(known, names[..i]), [names[i]])
    ensures NamesParse(demangle, names[..i + 1]) <==> NamesParse(demangle, names[..i]) && Nameable(demangle, names[i])
  {
    assert names[..i + 1] == names[..i] + [names[i]];
    AddNewConcat(known, names[..i], [names[i]]);
  }

  lemma TableInsert(demangle: Demangler, functionCaps: FunctionCaps, t: Table, mentioned: iset<string>, n: string,
                    f: Function)
    requires TableOf(demangle, functionCaps, t, mentioned)
    requires IsEntryOf(demangle, functionCaps, n, f)
    ensures TableOf(demangle, functionCaps, Upserted(t, n, f), mentioned + iset{n})
    ensures t.names <= Upserted(t, n, f).names
  {
    if n !in t.names {
      DistinctSnoc(t.names, n);
    }
  }

  /** The index edges are exactly the calls between the named functions. */
  ghost predicate EdgesOf(names: seq<string>, es: set<Edge<nat>>, modules: seq<Module>) {
    && Indexed(es, |names|)
    && forall i: nat, j: nat :: i < |names| && j < |names| ==>
         (Edge(i, j) in es <==> AnyMayCall(modules, names[i], names[j]))
  }

  lemma PrefixIndex(names: seq<string>, more: seq<string>, i: nat)
    requires names <= more && Distinct(more) && i < |more| && more[i] in names
    ensures i < |names|
  {
    var k :| 0 <= k < |names| && names[k] == more[i];
    SamePosition(more, i, k);
  }

  /** New names take no part in the calls of the modules added before. */
  lemma EdgesExtend(names: seq<string>, more: seq<string>, es: set<Edge<nat>>, modules: seq<Module>)
    requires EdgesOf(names, es, modules) && names <= more && Distinct(more)
    requires AllResolve(modules)
    requires forall n :: AnyMentions(modules, n) ==> n in names
    ensures EdgesOf(more, es, modules)
  {
    forall i: nat, j: nat | i < |more| && j < |more|
      ensures Edge(i, j) in es <==> AnyMayCall(modules, more[i], more[j])
    {
      if AnyMayCall(modules, more[i], more[j]) {
        var m :| m in modules && MayCallIn(m, more[i], more[j]);
        MayCallMentions(modules, m, more[i], more[j]);
        PrefixIndex(names, more, i);
        PrefixIndex(names, more, j);
      }
      if Edge(i, j) in es {
        assert Edge(i, j).src < |names| && Edge(i, j).dst < |names|;
      }
    }
  }

  class Builder {
    const demangle: Demangler
    const functionCaps: FunctionCaps
    const functions: FunctionMap
    var callGraph: DiGraph<nat>
    ghost var modules: seq<Module>  // those added so far

    ghost predicate Valid()
      reads this, functions
    {
      && functions.Valid()
      && AllResolve(modules)
      && TableOf(demangle, functionCaps, functions.View(), Mentioned(modules))
      && functions.names == FirstMentions(modules)
      && EdgesOf(functions.names, callGraph.EdgeSet(), modules)
    }

    constructor (demangle: Demangler, functionCaps: FunctionCaps)
      ensures Valid() && modules == [] && fresh(functions)
      ensures this.demangle == demangle && this.functionCaps == functionCaps
    {
      this.demangle := demangle;
      this.functionCaps := functionCaps;
      functions := new FunctionMap();
      callGraph := DiGraph([]);
      modules := [];
    }

    method UpsertName(name: string, ghost mentioned: iset<string>) returns (r: Result<nat, NameError>)
      requires functions.Valid() && TableOf(demangle, functionCaps, functions.View(), mentioned)
      modifies functions
      ensures functions.Valid() && old(functions.names) <= functions.names
      ensures r.Ok? <==> Nameable(demangle, name)
      ensures r.Ok? ==> TableOf(demangle, functionCaps, functions.View(), mentioned + iset{name})
      ensures r.Ok? ==> functions.names == AddNew(old(functions.names), [name])
      ensures r.Err? ==> NameFails(demangle, name, r.error)
    {
      ghost var t := functions.View();
      r := functions.UpsertWithCaps(demangle, functionCaps, name);
      if r.Ok? {
        ghost var f :| IsEntryOf(demangle, functionCaps, name, f) && functions.View() == Upserted(t, name, f);
        TableInsert(demangle, functionCaps, t, mentioned, name, f);
      }
    }

    /** Upserts the names in order; stops at the first that does not parse. */
    method UpsertNames(names: seq<string>, ghost mentioned: iset<string>) returns (r: Result<(), NameError>)
      requires functions.Valid() && TableOf(demangle, functionCaps, functions.View(), mentioned)
      modifies functions
      ensures functions.Valid() && old(functions.names) <= functions.names
      ensures r.Ok? <==> NamesParse(demangle, names)
      ensures r.Ok? ==> TableOf(demangle, functionCaps, functions.View(), mentioned + NameSet(names))
      ensures r.Ok? ==> functions.names == AddNew(old(functions.names), names)
      ensures r.Err? ==> exists k :: FirstFailing(demangle, names, k, r.error)
    {
      ghost var so := mentioned;
      for i := 0 to |names|
        invariant functions.Valid() && old(functions.names) <= functions.names
        invariant NamesParse(demangle, names[..i])
        invariant TableOf(demangle, functionCaps, functions.View(), so)
        invariant so == mentioned + NameSet(names[..i])
        invariant functions.names == AddNew(old(functions.names), names[..i])
      {
        var upserted := UpsertName(names[i], so);
        if upserted.Err? {
          assert FirstFailing(demangle, names, i, upserted.error);
          assert names[i] in names;
          return Err(upserted.error);
        }
        OneMoreName(demangle, old(functions.names), names, i);
        so := so + iset{names[i]};
      }
      assert names[..|names|] == names;
      r := Ok(());
    }

    /** All functions the module defines, then all it declares. */
    method UpsertFunctionMap(m: Module) returns (r: Result<(), NameError>)
      requires functions.Valid() && TableOf(demangle, functionCaps, functions.View(), Mentioned(modules))
      modifies functions
      ensures functions.Valid() && old(functions.names) <= functions.names
      ensures r.Ok? <==> MentionsParse(demangle, m)
      ensures r.Ok? ==> TableOf(demangle, functionCaps, functions.View(), Mentioned(modules + [m]))
      ensures r.Ok? ==> functions.names == AddNew(old(functions.names), NamesIn(m))
      ensures r.Err? ==> exists k :: FirstFailing(demangle, NamesIn(m), k, r.error)
    {
      var defined := FunctionNames(m.functions);
      MentionedMore(modules, m);
      AddNewConcat(functions.names, defined, m.funcDeclarations);
      NamesInParse(demangle, m);
      r := UpsertNames(defined, Mentioned(modules));
      if r.Err? {
        ghost var k :| FirstFailing(demangle, defined, k, r.error);
        FailsInFirst(demangle, defined, m.funcDeclarations, k, r.error);
      } else {
        r := UpsertNames(m.funcDeclarations, Mentioned(modules) + NameSet(defined));
        if r.Err? {
          ghost var k :| FirstFailing(demangle, m.funcDeclarations, k, r.error);
          FailsInSecond(demangle, defined, m.funcDeclarations, k, r.error);
        }
      }
    }

    /** The edges of the module's own call graph, translated to indices; every name has one. */
    method UpsertCallGraph(m: Module)
      requires functions.Valid() && Resolves(modules + [m], m)
      requires forall n :: AnyMentions(modules + [m], n) ==> n in functions.names
      requires EdgesOf(functions.names, callGraph.EdgeSet(), modules)
      modifies this`callGraph
      ensures EdgesOf(functions.names, callGraph.EdgeSet(), modules + [m])
    {
      var fbt := CallGraphs.NewFunctionsByType([m]);
      var inner := CallGraphs.New([m], fbt);
      forall a, b ensures Edge(a, b) in inner.edges <==> MayCallIn(m, a, b) {
        assert Edge(a, b) in inner.edges <==> Edge(a, b) in inner.EdgeSet();
        assert CallGraphs.CallsThrough([m], fbt.Listing(), a, b) <==> MayCallIn(m, a, b);
      }
      ghost var names := functions.names;
      for i := 0 to |inner.edges|
        invariant AddedUpTo(names, callGraph.EdgeSet(), modules, inner.edges[..i])
      {
        var e := inner.edges[i];
        assert e == Edge(e.src, e.dst) && e in inner.edges;
        MayCallMentions(modules + [m], m, e.src, e.dst);
        var caller := functions.GetIndex(e.src).value;
        var callee := functions.GetIndex(e.dst).value;
        assert inner.edges[..i + 1] == inner.edges[..i] + [e];
        AddedMore(names, callGraph.EdgeSet(), modules, inner.edges[..i], e);
        callGraph := callGraph.AddEdge(caller, callee);
      }
      assert inner.edges[..|inner.edges|] == inner.edges;
      forall a, b
        ensures AnyMayCall(modules + [m], a, b) <==> AnyMayCall(modules, a, b) || Edge(a, b) in inner.edges
      {
        assert Edge(a, b) in inner.edges <==> MayCallIn(m, a, b);
      }
    }

    /** `add_module`: succeeds exactly when every name the module mentions parses. Only then are its
        calls looked at, and a callee that is in no module so far is a panic. */
    method AddModule(m: Module) returns (r: Result<(), NameError>)
      requires Valid() && (MentionsParse(demangle, m) ==> Resolves(modules + [m], m))
      modifies this, functions
      ensures r.Ok? <==> MentionsParse(demangle, m)
      ensures r.Ok? ==> Valid() && modules == old(modules) + [m]
      ensures r.Err? ==> exists k :: FirstFailing(demangle, NamesIn(m), k, r.error)
    {
      ghost var names := functions.names;
      r := UpsertFunctionMap(m);
      if r.Ok? {
        EdgesExtend(names, functions.names, callGraph.EdgeSet(), modules);
        forall n | AnyMentions(modules + [m], n) ensures n in functions.names {
          assert n in Mentioned(modules + [m]);
        }
        UpsertCallGraph(m);
        forall other | other in modules ensures Resolves(modules + [m], other) {
          ResolvesMore(modules, modules + [m], other);
        }
        modules := modules + [m];
      }
    }

    /** `into_report`: bubble, then take the functions, the edges and all capabilities. */
    method IntoReport() returns (report: Report)
      requires Valid()
      modifies functions
      ensures ReportOf(demangle, functionCaps, report, FirstMentions(modules), modules)
    {
      ghost var t := functions.View();
      BubbleTransitiveCapabilities(callGraph, functions);
      var reported := functions.functions;
      var capabilities: set<Capability> := {};
      for i := 0 to |reported|
        invariant forall cap :: cap in capabilities <==> exists f <- reported[..i] :: cap in f.capabilities
      {
        capabilities := capabilities + reported[i].capabilities.Keys;
        assert reported[..i + 1] == reported[..i] + [reported[i]];
      }
      assert reported[..|reported|] == reported;
      BubbledIsReportOf(demangle, functionCaps, t, callGraph.edges, modules, reported, capabilities);
      report := Report(Process(capabilities, reported, callGraph.edges), []);
    }
  }

  // ---------- From index paths to call chains ----------

  lemma PathToChain(names: seq<string>, es: set<Edge<nat>>, modules: seq<Module>, i: nat, j: nat, p: seq<nat>)
    requires EdgesOf(names, es, modules) && i < |names| && j < |names| && IsPath(es, i, j, p)
    ensures CallChain(modules, names[i], names[j])
  {
    forall k | 0 <= k < |p| ensures p[k] < |names| {
      if k + 1 < |p| {
        assert Linked(es, p, k);
        assert Edge(p[k], p[k + 1]).src < |names|;
      }
    }
    var chain := seq(|p|, k requires 0 <= k < |p| => names[p[k]]);
    forall k | 0 <= k < |chain| - 1 ensures ChainLink(modules, chain, k) {
      assert Linked(es, p, k);
    }
    assert IsCallChain(modules, names[i], names[j], chain);
  }

  /** Everything on a chain from a mentioned name is mentioned. */
  lemma {:induction false} ChainMentioned(modules: seq<Module>, f: string, g: string, chain: seq<string>, k: nat)
    requires IsCallChain(modules, f, g, chain) && AnyMentions(modules, f) && k < |chain|
    requires AllResolve(modules)
    ensures AnyMentions(modules, chain[k])
  {
    if k > 0 {
      assert ChainLink(modules, chain, k - 1);
      var m :| m in modules && MayCallIn(m, chain[k - 1], chain[k]);
      MayCallMentions(modules, m, chain[k - 1], chain[k]);
    }
  }

  lemma ChainToPath(names: seq<string>, es: set<Edge<nat>>, modules: seq<Module>, i: nat, g: string, chain: seq<string>)
    requires EdgesOf(names, es, modules) && Distinct(names) && i < |names|
    requires forall n :: n in names <==> AnyMentions(modules, n)
    requires AllResolve(modules)
    requires IsCallChain(modules, names[i], g, chain)
    ensures g in names && Reaches(es, i, IndexOf(names, g))
  {
    forall k | 0 <= k < |chain| ensures chain[k] in names {
      ChainMentioned(modules, names[i], g, chain, k);
    }
    var p := seq(|chain|, k requires 0 <= k < |chain| => IndexOf(names, chain[k]));
    forall k | 0 <= k < |p| - 1 ensures Linked(es, p, k) {
      assert ChainLink(modules, chain, k);
    }
    IndexUnique(names, i);
    assert IsPath(es, i, IndexOf(names, g), p);
  }

  lemma TableListed(demangle: Demangler, functionCaps: FunctionCaps, t: Table, mentioned: iset<string>, j: nat)
    requires TableOf(demangle, functionCaps, t, mentioned) && j < |t.names|
    ensures t.functions[j].capabilities.Keys == Listed(demangle, functionCaps, t.names[j])
  {
  }

  lemma InheritsIsChained(
      demangle: Demangler, functionCaps: FunctionCaps, t: Table, es: set<Edge<nat>>, modules: seq<Module>, i: nat,
      cap: Capability)
    requires TableOf(demangle, functionCaps, t, Mentioned(modules)) && EdgesOf(t.names, es, modules)
    requires i < |t.names| && Inherits(es, t.functions, i, cap)
    ensures ChainsToListed(demangle, functionCaps, modules, t.names[i], cap)
  {
    var j: nat :| j < |t.functions| && Reaches(es, i, j) && cap in t.functions[j].capabilities;
    var p :| IsPath(es, i, j, p);
    PathToChain(t.names, es, modules, i, j, p);
    TableListed(demangle, functionCaps, t, Mentioned(modules), j);
    assert t.names[j] in Mentioned(modules);
  }

  lemma ChainedInherits(
      demangle: Demangler, functionCaps: FunctionCaps, t: Table, es: set<Edge<nat>>, modules: seq<Module>, i: nat,
      cap: Capability)
    requires TableOf(demangle, functionCaps, t, Mentioned(modules)) && EdgesOf(t.names, es, modules)
    requires AllResolve(modules) && i < |t.names|
    ensures ChainsToListed(demangle, functionCaps, modules, t.names[i], cap) ==> Inherits(es, t.functions, i, cap)
  {
    if g :| CallChain(modules, t.names[i], g) && AnyMentions(modules, g) && cap in Listed(demangle, functionCaps, g) {
      var chain :| IsCallChain(modules, t.names[i], g, chain);
      ChainToPath(t.names, es, modules, i, g, chain);
      TableListed(demangle, functionCaps, t, Mentioned(modules), IndexOf(t.names, g));
    }
  }

  /** Inheriting along the index edges is chaining to a function with the capability listed. */
  lemma InheritsIsChaining(
      demangle: Demangler, functionCaps: FunctionCaps, t: Table, es: set<Edge<nat>>, modules: seq<Module>, i: nat,
      cap: Capability)
    requires TableOf(demangle, functionCaps, t, Mentioned(modules)) && EdgesOf(t.names, es, modules)
    requires AllResolve(modules) && i < |t.names|
    ensures Inherits(es, t.functions, i, cap) <==>
            ChainsToListed(demangle, functionCaps, modules, t.names[i], cap)
  {
    if Inherits(es, t.functions, i, cap) {
      InheritsIsChained(demangle, functionCaps, t, es, modules, i, cap);
    }
    ChainedInherits(demangle, functionCaps, t, es, modules, i, cap);
  }

  lemma BubbledEntry(
      demangle: Demangler, functionCaps: FunctionCaps, t: Table, es: set<Edge<nat>>, modules: seq<Module>,
      after: seq<Function>, i: nat)
    requires TableOf(demangle, functionCaps, t, Mentioned(modules)) && EdgesOf(t.names, es, modules)
    requires AllResolve(modules) && IsBubbled(es, t.functions, after) && i < |t.names|
    ensures FunctionOf(demangle, functionCaps, after[i], t.names[i], modules)
  {
    assert KeepsOwn(t.functions[i], after[i]);
    TableListed(demangle, functionCaps, t, Mentioned(modules), i);
    forall cap
      ensures cap in after[i].capabilities <==>
              ChainsToListed(demangle, functionCaps, modules, t.names[i], cap)
    {
      InheritsIsChaining(demangle, functionCaps, t, es, modules, i, cap);
      assert cap in after[i].capabilities <==> Inherits(es, t.functions, i, cap);
    }
  }

  /** All capabilities of the entries are all capabilities listed for a name. */
  lemma BubbledOverall(
      demangle: Demangler, functionCaps: FunctionCaps, t: Table, es: set<Edge<nat>>, modules: seq<Module>,
      after: seq<Function>, cap: Capability)
    requires TableOf(demangle, functionCaps, t, Mentioned(modules)) && EdgesOf(t.names, es, modules)
    requires AllResolve(modules) && IsBubbled(es, t.functions, after)
    ensures (exists f <- after :: cap in f.capabilities) <==>
            exists n :: AnyMentions(modules, n) && cap in Listed(demangle, functionCaps, n)
  {
    if f :| f in after && cap in f.capabilities {
      var i: nat :| i < |after| && after[i] == f;
      BubbledEntry(demangle, functionCaps, t, es, modules, after, i);
      assert ChainsToListed(demangle, functionCaps, modules, t.names[i], cap);
    }
    if n :| AnyMentions(modules, n) && cap in Listed(demangle, functionCaps, n) {
      assert n in Mentioned(modules);
      var i := IndexOf(t.names, n);
      TableListed(demangle, functionCaps, t, Mentioned(modules), i);
      assert KeepsOwn(t.functions[i], after[i]) && cap in t.functions[i].capabilities;
      assert after[i] in after;
    }
  }

  lemma BubbledIsReportOf(
      demangle: Demangler, functionCaps: FunctionCaps, t: Table, edges: seq<Edge<nat>>, modules: seq<Module>,
      after: seq<Function>, caps: set<Capability>)
    requires TableOf(demangle, functionCaps, t, Mentioned(modules))
    requires EdgesOf(t.names, (set e | e in edges), modules) && AllResolve(modules)
    requires IsBubbled((set e | e in edges), t.functions, after)
    requires forall cap :: cap in caps <==> exists f <- after :: cap in f.capabilities
    ensures ReportOf(demangle, functionCaps, Report(Process(caps, after, edges), []), t.names, modules)
  {
    var es := set e | e in edges;
    forall i: nat | i < |t.names| ensures FunctionOf(demangle, functionCaps, after[i], t.names[i], modules) {
      BubbledEntry(demangle, functionCaps, t, es, modules, after, i);
    }
    forall cap
      ensures cap in caps <==> exists n :: AnyMentions(modules, n) && cap in Listed(demangle, functionCaps, n)
    {
      BubbledOverall(demangle, functionCaps, t, es, modules, after, cap);
    }
  }

  lemma NamesInParse(demangle: Demangler, m: Module)
    ensures forall n :: n in NamesIn(m) <==> Mentions(m, n)
    ensures NamesParse(demangle, NamesIn(m)) <==> MentionsParse(demangle, m)
  {
  }

  lemma FailsInFirst(demangle: Demangler, names: seq<string>, more: seq<string>, k: nat, error: NameError)
    requires FirstFailing(demangle, names, k, error)
    ensures FirstFailing(demangle, names + more, k, error)
  {
    assert (names + more)[..k] == names[..k];
  }

  lemma FailsInSecond(demangle: Demangler, names: seq<string>, more: seq<string>, k: nat, error: NameError)
    requires NamesParse(demangle, names) && FirstFailing(demangle, more, k, error)
    ensures FirstFailing(demangle, names + more, |names| + k, error)
  {
    assert (names + more)[..|names| + k] == names + more[..k];
  }

  function FunctionNames(functions: seq<LlvmIr.Function>): (names: seq<string>)
    ensures forall n :: n in names <==> exists f <- functions :: f.name == n
    ensures |names| == |functions| && forall i :: 0 <= i < |names| ==> names[i] == functions[i].name
  {
    if functions == [] then [] else [functions[0].name] + FunctionNames(functions[1..])
  }

  lemma MentionedMore(modules: seq<Module>, m: Module)
    ensures Mentioned(modules + [m]) ==
            Mentioned(modules) + NameSet(FunctionNames(m.functions)) + NameSet(m.funcDeclarations)
  {
    forall n ensures AnyMentions(modules + [m], n) <==> AnyMentions(modules, n) || Mentions(m, n) {
    }
  }

  /** The calls of `modules` and the name edges `added` have been translated. */
  ghost predicate AddedUpTo(names: seq<string>, es: set<Edge<nat>>, modules: seq<Module>, added: seq<Edge<string>>) {
    && Indexed(es, |names|)
    && forall i: nat, j: nat :: i < |names| && j < |names| ==>
         (Edge(i, j) in es <==> AnyMayCall(modules, names[i], names[j]) || Edge(names[i], names[j]) in added)
  }

  lemma AddedMore(names: seq<string>, es: set<Edge<nat>>, modules: seq<Module>, added: seq<Edge<string>>,
                  e: Edge<string>)
    requires Distinct(names) && AddedUpTo(names, es, modules, added) && e.src in names && e.dst in names
    ensures AddedUpTo(names, es + {Edge(IndexOf(names, e.src), IndexOf(names, e.dst))}, modules, added + [e])
  {
    var more := es + {Edge(IndexOf(names, e.src), IndexOf(names, e.dst))};
    forall i: nat, j: nat | i < |names| && j < |names|
      ensures Edge(i, j) in more <==>
              AnyMayCall(modules, names[i], names[j]) || Edge(names[i], names[j]) in added + [e]
    {
      IndexUnique(names, i);
      IndexUnique(names, j);
    }
  }
}
