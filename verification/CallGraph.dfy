/** Which functions may call which (functions_by_type.rs, call_graph.rs). */
module CallGraphs {
  import opened LlvmIr
  import opened Graphs

  // ---------- Functions by type ----------

  /** A function name together with the type the function is defined with. */
  datatype Typed = Typed(name: string, ty: TypeRef)

  datatype FunctionsByType = FunctionsByType(table: map<TypeRef, set<string>>) {
    function FunctionsWithType(ty: TypeRef): set<string> {
      if ty in table then table[ty] else {}
    }

    /** All names listed, each with the type it is listed under. */
    ghost function Listing(): iset<Typed> {
      iset t: Typed | t.name in FunctionsWithType(t.ty)
    }
  }

  /** Some function defined in the modules has this name and type. */
  ghost predicate DefinesTyped(modules: seq<Module>, name: string, ty: TypeRef) {
    exists m <- modules :: exists f <- m.functions :: f.name == name && f.ty == ty
  }

  ghost function DefinedIn(modules: seq<Module>): iset<Typed> {
    iset t: Typed | DefinesTyped(modules, t.name, t.ty)
  }

  ghost predicate ListedTyped(functions: seq<Function>, name: string, ty: TypeRef) {
    exists f <- functions :: f.name == name && f.ty == ty
  }

  method NewFunctionsByType(modules: seq<Module>) returns (fbt: FunctionsByType)
    ensures fbt.Listing() == DefinedIn(modules)
  {
    fbt := FunctionsByType(map[]);
    for i := 0 to |modules|
      invariant forall name, ty :: name in fbt.FunctionsWithType(ty) <==> DefinesTyped(modules[..i], name, ty)
    {
      ghost var before := fbt;
      var functions := modules[i].functions;
      for j := 0 to |functions|
        invariant forall name, ty :: name in fbt.FunctionsWithType(ty) <==>
                    name in before.FunctionsWithType(ty) || ListedTyped(functions[..j], name, ty)
      {
        var f := functions[j];
        fbt := FunctionsByType(fbt.table[f.ty := fbt.FunctionsWithType(f.ty) + {f.name}]);
        assert functions[..j + 1] == functions[..j] + [f];
      }
      assert functions[..|functions|] == functions;
      assert modules[..i + 1] == modules[..i] + [modules[i]];
      forall name, ty ensures DefinesTyped(modules[..i + 1], name, ty) <==>
                              DefinesTyped(modules[..i], name, ty) || ListedTyped(functions, name, ty)
      {
      }
    }
    assert modules[..|modules|] == modules;
  }

  // ---------- Call sites ----------

  function InstrCallees(instrs: seq<Instruction>): (callees: seq<Callee>)
    ensures forall c :: c in callees <==> Call(c) in instrs
  {
    if instrs == [] then []
    else
      var callees := InstrCallees(instrs[..|instrs| - 1]);
      var last := instrs[|instrs| - 1];
      assert instrs == instrs[..|instrs| - 1] + [last];
      if last.Call? then callees + [last.callee] else callees
  }

  /** The block contains a call or ends in an invoke of `callee`. */
  ghost predicate BlockCalls(bb: BasicBlock, callee: Callee) {
    Call(callee) in bb.instrs || (bb.term.Invoke? && bb.term.callee == callee)
  }

  ghost predicate FunctionCalls(f: Function, callee: Callee) {
    exists bb <- f.basicBlocks :: BlockCalls(bb, callee)
  }

  /** The functions a call site may land on, pointers among the `typed` ones. Inline assembly lands
      on none. */
  ghost predicate MayLandOn(callee: Callee, typed: iset<Typed>, target: string) {
    match callee
    case GlobalReference(name) => name == Name.Name(target)
    case ConstantPointer(ty) => Typed(target, ty) in typed
    case OtherOperand(ty) => Typed(target, ty) in typed
    case InlineAssembly => false
  }

  /** Some call site of a function of this name may land on `target`. */
  ghost predicate CallsThrough(modules: seq<Module>, typed: iset<Typed>, caller: string, target: string) {
    exists m <- modules :: ModuleCalls(m, typed, caller, target)
  }

  ghost predicate ModuleCalls(m: Module, typed: iset<Typed>, caller: string, target: string) {
    exists f <- m.functions :: f.name == caller && FunctionMayCall(f, typed, target)
  }

  ghost predicate FunctionMayCall(f: Function, typed: iset<Typed>, target: string) {
    exists callee :: FunctionCalls(f, callee) && MayLandOn(callee, typed, target)
  }

  /** Numbered function names are not supported by the original. */
  ghost predicate NamedCallee(callee: Callee) {
    callee.GlobalReference? ==> callee.name.Name?
  }

  ghost predicate NamedCalls(f: Function) {
    forall callee :: FunctionCalls(f, callee) ==> NamedCallee(callee)
  }

  // ---------- Construction ----------

  method AddEdges(graph: DiGraph<string>, caller: string, targets: set<string>) returns (g: DiGraph<string>)
    requires graph.Valid()
    ensures g.Valid()
    ensures forall a, b :: Edge(a, b) in g.EdgeSet() <==> Edge(a, b) in graph.EdgeSet() || (a == caller && b in targets)
  {
    g := graph;
    var left := targets;
    while left != {}
      invariant g.Valid() && left <= targets
      invariant forall a, b :: Edge(a, b) in g.EdgeSet() <==>
                  Edge(a, b) in graph.EdgeSet() || (a == caller && b in targets && b !in left)
    {
      var target :| target in left;
      g := g.AddEdge(caller, target);
      left := left - {target};
    }
  }

  /** The closure that adds the edges of one call site. */
  method AddEdgeForCall(graph: DiGraph<string>, caller: string, callee: Callee, fbt: FunctionsByType)
    returns (g: DiGraph<string>)
    requires graph.Valid() && NamedCallee(callee)
    ensures g.Valid()
    ensures forall a, b :: Edge(a, b) in g.EdgeSet() <==>
              Edge(a, b) in graph.EdgeSet() || (a == caller && MayLandOn(callee, fbt.Listing(), b))
  {
    match callee {
      case GlobalReference(name) => g := graph.AddEdge(caller, name.text);
      case ConstantPointer(ty) => g := AddEdges(graph, caller, fbt.FunctionsWithType(ty));
      case OtherOperand(ty) => g := AddEdges(graph, caller, fbt.FunctionsWithType(ty));
      case InlineAssembly => g := graph;
    }
  }

  method AddCallees(graph: DiGraph<string>, caller: string, callees: seq<Callee>, fbt: FunctionsByType)
    returns (g: DiGraph<string>)
    requires graph.Valid() && forall c <- callees :: NamedCallee(c)
    ensures g.Valid()
    ensures forall a, b :: Edge(a, b) in g.EdgeSet() <==>
              Edge(a, b) in graph.EdgeSet() || (a == caller && exists c <- callees :: MayLandOn(c, fbt.Listing(), b))
  {
    g := graph;
    for i := 0 to |callees|
      invariant g.Valid()
      invariant forall a, b :: Edge(a, b) in g.EdgeSet() <==>
                  || Edge(a, b) in graph.EdgeSet()
                  || (a == caller && exists c <- callees[..i] :: MayLandOn(c, fbt.Listing(), b))
    {
      g := AddEdgeForCall(g, caller, callees[i], fbt);
      assert callees[..i + 1] == callees[..i] + [callees[i]];
    }
    assert callees[..|callees|] == callees;
  }

  ghost predicate BlocksMayCall(bbs: seq<BasicBlock>, typed: iset<Typed>, target: string) {
    exists callee, bb :: bb in bbs && BlockCalls(bb, callee) && MayLandOn(callee, typed, target)
  }

  method AddFunction(graph: DiGraph<string>, f: Function, fbt: FunctionsByType) returns (g: DiGraph<string>)
    requires graph.Valid() && NamedCalls(f)
    ensures g.Valid()
    ensures forall a, b :: Edge(a, b) in g.EdgeSet() <==>
              Edge(a, b) in graph.EdgeSet() || (a == f.name && FunctionMayCall(f, fbt.Listing(), b))
  {
    g := graph;
    for i := 0 to |f.basicBlocks|
      invariant g.Valid()
      invariant forall a, b :: Edge(a, b) in g.EdgeSet() <==>
                  Edge(a, b) in graph.EdgeSet() || (a == f.name && BlocksMayCall(f.basicBlocks[..i], fbt.Listing(), b))
    {
      var bb := f.basicBlocks[i];
      forall c | BlockCalls(bb, c) ensures NamedCallee(c) {
        assert FunctionCalls(f, c);
      }
      var callees := InstrCallees(bb.instrs);
      forall c ensures (c in callees || (bb.term.Invoke? && bb.term.callee == c)) <==> BlockCalls(bb, c) {
      }
      g := AddCallees(g, f.name, callees, fbt);
      if bb.term.Invoke? {
        g := AddEdgeForCall(g, f.name, bb.term.callee, fbt);
      }
      assert f.basicBlocks[..i + 1] == f.basicBlocks[..i] + [bb];
      BlocksMayCallMore(f.basicBlocks, i, fbt.Listing());
    }
    assert f.basicBlocks[..|f.basicBlocks|] == f.basicBlocks;
    forall b ensures BlocksMayCall(f.basicBlocks, fbt.Listing(), b) <==> FunctionMayCall(f, fbt.Listing(), b) {
      if BlocksMayCall(f.basicBlocks, fbt.Listing(), b) {
        var callee, bb :| bb in f.basicBlocks && BlockCalls(bb, callee) && MayLandOn(callee, fbt.Listing(), b);
        assert FunctionCalls(f, callee);
      }
    }
  }

  lemma BlocksMayCallMore(bbs: seq<BasicBlock>, i: nat, typed: iset<Typed>)
    requires i < |bbs|
    ensures forall b :: BlocksMayCall(bbs[..i + 1], typed, b) <==>
              || BlocksMayCall(bbs[..i], typed, b)
              || exists callee :: BlockCalls(bbs[i], callee) && MayLandOn(callee, typed, b)
  {
    assert bbs[..i + 1] == bbs[..i] + [bbs[i]];
    forall b, callee | BlockCalls(bbs[i], callee) && MayLandOn(callee, typed, b)
      ensures BlocksMayCall(bbs[..i + 1], typed, b)
    {
      assert bbs[i] in bbs[..i + 1];
    }
    forall b | BlocksMayCall(bbs[..i], typed, b) ensures BlocksMayCall(bbs[..i + 1], typed, b) {
      var callee, bb :| bb in bbs[..i] && BlockCalls(bb, callee) && MayLandOn(callee, typed, b);
      assert bb in bbs[..i + 1];
    }
  }

  method AddModule(graph: DiGraph<string>, m: Module, fbt: FunctionsByType) returns (g: DiGraph<string>)
    requires graph.Valid() && forall f <- m.functions :: NamedCalls(f)
    ensures g.Valid()
    ensures forall a, b :: Edge(a, b) in g.EdgeSet() <==>
              Edge(a, b) in graph.EdgeSet() || ModuleCalls(m, fbt.Listing(), a, b)
  {
    g := graph;
    for i := 0 to |m.functions|
      invariant g.Valid()
      invariant forall a, b :: Edge(a, b) in g.EdgeSet() <==>
                  || Edge(a, b) in graph.EdgeSet()
                  || exists f <- m.functions[..i] :: f.name == a && FunctionMayCall(f, fbt.Listing(), b)
    {
      g := AddFunction(g, m.functions[i], fbt);
      assert m.functions[..i + 1] == m.functions[..i] + [m.functions[i]];
    }
    assert m.functions[..|m.functions|] == m.functions;
  }

  /** `CallGraph::new`: an edge exactly where a call site may land. */
  method New(modules: seq<Module>, fbt: FunctionsByType) returns (g: DiGraph<string>)
    requires forall m <- modules :: forall f <- m.functions :: NamedCalls(f)
    ensures g.Valid()
    ensures forall a, b :: Edge(a, b) in g.EdgeSet() <==> CallsThrough(modules, fbt.Listing(), a, b)
  {
    g := DiGraph([]);
    for i := 0 to |modules|
      invariant g.Valid()
      invariant forall a, b :: Edge(a, b) in g.EdgeSet() <==> CallsThrough(modules[..i], fbt.Listing(), a, b)
    {
      g := AddModule(g, modules[i], fbt);
      assert modules[..i + 1] == modules[..i] + [modules[i]];
    }
    assert modules[..|modules|] == modules;
  }
}
