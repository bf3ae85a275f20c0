/** The static analysis end to end (static/mod.rs): all modules in some order, then the report;
    and what the report does not depend on. */
module StaticAnalysis {
  import opened Wrappers
  import opened Graphs
  import opened Reports
  import opened Functions
  import opened Bitcode

  ghost predicate AllParse(demangle: Demangler, modules: seq<Module>) {
    forall n :: AnyMentions(modules, n) ==> Nameable(demangle, n)
  }

  /** No module is added whose names all parse while a callee of it is in no module so far. */
  ghost predicate Accepted(demangle: Demangler, modules: seq<Module>) {
    forall i :: 0 <= i < |modules| ==> AcceptedAt(demangle, modules, i)
  }

  ghost predicate AcceptedAt(demangle: Demangler, modules: seq<Module>, i: nat)
    requires i < |modules|
  {
    AllParse(demangle, modules[..i + 1]) ==> Resolves(modules[..i + 1], modules[i])
  }

  /** Modules that define or declare whatever they call are accepted in every order. */
  lemma SelfContainedAccepted(demangle: Demangler, modules: seq<Module>)
    requires forall m <- modules :: Resolves([m], m)
    ensures Accepted(demangle, modules)
  {
    forall i | 0 <= i < |modules| ensures AcceptedAt(demangle, modules, i) {
      assert modules[..i + 1][i] == modules[i];
      ResolvesMore([modules[i]], modules[..i + 1], modules[i]);
    }
  }

  /** Of all names in the order of their mentions, the `k`th of module `i` is the first that fails. */
  ghost predicate FirstFailure(demangle: Demangler, modules: seq<Module>, i: nat, k: nat, error: NameError) {
    i < |modules| && AllParse(demangle, modules[..i]) && FirstFailing(demangle, NamesIn(modules[i]), k, error)
  }

  /** Adds the modules one by one and reports; the first name that fails ends the analysis. */
  method Analyze(demangle: Demangler, functionCaps: FunctionCaps, modules: seq<Module>)
    returns (r: Result<Report, NameError>)
    requires Accepted(demangle, modules)
    ensures r.Ok? <==> AllParse(demangle, modules)
    ensures r.Ok? ==>
              AllResolve(modules) && ReportOf(demangle, functionCaps, r.value, FirstMentions(modules), modules)
    ensures r.Err? ==> exists i, k :: FirstFailure(demangle, modules, i, k, r.error)
  {
    var builder := new Builder(demangle, functionCaps);
    for i := 0 to |modules|
      invariant builder.Valid() && builder.modules == modules[..i] && fresh(builder) && fresh(builder.functions)
      invariant builder.demangle == demangle && builder.functionCaps == functionCaps
      invariant AllParse(demangle, modules[..i])
    {
      assert modules[..i + 1] == modules[..i] + [modules[i]];
      assert AcceptedAt(demangle, modules, i);
      assert AllParse(demangle, modules[..i + 1]) <==> MentionsParse(demangle, modules[i]);
      var added := builder.AddModule(modules[i]);
      if added.Err? {
        ghost var k :| FirstFailing(demangle, NamesIn(modules[i]), k, added.error);
        assert FirstFailure(demangle, modules, i, k, added.error);
        assert modules[i] in modules;
        return Err(added.error);
      }
    }
    assert modules[..|modules|] == modules;
    var report := builder.IntoReport();
    r := Ok(report);
  }

  /** Soundness: whatever a function chains to, through direct calls in any module and pointer calls
      to functions of the caller's module, brings its listed capabilities to the function's entry. */
  lemma ChainedCapabilityReported(
      demangle: Demangler, functionCaps: FunctionCaps, report: Report, names: seq<string>, modules: seq<Module>,
      f: string, g: string, chain: seq<string>, cap: Capability)
    requires AllResolve(modules) && ReportOf(demangle, functionCaps, report, names, modules)
    requires AnyMentions(modules, f) && IsCallChain(modules, f, g, chain) && cap in Listed(demangle, functionCaps, g)
    ensures f in names && cap in report.process.functions[IndexOf(names, f)].capabilities
    ensures cap in report.process.capabilities
  {
    ChainMentioned(modules, f, g, chain, |chain| - 1);
    var i := IndexOf(names, f);
    assert FunctionOf(demangle, functionCaps, report.process.functions[i], f, modules);
    assert ChainsToListed(demangle, functionCaps, modules, f, cap);
  }

  // ---------- Module order ----------

  /** The same modules, in any order and however often. */
  ghost predicate SameModules(modules: seq<Module>, others: seq<Module>) {
    forall m :: m in modules <==> m in others
  }

  lemma SameMeaning(demangle: Demangler, functionCaps: FunctionCaps, modules: seq<Module>, others: seq<Module>)
    requires SameModules(modules, others)
    ensures forall n :: AnyMentions(modules, n) <==> AnyMentions(others, n)
    ensures forall a, b :: AnyMayCall(modules, a, b) <==> AnyMayCall(others, a, b)
    ensures AllParse(demangle, modules) <==> AllParse(demangle, others)
  {
  }

  lemma SameChains(modules: seq<Module>, others: seq<Module>, f: string, g: string)
    requires SameModules(modules, others) && CallChain(modules, f, g)
    ensures CallChain(others, f, g)
  {
    var chain :| IsCallChain(modules, f, g, chain);
    forall i | 0 <= i < |chain| - 1 ensures ChainLink(others, chain, i) {
      assert ChainLink(modules, chain, i);
    }
    assert IsCallChain(others, f, g, chain);
  }

  lemma SameChainsToListed(
      demangle: Demangler, functionCaps: FunctionCaps, modules: seq<Module>, others: seq<Module>, f: string,
      cap: Capability)
    requires SameModules(modules, others)
    ensures ChainsToListed(demangle, functionCaps, modules, f, cap) ==>
              ChainsToListed(demangle, functionCaps, others, f, cap)
  {
    SameMeaning(demangle, functionCaps, modules, others);
    if g :| CallChain(modules, f, g) && AnyMentions(modules, g) && cap in Listed(demangle, functionCaps, g) {
      SameChains(modules, others, f, g);
    }
  }

  lemma SameEntry(
      demangle: Demangler, functionCaps: FunctionCaps, modules: seq<Module>, others: seq<Module>, f: Function,
      f': Function, mangled: string)
    requires SameModules(modules, others)
    requires FunctionOf(demangle, functionCaps, f, mangled, modules)
    requires FunctionOf(demangle, functionCaps, f', mangled, others)
    ensures f == f'
  {
    MangledNameExactly(demangle, mangled);
    forall cap ensures cap in f.capabilities <==> cap in f'.capabilities {
      SameChainsToListed(demangle, functionCaps, modules, others, mangled, cap);
      SameChainsToListed(demangle, functionCaps, others, modules, mangled, cap);
    }
    assert f.capabilities == f'.capabilities;
  }

  /** The entries of equal names are equal. */
  ghost predicate EntriesAgree(names: seq<string>, fs: seq<Function>, names': seq<string>, fs': seq<Function>) {
    && |names| == |fs| && |names'| == |fs'|
    && forall i, j :: 0 <= i < |names| && 0 <= j < |names'| && names[i] == names'[j] ==> fs[i] == fs'[j]
  }

  /** Two lists of entries, each tied to its own list of the same names, hold the same entries. */
  lemma {:induction false} SameEntriesPermuted(names: seq<string>, fs: seq<Function>, names': seq<string>,
                                               fs': seq<Function>)
    requires Distinct(names) && Distinct(names') && EntriesAgree(names, fs, names', fs')
    requires Elems(names) == Elems(names')
    ensures multiset(fs) == multiset(fs')
    decreases |names|
  {
    if names == [] {
      NoElems(names');
    } else {
      var last := |names| - 1;
      assert names[last] in Elems(names');
      var k :| 0 <= k < |names'| && names'[k] == names[last];
      DropLast(names);
      WithoutOne(names', k);
      AgreeWithout(names, fs, names', fs', k);
      SameEntriesPermuted(names[..last], fs[..last], names'[..k] + names'[k + 1..], fs'[..k] + fs'[k + 1..]);
      MultisetWithout(fs, last);
      MultisetWithout(fs', k);
      assert fs[..last] + fs[last + 1..] == fs[..last];
    }
  }

  lemma NoElems(names: seq<string>)
    ensures Elems(names) == {} <==> names == []
  {
    if names != [] {
      assert names[0] in Elems(names);
    }
  }

  lemma MultisetWithout(fs: seq<Function>, k: nat)
    requires k < |fs|
    ensures multiset(fs) == multiset(fs[..k] + fs[k + 1..]) + multiset{fs[k]}
  {
    assert fs == fs[..k] + [fs[k]] + fs[k + 1..];
  }

  lemma AgreeWithout(names: seq<string>, fs: seq<Function>, names': seq<string>, fs': seq<Function>, k: nat)
    requires EntriesAgree(names, fs, names', fs') && names != [] && k < |names'|
    ensures EntriesAgree(names[..|names| - 1], fs[..|names| - 1],
                         names'[..k] + names'[k + 1..], fs'[..k] + fs'[k + 1..])
  {
    var last, rest, frest := |names| - 1, names'[..k] + names'[k + 1..], fs'[..k] + fs'[k + 1..];
    forall i, j | 0 <= i < last && 0 <= j < |rest| && names[..last][i] == rest[j] ensures fs[..last][i] == frest[j] {
      var at := if j < k then j else j + 1;
      assert rest[j] == names'[at] && frest[j] == fs'[at];
      assert names[i] == names'[at];
    }
  }

  lemma DropLast(names: seq<string>)
    requires Distinct(names) && names != []
    ensures Distinct(names[..|names| - 1])
    ensures Elems(names[..|names| - 1]) == Elems(names) - {names[|names| - 1]}
  {
    var last := |names| - 1;
    DistinctPrefix(names, last);
    forall n ensures n in names[..last] <==> n in names && n != names[last] {
      if n in names[..last] {
        var i :| 0 <= i < last && names[i] == n;
        assert Differ(names, i, last);
      }
    }
  }

  lemma WithoutOne(names: seq<string>, k: nat)
    requires Distinct(names) && k < |names|
    ensures Distinct(names[..k] + names[k + 1..])
    ensures Elems(names[..k] + names[k + 1..]) == Elems(names) - {names[k]}
  {
    var rest := names[..k] + names[k + 1..];
    forall i, j | 0 <= i < j < |rest| ensures Differ(rest, i, j) {
      assert Differ(names, if i < k then i else i + 1, if j < k then j else j + 1);
    }
    forall n ensures n in rest <==> n in names && n != names[k] {
      if n in names && n != names[k] {
        var i :| 0 <= i < |names| && names[i] == n;
        assert rest[if i < k then i else i - 1] == n;
      }
      if n in rest {
        var i :| 0 <= i < |rest| && rest[i] == n;
        var at := if i < k then i else i + 1;
        assert names[at] == n;
        assert at < k ==> Differ(names, at, k);
        assert k < at ==> Differ(names, k, at);
      }
    }
  }

  /** The order in which modules are added shows only in the indices: the entry of every name, the
      list of entries up to order, the edges between names and the overall capabilities are the same. */
  lemma ModuleOrderInvisible(
      demangle: Demangler, functionCaps: FunctionCaps, modules: seq<Module>, others: seq<Module>, report: Report,
      names: seq<string>, report': Report, names': seq<string>)
    requires SameModules(modules, others)
    requires ReportOf(demangle, functionCaps, report, names, modules)
    requires ReportOf(demangle, functionCaps, report', names', others)
    ensures forall n :: n in names <==> n in names'
    ensures forall n <- names | n in names' ::
              report.process.functions[IndexOf(names, n)] == report'.process.functions[IndexOf(names', n)]
    ensures multiset(report.process.functions) == multiset(report'.process.functions)
    ensures forall a, b | a in names && b in names && a in names' && b in names' ::
              Edge(IndexOf(names, a), IndexOf(names, b)) in report.process.edges <==>
              Edge(IndexOf(names', a), IndexOf(names', b)) in report'.process.edges
    ensures report.process.capabilities == report'.process.capabilities
  {
    SameMeaning(demangle, functionCaps, modules, others);
    var fs, fs' := report.process.functions, report'.process.functions;
    forall i, j | 0 <= i < |names| && 0 <= j < |names'| && names[i] == names'[j] ensures fs[i] == fs'[j] {
      SameEntry(demangle, functionCaps, modules, others, fs[i], fs'[j], names[i]);
    }
    assert Elems(names) == Elems(names');
    SameEntriesPermuted(names, fs, names', fs');
    EdgesByName(names, report.process.edges, modules);
    EdgesByName(names', report'.process.edges, others);
    forall cap ensures cap in report.process.capabilities <==> cap in report'.process.capabilities {
    }
  }

  lemma EdgesByName(names: seq<string>, edges: seq<Edge<nat>>, modules: seq<Module>)
    requires EdgesOf(names, (set e | e in edges), modules)
    ensures forall a, b | a in names && b in names ::
              Edge(IndexOf(names, a), IndexOf(names, b)) in edges <==> AnyMayCall(modules, a, b)
  {
    forall a, b | a in names && b in names
      ensures Edge(IndexOf(names, a), IndexOf(names, b)) in edges <==> AnyMayCall(modules, a, b)
    {
      var i, j := IndexOf(names, a), IndexOf(names, b);
      assert Edge(i, j) in (set e | e in edges) <==> AnyMayCall(modules, names[i], names[j]);
    }
  }
}
