/** The function table (function.rs): mangled names are given indices in order of arrival, and what
    arrives for a name already known is dropped. */
module Functions {
  import opened Wrappers
  import opened Graphs
  import opened NameParser
  import opened Reports

  // ---------- From a mangled name to a function ----------

  /** What the demangler makes of a mangled name. */
  datatype Symbol = RustSymbol(demangled: Option<string>) | OtherSymbol(displayName: string, language: string)

  type Demangler = string -> Symbol

  type FunctionCaps = map<string, set<Capability>>

  datatype NameError = DemangleFailed(mangled: string) | Malformed(error: ParseError)

  // What a name comes to, from the demangler's answer alone.

  ghost predicate Nameable(demangle: Demangler, mangled: string) {
    match demangle(mangled)
    case RustSymbol(None) => false
    case RustSymbol(Some(demangled)) => !Angled(demangled) || Separated(demangled)
    case OtherSymbol(_, _) => true
  }

  ghost predicate IsNameOf(demangle: Demangler, mangled: string, name: FunctionName) {
    match name
    case Rust(displayName, parsed) =>
      demangle(mangled) == RustSymbol(Some(displayName)) && IsParse(displayName, parsed)
    case Other(displayName, language) =>
      demangle(mangled) == OtherSymbol(displayName, language)
  }

  ghost predicate NameFails(demangle: Demangler, mangled: string, error: NameError) {
    match error
    case DemangleFailed(text) => demangle(mangled) == RustSymbol(None) && text == mangled
    case Malformed(parseError) =>
      exists demangled :: demangle(mangled) == RustSymbol(Some(demangled)) && FailsWith(demangled, parseError)
  }

  /** The capabilities listed under what the demangler shows for the name. */
  ghost function Listed(demangle: Demangler, functionCaps: FunctionCaps, mangled: string): set<Capability> {
    match demangle(mangled)
    case RustSymbol(None) => {}
    case RustSymbol(Some(demangled)) => if demangled in functionCaps then functionCaps[demangled] else {}
    case OtherSymbol(displayName, _) => if displayName in functionCaps then functionCaps[displayName] else {}
  }

  /** The entry a name arrives with: the capabilities listed for it, all direct. */
  ghost predicate IsEntryOf(demangle: Demangler, functionCaps: FunctionCaps, mangled: string, f: Function) {
    && IsNameOf(demangle, mangled, f.name)
    && f.capabilities.Keys == Listed(demangle, functionCaps, mangled)
    && (forall cap <- f.capabilities :: f.capabilities[cap] == Direct)
    && f.syscalls == {}
  }

  function ParseMangledName(demangle: Demangler, mangled: string): (r: Result<FunctionName, NameError>)
    ensures r.Ok? <==> Nameable(demangle, mangled)
    ensures r.Ok? ==> IsNameOf(demangle, mangled, r.value)
    ensures r.Err? ==> NameFails(demangle, mangled, r.error)
  {
    match demangle(mangled)
    case RustSymbol(None) => Err(DemangleFailed(mangled))
    case RustSymbol(Some(demangled)) =>
      ParseFailsExactly(demangled);
      (match ParseRustFunctionName(demangled)
       case Ok(name) => ParsesExactly(demangled, name); Ok(Rust(demangled, name))
       case Err(error) => Err(Malformed(error)))
    case OtherSymbol(displayName, language) => Ok(Other(displayName, language))
  }

  /** A mangled name has one name or one error. */
  lemma MangledNameExactly(demangle: Demangler, mangled: string)
    ensures forall name :: ParseMangledName(demangle, mangled) == Ok(name) <==> IsNameOf(demangle, mangled, name)
    ensures forall error :: ParseMangledName(demangle, mangled) == Err(error) <==> NameFails(demangle, mangled, error)
  {
    if demangle(mangled).RustSymbol? && demangle(mangled).demangled.Some? {
      var demangled := demangle(mangled).demangled.value;
      ParseFailsExactly(demangled);
      forall parsed ensures ParseRustFunctionName(demangled) == Ok(parsed) <==> IsParse(demangled, parsed) {
        ParsesExactly(demangled, parsed);
      }
    }
  }

  /** The capabilities listed for a function are its direct ones. */
  function DirectFnCaps(functionCaps: FunctionCaps, name: FunctionName): Capabilities {
    if name.displayName in functionCaps then map cap | cap in functionCaps[name.displayName] :: Direct
    else map[]
  }

  function ToFunctionWithCaps(demangle: Demangler, mangled: string, caps: Capabilities)
    : (r: Result<Function, NameError>)
    ensures r.Ok? <==> Nameable(demangle, mangled)
    ensures r.Ok? ==>
              IsNameOf(demangle, mangled, r.value.name) && r.value.capabilities == caps && r.value.syscalls == {}
    ensures r.Err? ==> NameFails(demangle, mangled, r.error)
  {
    match ParseMangledName(demangle, mangled)
    case Ok(name) => Ok(Function(name, caps, {}))
    case Err(error) => Err(error)
  }

  function ToFunctionWithFnCaps(demangle: Demangler, functionCaps: FunctionCaps, mangled: string)
    : (r: Result<Function, NameError>)
    ensures r.Ok? <==> Nameable(demangle, mangled)
    ensures r.Ok? ==> IsEntryOf(demangle, functionCaps, mangled, r.value)
    ensures r.Err? ==> NameFails(demangle, mangled, r.error)
  {
    match ParseMangledName(demangle, mangled)
    case Ok(name) => Ok(Function(name, DirectFnCaps(functionCaps, name), {}))
    case Err(error) => Err(error)
  }

  // ---------- The table ----------

  /** The value of a table: the mangled names in the order of their indices, and their functions. */
  datatype Table = Table(names: seq<string>, functions: seq<Function>)

  const EMPTY_TABLE := Table([], [])

  ghost predicate ValidTable(t: Table) {
    Distinct(t.names) && |t.names| == |t.functions|
  }

  /** The first arrival of a name decides its entry. */
  ghost function Upserted(t: Table, mangled: string, function_: Function): Table {
    if mangled in t.names then t else Table(t.names + [mangled], t.functions + [function_])
  }

  ghost function IndexOf(names: seq<string>, mangled: string): (i: nat)
    requires mangled in names
    ensures i < |names| && names[i] == mangled
  {
    var i: nat :| i < |names| && names[i] == mangled;
    i
  }

  lemma IndexUnique(names: seq<string>, i: nat)
    requires Distinct(names) && i < |names|
    ensures IndexOf(names, names[i]) == i
  {
    SamePosition(names, i, IndexOf(names, names[i]));
  }

  /** The names of a table after more names arrived. */
  ghost function AddNew(known: seq<string>, names: seq<string>): seq<string> {
    if names == [] then known
    else
      var so := AddNew(known, names[..|names| - 1]);
      var n := names[|names| - 1];
      if n in so then so else so + [n]
  }

  lemma {:induction false} AddNewMembers(known: seq<string>, names: seq<string>, n: string)
    ensures n in AddNew(known, names) <==> n in known || n in names
    decreases |names|
  {
    if names != [] {
      AddNewMembers(known, names[..|names| - 1], n);
      assert names == names[..|names| - 1] + [names[|names| - 1]];
    }
  }

  lemma {:induction false} AddNewDistinct(known: seq<string>, names: seq<string>)
    requires Distinct(known)
    ensures Distinct(AddNew(known, names))
    decreases |names|
  {
    if names != [] {
      var so := AddNew(known, names[..|names| - 1]);
      AddNewDistinct(known, names[..|names| - 1]);
      if names[|names| - 1] !in so {
        DistinctSnoc(so, names[|names| - 1]);
      }
    }
  }

  lemma {:induction false} AddNewConcat(known: seq<string>, names: seq<string>, more: seq<string>)
    ensures AddNew(known, names + more) == AddNew(AddNew(known, names), more)
    decreases |more|
  {
    if more == [] {
      assert names + more == names;
    } else {
      AddNewConcat(known, names, more[..|more| - 1]);
      assert (names + more)[..|names + more| - 1] == names + more[..|more| - 1];
    }
  }

  class FunctionMap {
    var functions: seq<Function>
    var ids: map<string, nat>
    ghost var names: seq<string>

    ghost predicate Valid()
      reads this
    {
      && Distinct(names)
      && |names| == |functions|
      && (forall n :: n in ids <==> n in names)
      && (forall n <- ids :: ids[n] < |names| && names[ids[n]] == n)
    }

    ghost function View(): (t: Table)
      reads this
      ensures Valid() ==> ValidTable(t)
    {
      Table(names, functions)
    }

    constructor ()
      ensures Valid() && View() == EMPTY_TABLE
    {
      functions := [];
      ids := map[];
      names := [];
    }

    function GetIndex(mangled: string): (idx: Option<nat>)
      requires Valid()
      reads this
      ensures idx.Some? <==> mangled in names
      ensures idx.Some? ==> idx.value == IndexOf(names, mangled)
    {
      if mangled in ids then IndexUnique(names, ids[mangled]); Some(ids[mangled]) else None
    }

    method Upsert(mangled: string, function_: Function) returns (idx: nat)
      requires Valid()
      modifies this
      ensures Valid() && View() == Upserted(old(View()), mangled, function_)
      ensures mangled in names && idx == IndexOf(names, mangled)
      ensures mangled !in old(names) ==> idx == |old(names)|
    {
      if mangled in ids {
        idx := ids[mangled];
        IndexUnique(names, idx);
      } else {
        DistinctSnoc(names, mangled);
        idx := |functions|;
        ids := ids[mangled := idx];
        functions := functions + [function_];
        names := names + [mangled];
        IndexUnique(names, idx);
      }
    }

    method UpsertWithCaps(demangle: Demangler, functionCaps: FunctionCaps, mangled: string)
      returns (r: Result<nat, NameError>)
      requires Valid()
      modifies this
      ensures Valid()
      ensures r.Ok? <==> Nameable(demangle, mangled)
      ensures r.Ok? ==>
                && mangled in names && r.value == IndexOf(names, mangled)
                && exists f ::
                     IsEntryOf(demangle, functionCaps, mangled, f) && View() == Upserted(old(View()), mangled, f)
      ensures r.Err? ==> NameFails(demangle, mangled, r.error) && View() == old(View())
    {
      match ToFunctionWithFnCaps(demangle, functionCaps, mangled) {
        case Ok(f) =>
          var idx := Upsert(mangled, f);
          r := Ok(idx);
        case Err(error) =>
          r := Err(error);
      }
    }

    /** `get_mut(idx)` followed by an insertion into the function's capabilities. */
    method PutCapability(idx: nat, cap: Capability, ty: CapabilityType)
      requires Valid() && idx < |functions|
      modifies this`functions
      ensures Valid()
      ensures functions == old(functions)[idx := WithCapability(old(functions)[idx], cap, ty)]
    {
      functions := functions[idx := WithCapability(functions[idx], cap, ty)];
    }
  }

  function WithCapability(f: Function, cap: Capability, ty: CapabilityType): Function {
    f.(capabilities := f.capabilities[cap := ty])
  }
}
