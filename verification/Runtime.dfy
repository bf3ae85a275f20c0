/** The recorder's objects (runtime/mod.rs, runtime/process.rs), each method tied to the state
    machine of module Recorder. */
module Runtime {
  import opened Wrappers
  import opened Graphs
  import opened Reports
  import opened Functions
  import opened Recorder
  import opened RunReports

  datatype RecorderError =
    | ProcessFind(pid: Pid)
    | ProcessUnknown(pid: Pid)
    | SyscallMetaMissing
    | CapsFailed
    | UnwindFailed
    | ChildMissing(pid: Pid)

  class State {
    const startBehaviour: StartBehaviour
    var waitingForStart: bool
    var callGraph: DiGraph<nat>
    var caps: set<Capability>
    const functions: FunctionMap

    ghost predicate Valid()
      reads functions
    {
      functions.Valid()
    }

    ghost function View(): StateView
      reads this, functions
    {
      StateView(waitingForStart, caps, functions.View(), callGraph)
    }

    ghost predicate Holds(config: Config, v: StateView)
      reads this, functions
    {
      Valid() && startBehaviour == config.startBehaviour && View() == v
    }

    constructor (config: Config)
      ensures Holds(config, FreshState(config)) && fresh(functions)
    {
      startBehaviour := config.startBehaviour;
      waitingForStart := config.startBehaviour.WaitingForStartDefault();
      callGraph := DiGraph([]);
      caps := {};
      functions := new FunctionMap();
    }

    method AddEdge(from: nat, to: nat)
      modifies this`callGraph
      ensures View() == old(View()).(callGraph := old(callGraph).AddEdge(from, to))
    {
      callGraph := callGraph.AddEdge(from, to);
    }

    method ExtendCaps(more: set<Capability>)
      modifies this`caps
      ensures View() == old(View()).(caps := old(caps) + more)
    {
      caps := caps + more;
    }

    method SetStartSeen()
      modifies this`waitingForStart
      ensures View() == old(View()).(waiting := false)
    {
      waitingForStart := false;
    }

    method UpsertFunction(mangled: string, f: Function) returns (idx: nat)
      requires Valid()
      modifies functions
      ensures Valid() && View() == old(View()).(table := Upserted(old(View()).table, mangled, f))
      ensures mangled in functions.names && idx == IndexOf(functions.names, mangled)
    {
      idx := functions.Upsert(mangled, f);
    }

    function GetStartSymbol(): Option<string> {
      match startBehaviour
      case IncludeAll => None
      case OnlyAfter(symbol) => Some(symbol)
    }

    /** The unwinding loop: the names of the stack, or nothing if a frame cannot be read or is the
        start symbol. The gate opens at a start symbol that no unreadable frame hides. */
    method CollectNames(frames: seq<Frame>) returns (names: Option<seq<string>>)
      modifies this`waitingForStart
      ensures names.None? <==>
              Unreadable in frames || (startBehaviour.OnlyAfter? && Named(startBehaviour.symbol) in frames)
      ensures names.Some? ==> names.value == NamesOf(frames)
      ensures View() == if MeetsStart(startBehaviour, frames) then old(View()).(waiting := false) else old(View())
    {
      var collected: seq<string> := [];
      for i := 0 to |frames|
        invariant View() == old(View())
        invariant Complete(startBehaviour, frames[..i]) && collected == NamesOf(frames[..i])
      {
        FramesMore(startBehaviour, frames, i);
        match frames[i] {
          case Unreadable =>
            return None;
          case Unnamed =>
          case Named(name) =>
            if GetStartSymbol() == Some(name) {
              SetStartSeen();
              return None;
            }
            collected := collected + [name];
        }
      }
      assert frames[..|frames|] == frames;
      names := Some(collected);
    }

    /** The recording loop over the names of a stack. */
    method RecordStack(config: Config, syscallCaps: set<Capability>, syscall: Option<string>, names: seq<string>)
      requires Valid()
      modifies this`callGraph, functions
      ensures Valid()
      ensures View() == RecordNames(config, old(View()), syscallCaps, syscall, names, None)
    {
      var childIdx: Option<nat> := None;
      for i := 0 to |names|
        invariant Valid()
        invariant RecordNames(config, View(), syscallCaps, syscall, names[i..], childIdx) ==
                  RecordNames(config, old(View()), syscallCaps, syscall, names, None)
      {
        ghost var s := View();
        assert names[i..][1..] == names[i + 1..];
        var ty := if childIdx.None? then Direct else Transitive;
        match ToFunctionWithCaps(config.demangle, names[i], map cap | cap in syscallCaps :: ty) {
          case Ok(f) =>
            var func := f;
            if config.includeSyscalls && ty == Direct && syscall.Some? {
              func := func.(syscalls := func.syscalls + {syscall.value});
            }
            var funcIdx := UpsertFunction(names[i], func);
            if childIdx.Some? {
              AddEdge(funcIdx, childIdx.value);
            }
            assert View() == RecordName(s, names[i], func, childIdx);
            childIdx := Some(funcIdx);
          case Err(_) =>
        }
      }
    }

    /** A system call that came with its capabilities. */
    method HandleSyscall(config: Config, e: Event) returns (r: Result<(), RecorderError>)
      requires Valid() && startBehaviour == config.startBehaviour && e.SyscallExited? && e.meta.Caps?
      modifies this`waitingForStart, this`caps, this`callGraph, functions
      ensures Valid() && View() == RecordSyscall(config, old(View()), e)
      ensures r == if e.canUnwind then Ok(()) else Err(UnwindFailed)
    {
      if !waitingForStart {
        ExtendCaps(e.meta.caps);
      }
      if !e.canUnwind {
        return Err(UnwindFailed);
      }
      var names := CollectNames(e.frames);
      if names.Some? && !waitingForStart {
        RecordStack(config, e.meta.caps, e.syscall, names.value);
      }
      r := Ok(());
    }

    function IntoProcess(): (p: Process)
      reads this, functions
      ensures p == ProcessOf(View())
    {
      Process(caps, functions.functions, callGraph.edges)
    }
  }

  /** The frame after a complete part of the stack. */
  lemma FramesMore(start: StartBehaviour, frames: seq<Frame>, i: nat)
    requires i < |frames| && Complete(start, frames[..i])
    ensures NamesOf(frames[..i + 1]) == NamesOf(frames[..i]) + NamesOf([frames[i]])
    ensures frames[i].Named? ==> NamesOf([frames[i]]) == [frames[i].name]
    ensures Complete(start, frames[..i + 1]) <==>
            frames[i] != Unreadable && !(start.OnlyAfter? && frames[i] == Named(start.symbol))
    ensures start.OnlyAfter? && frames[i] == Named(start.symbol) ==> MeetsStart(start, frames)
    ensures frames[i] == Unreadable ==> !MeetsStart(start, frames)
  {
    assert frames[..i + 1] == frames[..i] + [frames[i]];
    NamesOfConcat(frames[..i], [frames[i]]);
    assert start.OnlyAfter? && frames[i] == Named(start.symbol) ==> MeetsStartAt(start, frames, i);
    if frames[i] == Unreadable {
      forall j: nat | j < |frames| ensures !MeetsStartAt(start, frames, j) {
        assert j < i ==> frames[..i][j] == frames[j];
        assert j > i ==> frames[..j][i] == frames[i];
      }
    }
  }

  /** What handling an event comes to, its errors in the order they are looked for. */
  ghost function EventResult(v: MapView, e: Event): Result<(), RecorderError> {
    match e
    case Cloned(pid, _) => if pid in v.active then Ok(()) else Err(ProcessFind(pid))
    case Exited(_) => Ok(())
    case SyscallExited(pid, isError, meta, canUnwind, _, _) =>
      if isError then Ok(())
      else if meta.MetaMissing? then Err(SyscallMetaMissing)
      else if pid !in v.active then Err(ProcessUnknown(pid))
      else if meta.CapsUnknown? then Err(CapsFailed)
      else if !canUnwind then Err(UnwindFailed)
      else Ok(())
    case OtherEvent => Ok(())
  }

  /** An error leaves everything as it was, only that a stack that cannot be unwound comes after the
      capabilities were added. No event misses the initial process. */
  lemma EventErrors(config: Config, v: MapView, e: Event)
    ensures var r, v' := EventResult(v, e), Step(config, v, e);
            && (r.Err? && r != Err(UnwindFailed) ==> v' == v)
            && (r == Err(UnwindFailed) <==>
                e.SyscallExited? && !e.isError && e.meta.Caps? && e.pid in v.active && !e.canUnwind)
            && (r == Err(UnwindFailed) ==>
                v' == v.(active := v.active[e.pid := WithCaps(v.active[e.pid], e.meta.caps)]))
            && (r == Err(CapsFailed) <==>
                e.SyscallExited? && !e.isError && e.meta.CapsUnknown? && e.pid in v.active)
            && (r == Err(SyscallMetaMissing) <==> e.SyscallExited? && !e.isError && e.meta.MetaMissing?)
            && (forall pid :: r == Err(ProcessUnknown(pid)) <==>
                  && e.SyscallExited? && !e.isError && !e.meta.MetaMissing?
                  && e.pid == pid && pid !in v.active)
            && (forall pid :: r == Err(ProcessFind(pid)) <==> e.Cloned? && e.pid == pid && pid !in v.active)
            && (forall pid :: r != Err(ChildMissing(pid)))
  {
  }

  class ProcessMap {
    const config: Config
    var active: map<Pid, State>
    var inactive: seq<(Pid, State)>
    ghost var Contents: MapView
    ghost var Parts: set<object>

    /** `Contents` is what the processes hold; `Parts` are their states and function tables. */
    ghost predicate Valid()
      reads this, Parts
    {
      this !in Parts && HeldBy(config, active, inactive, Parts, Contents)
    }

    constructor (config: Config)
      ensures this.config == config && Valid() && fresh(Parts)
      ensures Contents == Initial(config)
    {
      var s := new State(config);
      this.config := config;
      active := map[config.initPid := s];
      inactive := [];
      Contents := MapView(map[config.initPid := s.View()], []);
      Parts := {s, s.functions};
    }

    /** The initial process is never moved. */
    method Exit(pid: Pid)
      requires Valid()
      modifies this`active, this`inactive, this`Contents
      ensures Valid() && Parts == old(Parts)
      ensures Contents == Step(config, old(Contents), Exited(pid))
    {
      if pid != config.initPid && pid in active {
        ExitHeld(config, active, inactive, Parts, Contents, pid);
        Contents := Step(config, Contents, Exited(pid));
        active, inactive := active - {pid}, inactive + [(pid, active[pid])];
      }
    }

    method Spawn(parent: Pid, child: Pid) returns (r: Result<(), RecorderError>)
      requires Valid()
      modifies this`active, this`Contents, this`Parts
      ensures Valid() && fresh(Parts - old(Parts))
      ensures Contents == Step(config, old(Contents), Cloned(parent, child))
      ensures r == EventResult(old(Contents), Cloned(parent, child))
    {
      if parent !in active {
        return Err(ProcessFind(parent));
      }
      var s := new State(config);
      Insert(child, s);
      r := Ok(());
    }

    method Insert(child: Pid, s: State)
      requires Valid() && s.Holds(config, FreshState(config))
      requires s !in Parts && s.functions !in Parts
      modifies this`active, this`Contents, this`Parts
      ensures Valid() && Parts == old(Parts) + {s, s.functions}
      ensures Contents == old(Contents).(active := old(Contents).active[child := FreshState(config)])
    {
      SpawnHeld(config, active, inactive, Parts, Contents, child, s);
      Contents := Contents.(active := Contents.active[child := FreshState(config)]);
      Parts := Parts + {s, s.functions};
      active := active[child := s];
    }

    method HandleSyscallExit(e: Event) returns (r: Result<(), RecorderError>)
      requires Valid() && e.SyscallExited? && !e.isError
      modifies this, Parts
      ensures Valid() && Parts == old(Parts)
      ensures Contents == Step(config, old(Contents), e)
      ensures r == EventResult(old(Contents), e)
    {
      if e.meta.MetaMissing? {
        return Err(SyscallMetaMissing);
      }
      if e.pid !in active {
        return Err(ProcessUnknown(e.pid));
      }
      if e.meta.CapsUnknown? {
        return Err(CapsFailed);
      }
      r := HandleInState(e);
    }

    method HandleInState(e: Event) returns (r: Result<(), RecorderError>)
      requires Valid() && e.SyscallExited? && e.meta.Caps? && e.pid in active
      modifies this`Contents, active[e.pid], active[e.pid].functions
      ensures Valid() && Parts == old(Parts)
      ensures Contents == old(Contents).(active :=
                old(Contents).active[e.pid := RecordSyscall(config, old(Contents).active[e.pid], e)])
      ensures r == if e.canUnwind then Ok(()) else Err(UnwindFailed)
    {
      var s := active[e.pid];
      OthersApart(active, inactive, e.pid);
      ghost var was := Contents;
      r := s.HandleSyscall(config, e);
      CallHeld(config, active, inactive, Parts, was, e.pid);
      Contents := was.(active := was.active[e.pid := s.View()]);
    }

    /** `into_report`: fails only without the initial process. */
    function IntoReport(includeChildren: bool): (r: Result<Report, RecorderError>)
      requires Valid()
      reads this, Parts
      ensures r == if config.initPid in active then Ok(ReportOfRun(config, Contents, includeChildren))
                   else Err(ChildMissing(config.initPid))
    {
      if config.initPid !in active then Err(ChildMissing(config.initPid))
      else
        Ok(Report(active[config.initPid].IntoProcess(),
                  if includeChildren then
                    ActiveProcesses(active.Keys - {config.initPid}) + InactiveProcesses(|inactive|)
                  else []))
    }

    /** `into_values` of the active processes, in the order of the pids. */
    function ActiveProcesses(pids: set<Pid>): (ps: seq<Process>)
      requires Valid() && pids <= active.Keys
      reads this, Parts
      ensures ps == InPidOrder(Contents.active, pids)
      decreases |pids|
    {
      if |pids| == 0 then []
      else
        var m := LeastPid(pids);
        [active[m].IntoProcess()] + ActiveProcesses(pids - {m})
    }

    /** The first `n` inactive processes. */
    function InactiveProcesses(n: nat): (ps: seq<Process>)
      requires Valid() && n <= |inactive|
      reads this, Parts
      ensures ps == ProcessesOf(Contents.inactive[..n])
    {
      if n == 0 then []
      else
        assert Contents.inactive[..n][..n - 1] == Contents.inactive[..n - 1];
        InactiveProcesses(n - 1) + [inactive[n - 1].1.IntoProcess()]
    }

    method HandleEvent(e: Event) returns (r: Result<(), RecorderError>)
      requires Valid()
      modifies this, Parts
      ensures Valid() && fresh(Parts - old(Parts))
      ensures Contents == Step(config, old(Contents), e)
      ensures r == EventResult(old(Contents), e)
    {
      match e {
        case Cloned(pid, child) =>
          r := Spawn(pid, child);
        case Exited(pid) =>
          Exit(pid);
          r := Ok(());
        case SyscallExited(_, isError, _, _, _, _) =>
          if isError {
            r := Ok(());
          } else {
            r := HandleSyscallExit(e);
          }
        case OtherEvent =>
          r := Ok(());
      }
    }
  }

  /** No active process shares its state or its function table with another process, active or gone. */
  ghost predicate Separate(active: map<Pid, State>, inactive: seq<(Pid, State)>) {
    && (forall p, q {:trigger ActiveApart(active, p, q)} ::
          p in active && q in active && p != q ==> ActiveApart(active, p, q))
    && (forall p, i {:trigger InactiveApart(active, p, inactive, i)} ::
          p in active && 0 <= i < |inactive| ==> InactiveApart(active, p, inactive, i))
  }

  ghost predicate Apart(s: State, t: State) {
    s != t && s.functions != t.functions
  }

  ghost predicate ActiveApart(active: map<Pid, State>, p: Pid, q: Pid)
    requires p in active && q in active
  {
    Apart(active[p], active[q])
  }

  ghost predicate InactiveApart(active: map<Pid, State>, p: Pid, inactive: seq<(Pid, State)>, i: int)
    requires p in active && 0 <= i < |inactive|
  {
    Apart(active[p], inactive[i].1)
  }

  /** The states of the processes, all among `parts` with their tables, are those of `v`. */
  ghost predicate HeldBy(config: Config, active: map<Pid, State>, inactive: seq<(Pid, State)>, parts: set<object>,
                         v: MapView)
    reads parts
  {
    match v
    case MapView(views, gone) =>
      && Separate(active, inactive)
      && views.Keys == active.Keys
      && |gone| == |inactive|
      && (forall pid <- active :: Held(config, active[pid], parts, views[pid]))
      && forall i :: 0 <= i < |inactive| ==>
           inactive[i].0 == gone[i].0 && Held(config, inactive[i].1, parts, gone[i].1)
  }

  ghost predicate Held(config: Config, s: State, parts: set<object>, v: StateView)
    reads parts
  {
    s in parts && s.functions in parts && s.Holds(config, v)
  }

  lemma ExitHeld(config: Config, active: map<Pid, State>, inactive: seq<(Pid, State)>, parts: set<object>, v: MapView,
                 pid: Pid)
    requires HeldBy(config, active, inactive, parts, v) && pid in active && pid != config.initPid
    ensures HeldBy(config, active - {pid}, inactive + [(pid, active[pid])], parts, Step(config, v, Exited(pid)))
  {
    var rest, gone := active - {pid}, inactive + [(pid, active[pid])];
    forall p, q | p in rest && q in rest && p != q ensures ActiveApart(rest, p, q) {
      assert ActiveApart(active, p, q);
    }
    forall p, i | p in rest && 0 <= i < |gone| ensures InactiveApart(rest, p, gone, i) {
      if i < |inactive| {
        assert InactiveApart(active, p, inactive, i);
      } else {
        assert ActiveApart(active, p, pid);
      }
    }
  }

  lemma SpawnHeld(config: Config, active: map<Pid, State>, inactive: seq<(Pid, State)>, parts: set<object>,
                  v: MapView, child: Pid, s: State)
    requires HeldBy(config, active, inactive, parts, v) && s.Holds(config, FreshState(config))
    requires s !in parts && s.functions !in parts
    ensures HeldBy(config, active[child := s], inactive, parts + {s, s.functions},
                   v.(active := v.active[child := FreshState(config)]))
  {
    var more := active[child := s];
    forall p, q | p in more && q in more && p != q ensures ActiveApart(more, p, q) {
      assert p != child && q != child ==> ActiveApart(active, p, q);
    }
    forall p, i | p in more && 0 <= i < |inactive| ensures InactiveApart(more, p, inactive, i) {
      assert p != child ==> InactiveApart(active, p, inactive, i);
    }
  }

  lemma CallHeld(config: Config, active: map<Pid, State>, inactive: seq<(Pid, State)>, parts: set<object>, v: MapView,
                 pid: Pid)
    requires Separate(active, inactive) && v.active.Keys == active.Keys && |v.inactive| == |inactive|
    requires pid in active && Held(config, active[pid], parts, active[pid].View())
    requires forall p <- active :: p != pid ==> Held(config, active[p], parts, v.active[p])
    requires forall i :: 0 <= i < |inactive| ==>
               inactive[i].0 == v.inactive[i].0 && Held(config, inactive[i].1, parts, v.inactive[i].1)
    ensures HeldBy(config, active, inactive, parts, v.(active := v.active[pid := active[pid].View()]))
  {
  }

  lemma OthersApart(active: map<Pid, State>, inactive: seq<(Pid, State)>, pid: Pid)
    requires Separate(active, inactive) && pid in active
    ensures forall p <- active :: p != pid ==> Apart(active[p], active[pid])
    ensures forall i :: 0 <= i < |inactive| ==> Apart(active[pid], inactive[i].1)
  {
    forall p | p in active && p != pid ensures Apart(active[p], active[pid]) {
      assert ActiveApart(active, p, pid);
    }
    forall i | 0 <= i < |inactive| ensures Apart(active[pid], inactive[i].1) {
      assert InactiveApart(active, pid, inactive, i);
    }
  }

  // ---------- The recorder as a whole ----------

  lemma RunMore(config: Config, events: seq<Event>, i: nat)
    requires i < |events|
    ensures Run(config, events[..i + 1]) == Step(config, Run(config, events[..i]), events[i])
  {
    assert events[..i + 1][..i] == events[..i];
  }

  /** Handles the events in order; errors of single events are passed over. */
  method HandleAll(processes: ProcessMap, events: seq<Event>)
    requires processes.Valid() && processes.Contents == Initial(processes.config)
    modifies processes, processes.Parts
    ensures processes.Valid()
    ensures processes.Contents == Run(processes.config, events)
  {
    ghost var parts := processes.Parts;
    for i := 0 to |events|
      invariant processes.Valid() && fresh(processes.Parts - parts)
      invariant processes.Contents == Run(processes.config, events[..i])
    {
      RunMore(processes.config, events, i);
      var handled := processes.HandleEvent(events[i]);
    }
    assert events[..|events|] == events;
  }

  /** The recorder as a whole. There always is a report, and it shows exactly what was recorded. */
  method Record(config: Config, events: seq<Event>, includeChildren: bool) returns (r: Result<Report, RecorderError>)
    ensures config.initPid in Run(config, events).active
    ensures r == Ok(ReportOfRun(config, Run(config, events), includeChildren))
    ensures IsReportOf(config, History(config, events), includeChildren, r.value)
  {
    InitialAlwaysActive(config, events);
    ReportShowsHistory(config, events, includeChildren);
    var processes := new ProcessMap(config);
    HandleAll(processes, events);
    r := processes.IntoReport(includeChildren);
  }
}
