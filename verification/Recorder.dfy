/** The runtime recorder (runtime/mod.rs, runtime/process.rs) as a state machine over trace events:
    what one event does, and what every run of events keeps. */
module Recorder {
  import opened Wrappers
  import opened Graphs
  import opened Paths
  import opened Reports
  import opened Functions

  datatype Pid = Pid(raw: int)

  predicate IsLeast(pids: set<Pid>, m: Pid) {
    m in pids && forall k <- pids :: m.raw <= k.raw
  }

  lemma {:induction false} LeastExists(pids: set<Pid>)
    requires |pids| > 0
    ensures exists m :: IsLeast(pids, m)
    decreases |pids|
  {
    var p :| p in pids;
    var rest := pids - {p};
    if |rest| == 0 {
      assert pids == {p};
      assert IsLeast(pids, p);
    } else {
      LeastExists(rest);
      var m :| IsLeast(rest, m);
      assert pids == rest + {p};
      assert IsLeast(pids, if p.raw <= m.raw then p else m);
    }
  }

  function LeastPid(pids: set<Pid>): (m: Pid)
    requires |pids| > 0
    ensures IsLeast(pids, m)
  {
    LeastExists(pids);
    var m :| IsLeast(pids, m);
    m
  }

  datatype StartBehaviour = IncludeAll | OnlyAfter(symbol: string) {
    predicate WaitingForStartDefault() {
      OnlyAfter?
    }
  }

  datatype Config = Config(
    initPid: Pid, startBehaviour: StartBehaviour, includeSyscalls: bool, demangle: Demangler)

  /** One frame of an unwound stack: its instruction pointer cannot be read, or it carries
      a procedure name that matches its address, or it does not. */
  datatype Frame = Unreadable | Unnamed | Named(name: string)

  /** What becomes of the data kept from a system call's entry. */
  datatype Meta = MetaMissing | CapsUnknown | Caps(caps: set<Capability>)

  datatype Event =
    | Cloned(pid: Pid, child: Pid)
    | Exited(pid: Pid)
    | SyscallExited(pid: Pid, isError: bool, meta: Meta, canUnwind: bool, frames: seq<Frame>, syscall: Option<string>)
    | OtherEvent

  datatype StateView = StateView(waiting: bool, caps: set<Capability>, table: Table, callGraph: DiGraph<nat>)

  datatype MapView = MapView(active: map<Pid, StateView>, inactive: seq<(Pid, StateView)>)

  // ---------- One event ----------

  ghost function FreshState(config: Config): StateView {
    StateView(config.startBehaviour.WaitingForStartDefault(), {}, EMPTY_TABLE, DiGraph([]))
  }

  /** The names of the frames that carry one, in the order of the frames. */
  ghost function NamesOf(frames: seq<Frame>): (names: seq<string>)
    ensures forall n :: n in names <==> Named(n) in frames
  {
    if frames == [] then []
    else if frames[0].Named? then [frames[0].name] + NamesOf(frames[1..])
    else NamesOf(frames[1..])
  }

  lemma {:induction false} NamesOfConcat(frames: seq<Frame>, more: seq<Frame>)
    ensures NamesOf(frames + more) == NamesOf(frames) + NamesOf(more)
  {
    if frames == [] {
      assert frames + more == more;
    } else {
      NamesOfConcat(frames[1..], more);
      assert (frames + more)[1..] == frames[1..] + more;
    }
  }

  /** No frame ends the unwinding: all can be read, and none is the start symbol. */
  ghost predicate Complete(start: StartBehaviour, frames: seq<Frame>) {
    Unreadable !in frames && !(start.OnlyAfter? && Named(start.symbol) in frames)
  }

  /** Unwinding comes upon the configured symbol before any unreadable frame. */
  ghost predicate MeetsStart(start: StartBehaviour, frames: seq<Frame>) {
    exists i: nat :: MeetsStartAt(start, frames, i)
  }

  ghost predicate MeetsStartAt(start: StartBehaviour, frames: seq<Frame>, i: nat) {
    i < |frames| && start.OnlyAfter? && frames[i] == Named(start.symbol) && Unreadable !in frames[..i]
  }

  /** What is put in the table for a frame; only the innermost one recorded is direct. */
  ghost function FrameEntry(
      config: Config, name: string, caps: set<Capability>, syscall: Option<string>, innermost: bool)
    : Result<Function, NameError>
  {
    var ty := if innermost then Direct else Transitive;
    match ToFunctionWithCaps(config.demangle, name, map cap | cap in caps :: ty)
    case Err(error) => Err(error)
    case Ok(f) =>
      Ok(if config.includeSyscalls && innermost && syscall.Some? then
           f.(syscalls := f.syscalls + {syscall.value})
         else f)
  }

  ghost function RecordName(s: StateView, name: string, f: Function, child: Option<nat>): StateView {
    var table := Upserted(s.table, name, f);
    s.(table := table,
       callGraph := if child.Some? then s.callGraph.AddEdge(IndexOf(table.names, name), child.value) else s.callGraph)
  }

  /** Records the frames from the innermost outwards; names that do not parse are passed over. */
  ghost function RecordNames(
      config: Config, s: StateView, caps: set<Capability>, syscall: Option<string>, names: seq<string>,
      child: Option<nat>)
    : StateView
    decreases |names|
  {
    if names == [] then s
    else match FrameEntry(config, names[0], caps, syscall, child.None?)
      case Err(_) => RecordNames(config, s, caps, syscall, names[1..], child)
      case Ok(f) =>
        var s' := RecordName(s, names[0], f, child);
        RecordNames(config, s', caps, syscall, names[1..], Some(IndexOf(s'.table.names, names[0])))
  }

  ghost function WithCaps(s: StateView, caps: set<Capability>): StateView {
    if s.waiting then s else s.(caps := s.caps + caps)
  }

  /** A system call that succeeded with these capabilities. */
  ghost function RecordSyscall(config: Config, s: StateView, e: Event): StateView
    requires e.SyscallExited? && e.meta.Caps?
  {
    var s1 := WithCaps(s, e.meta.caps);
    if !e.canUnwind then s1
    else if MeetsStart(config.startBehaviour, e.frames) then s1.(waiting := false)
    else if s1.waiting || !Complete(config.startBehaviour, e.frames) then s1
    else RecordNames(config, s1, e.meta.caps, e.syscall, NamesOf(e.frames), None)
  }

  ghost function Step(config: Config, v: MapView, e: Event): MapView {
    match e
    case Cloned(pid, child) =>
      if pid in v.active then v.(active := v.active[child := FreshState(config)]) else v
    case Exited(pid) =>
      if pid != config.initPid && pid in v.active then
        MapView(v.active - {pid}, v.inactive + [(pid, v.active[pid])])
      else v
    case SyscallExited(pid, isError, meta, _, _, _) =>
      if !isError && meta.Caps? && pid in v.active then
        v.(active := v.active[pid := RecordSyscall(config, v.active[pid], e)])
      else v
    case OtherEvent => v
  }

  ghost function Initial(config: Config): MapView {
    MapView(map[config.initPid := FreshState(config)], [])
  }

  ghost function Run(config: Config, events: seq<Event>): MapView {
    if events == [] then Initial(config)
    else Step(config, Run(config, events[..|events| - 1]), events[|events| - 1])
  }

  // ---------- The history of a process ----------

  /** A recorded system call: its capabilities and, innermost first, the names of its stack that
      come to a function. */
  datatype Sample = Sample(caps: set<Capability>, names: seq<string>, syscall: Option<string>)

  ghost function Parseable(config: Config, names: seq<string>): seq<string> {
    if names == [] then []
    else if Nameable(config.demangle, names[0]) then [names[0]] + Parseable(config, names[1..])
    else Parseable(config, names[1..])
  }

  ghost function SampleOf(config: Config, e: Event): Sample
    requires e.SyscallExited? && e.meta.Caps?
  {
    var whole := e.canUnwind && Complete(config.startBehaviour, e.frames);
    Sample(e.meta.caps, if whole then Parseable(config, NamesOf(e.frames)) else [], e.syscall)
  }

  datatype HistoryView = HistoryView(active: map<Pid, seq<Sample>>, inactive: seq<(Pid, seq<Sample>)>)

  /** The samples of every process since it was spawned, from the first event after its start
      was seen. */
  ghost function History(config: Config, events: seq<Event>): HistoryView {
    if events == [] then HistoryView(map[config.initPid := []], [])
    else
      var init := events[..|events| - 1];
      HistoryStep(config, Run(config, init), History(config, init), events[|events| - 1])
  }

  ghost function HistoryStep(config: Config, v: MapView, h: HistoryView, e: Event): HistoryView {
    match e
    case Cloned(pid, child) =>
      if pid in v.active then h.(active := h.active[child := []]) else h
    case Exited(pid) =>
      if pid != config.initPid && pid in v.active && pid in h.active then
        HistoryView(h.active - {pid}, h.inactive + [(pid, h.active[pid])])
      else h
    case SyscallExited(pid, isError, meta, _, _, _) =>
      if !isError && meta.Caps? && pid in v.active && pid in h.active && !v.active[pid].waiting then
        h.(active := h.active[pid := h.active[pid] + [SampleOf(config, e)]])
      else h
    case OtherEvent => h
  }

  // ---------- What a state says about its history ----------

  /** All names of the samples, each once, in the order of their first arrival. */
  ghost function Arrived(log: seq<Sample>): seq<string> {
    if log == [] then [] else AddNew(Arrived(log[..|log| - 1]), log[|log| - 1].names)
  }

  ghost predicate AdjacentAt(sample: Sample, a: string, b: string, k: nat) {
    k + 1 < |sample.names| && sample.names[k] == b && sample.names[k + 1] == a
  }

  /** `a` called `b` in a recorded stack: the frame outside `b` is `a`. */
  ghost predicate CalledIn(sample: Sample, a: string, b: string) {
    exists k: nat :: AdjacentAt(sample, a, b, k)
  }

  ghost predicate EverCalled(log: seq<Sample>, a: string, b: string) {
    exists sample <- log :: CalledIn(sample, a, b)
  }

  /** Sample `j` is the first to contain `name`, first at position `k`. */
  ghost predicate FirstSeen(log: seq<Sample>, name: string, j: nat, k: nat) {
    && j < |log| && k < |log[j].names| && log[j].names[k] == name
    && name !in log[j].names[..k]
    && forall i :: 0 <= i < j ==> name !in log[i].names
  }

  /** The entry of a name is what its first frame recorded. */
  ghost predicate EntryFromLog(config: Config, log: seq<Sample>, name: string, f: Function) {
    exists j: nat, k: nat :: FirstSeen(log, name, j, k) && EntryAt(config, log[j], name, f, k == 0)
  }

  /** A frame records the capabilities of its system call, direct for the innermost frame and transitive
      for all others, and with the innermost one the call itself if asked for. */
  ghost predicate EntryAt(config: Config, sample: Sample, name: string, f: Function, innermost: bool) {
    && IsNameOf(config.demangle, name, f.name)
    && f.capabilities == (map cap | cap in sample.caps :: if innermost then Direct else Transitive)
    && f.syscalls ==
       if config.includeSyscalls && innermost && sample.syscall.Some? then {sample.syscall.value} else {}
  }

  lemma FrameEntryIs(config: Config, sample: Sample, name: string, f: Function, innermost: bool)
    requires FrameEntry(config, name, sample.caps, sample.syscall, innermost) == Ok(f)
    ensures EntryAt(config, sample, name, f, innermost)
  {
  }

  /** The table lists the names as they arrived, each with the entry of its first frame. */
  ghost predicate TableFromLog(config: Config, log: seq<Sample>, t: Table) {
    && ValidTable(t)
    && t.names == Arrived(log)
    && forall i {:trigger t.functions[i]} :: 0 <= i < |t.names| ==>
            EntryFromLog(config, log, t.names[i], t.functions[i])
  }

  /** The call graph has exactly the calls seen in the recorded stacks. */
  ghost predicate CallsFromLog(log: seq<Sample>, names: seq<string>, callGraph: DiGraph<nat>) {
    && callGraph.Valid()
    && (forall e <- callGraph.EdgeSet() :: e.src < |names| && e.dst < |names|)
    && forall i: nat, j: nat :: i < |names| && j < |names| ==>
         (Edge(i, j) in callGraph.EdgeSet() <==> EverCalled(log, names[i], names[j]))
  }

  ghost predicate CapSeen(log: seq<Sample>, cap: Capability) {
    exists sample <- log :: cap in sample.caps
  }

  /** The capabilities are the union of those of the samples. */
  ghost predicate CapsFromLog(log: seq<Sample>, caps: set<Capability>) {
    forall cap :: cap in caps <==> CapSeen(log, cap)
  }

  /** The state is exactly what its history makes of it. */
  ghost predicate Explains(config: Config, log: seq<Sample>, s: StateView) {
    && (s.waiting ==> log == [])
    && CapsFromLog(log, s.caps)
    && TableFromLog(config, log, s.table)
    && CallsFromLog(log, s.table.names, s.callGraph)
  }

  // ---------- Recording keeps the explanation ----------

  lemma FreshExplained(config: Config)
    ensures Explains(config, [], FreshState(config))
  {
  }

  /** A system call without frames adds its capabilities. */
  lemma EmptySampleExplained(config: Config, log: seq<Sample>, s: StateView, caps: set<Capability>,
                             syscall: Option<string>)
    requires Explains(config, log, s) && !s.waiting
    ensures Explains(config, log + [Sample(caps, [], syscall)], WithCaps(s, caps))
  {
    var sample := Sample(caps, [], syscall);
    var more := log + [sample];
    assert more[..|more| - 1] == log;
    forall i | 0 <= i < |s.table.names| ensures EntryFromLog(config, more, s.table.names[i], s.table.functions[i]) {
      EntryStays(config, log, [sample], s.table.names[i], s.table.functions[i]);
    }
    forall a, b ensures EverCalled(more, a, b) <==> EverCalled(log, a, b) {
      assert !CalledIn(sample, a, b);
    }
  }

  lemma EntryStays(config: Config, log: seq<Sample>, more: seq<Sample>, name: string, f: Function)
    requires EntryFromLog(config, log, name, f)
    ensures EntryFromLog(config, log + more, name, f)
  {
    var j: nat, k: nat :| FirstSeen(log, name, j, k) && EntryAt(config, log[j], name, f, k == 0);
    assert FirstSeen(log + more, name, j, k);
    assert (log + more)[j] == log[j];
  }

  /** `log` with one more sample of which the names `ns` have been recorded. */
  ghost function Extended(log: seq<Sample>, caps: set<Capability>, syscall: Option<string>, ns: seq<string>)
    : seq<Sample>
  {
    log + [Sample(caps, ns, syscall)]
  }

  lemma ArrivedMore(log: seq<Sample>, caps: set<Capability>, syscall: Option<string>, ns: seq<string>, name: string)
    ensures var known := Arrived(Extended(log, caps, syscall, ns));
            Arrived(Extended(log, caps, syscall, ns + [name])) == if name in known then known else known + [name]
  {
    var l1, l2 := Extended(log, caps, syscall, ns), Extended(log, caps, syscall, ns + [name]);
    assert l1[..|l1| - 1] == log && l2[..|l2| - 1] == log;
    assert (ns + [name])[..|ns + [name]| - 1] == ns;
  }

  /** The names that arrived are the names of the samples. */
  lemma {:induction false} ArrivedMembers(log: seq<Sample>, n: string)
    ensures n in Arrived(log) <==> exists sample <- log :: n in sample.names
  {
    if log != [] {
      var init, last := log[..|log| - 1], log[|log| - 1];
      ArrivedMembers(init, n);
      AddNewMembers(Arrived(init), last.names, n);
      assert log == init + [last];
    }
  }

  lemma EntryStaysExtended(
      config: Config, log: seq<Sample>, caps: set<Capability>, syscall: Option<string>, ns: seq<string>, name: string,
      n: string, f: Function)
    requires EntryFromLog(config, Extended(log, caps, syscall, ns), n, f)
    ensures EntryFromLog(config, Extended(log, caps, syscall, ns + [name]), n, f)
  {
    var l1, l2 := Extended(log, caps, syscall, ns), Extended(log, caps, syscall, ns + [name]);
    var j: nat, k: nat :| FirstSeen(l1, n, j, k) && EntryAt(config, l1[j], n, f, k == 0);
    if j < |log| {
      assert l2[j] == l1[j];
    } else {
      assert l2[j].names[..k] == l1[j].names[..k];
    }
    assert forall i :: 0 <= i < j ==> l2[i] == l1[i];
    assert FirstSeen(l2, n, j, k) && EntryAt(config, l2[j], n, f, k == 0);
  }

  /** The frame that brings a new name decides the entry. */
  lemma EntryArrives(
      config: Config, log: seq<Sample>, caps: set<Capability>, syscall: Option<string>, ns: seq<string>, name: string,
      f: Function)
    requires name !in Arrived(Extended(log, caps, syscall, ns))
    requires FrameEntry(config, name, caps, syscall, ns == []) == Ok(f)
    ensures EntryFromLog(config, Extended(log, caps, syscall, ns + [name]), name, f)
  {
    var l1, l2 := Extended(log, caps, syscall, ns), Extended(log, caps, syscall, ns + [name]);
    ArrivedMembers(l1, name);
    assert forall i :: 0 <= i < |log| ==> l1[i] in l1 && l1[i] == log[i] == l2[i];
    assert l1[|log|] in l1;
    assert l2[|log|].names[..|ns|] == ns;
    assert FirstSeen(l2, name, |log|, |ns|);
    FrameEntryIs(config, l2[|log|], name, f, |ns| == 0);
  }

  /** One more frame adds at most one call. */
  lemma CallsMore(log: seq<Sample>, caps: set<Capability>, syscall: Option<string>, ns: seq<string>, name: string,
                  a: string, b: string)
    ensures EverCalled(Extended(log, caps, syscall, ns + [name]), a, b) <==>
            EverCalled(Extended(log, caps, syscall, ns), a, b) || (ns != [] && a == name && b == ns[|ns| - 1])
  {
    var s1, s2 := Sample(caps, ns, syscall), Sample(caps, ns + [name], syscall);
    if CalledIn(s1, a, b) {
      var k: nat :| AdjacentAt(s1, a, b, k);
      assert AdjacentAt(s2, a, b, k);
    }
    if CalledIn(s2, a, b) {
      var k: nat :| AdjacentAt(s2, a, b, k);
      assert k + 1 < |ns| ==> AdjacentAt(s1, a, b, k);
    }
    if ns != [] && a == name && b == ns[|ns| - 1] {
      assert AdjacentAt(s2, a, b, |ns| - 1);
    }
    assert CalledIn(s2, a, b) <==> CalledIn(s1, a, b) || (ns != [] && a == name && b == ns[|ns| - 1]);
    assert forall l: Sample :: l in log + [s1] <==> l in log || l == s1;
    assert forall l: Sample :: l in log + [s2] <==> l in log || l == s2;
  }

  lemma TableRecorded(
      config: Config, log: seq<Sample>, caps: set<Capability>, syscall: Option<string>, ns: seq<string>, t: Table,
      name: string, f: Function)
    requires TableFromLog(config, Extended(log, caps, syscall, ns), t)
    requires FrameEntry(config, name, caps, syscall, ns == []) == Ok(f)
    ensures TableFromLog(config, Extended(log, caps, syscall, ns + [name]), Upserted(t, name, f))
  {
    ArrivedMore(log, caps, syscall, ns, name);
    var t' := Upserted(t, name, f);
    if name !in t.names {
      DistinctSnoc(t.names, name);
      EntryArrives(config, log, caps, syscall, ns, name, f);
    }
    forall i | 0 <= i < |t'.names|
      ensures EntryFromLog(config, Extended(log, caps, syscall, ns + [name]), t'.names[i], t'.functions[i])
    {
      if i < |t.names| {
        assert EntryFromLog(config, Extended(log, caps, syscall, ns), t.names[i], t.functions[i]);
        EntryStaysExtended(config, log, caps, syscall, ns, name, t.names[i], t.functions[i]);
      }
    }
  }

  /** The call graph over a longer table with the edge of the new frame. */
  lemma CallsRecorded(
      log: seq<Sample>, caps: set<Capability>, syscall: Option<string>, ns: seq<string>, names: seq<string>,
      names': seq<string>, g: DiGraph<nat>, name: string, child: Option<nat>)
    requires CallsFromLog(Extended(log, caps, syscall, ns), names, g)
    requires Distinct(names) && Distinct(names') && name in names'
    requires names' == if name in names then names else names + [name]
    requires names == Arrived(Extended(log, caps, syscall, ns))
    requires if ns == [] then child == None else ns[|ns| - 1] in names && child == Some(IndexOf(names, ns[|ns| - 1]))
    ensures CallsFromLog(Extended(log, caps, syscall, ns + [name]), names',
                         if child.Some? then g.AddEdge(IndexOf(names', name), child.value) else g)
  {
    var g' := if child.Some? then g.AddEdge(IndexOf(names', name), child.value) else g;
    var l1, l2 := Extended(log, caps, syscall, ns), Extended(log, caps, syscall, ns + [name]);
    forall i: nat, j: nat | i < |names'| && j < |names'|
      ensures Edge(i, j) in g'.EdgeSet() <==> EverCalled(l2, names'[i], names'[j])
    {
      CallsMore(log, caps, syscall, ns, name, names'[i], names'[j]);
      IndexUnique(names', i);
      IndexUnique(names', j);
      if i < |names| && j < |names| {
        IndexUnique(names, j);
        assert Edge(i, j) in g.EdgeSet() <==> EverCalled(l1, names[i], names[j]);
      } else {
        CallsAreOfArrived(l1, names'[i], names'[j]);
        NewNameLast(names, names', i);
        NewNameLast(names, names', j);
        assert Edge(i, j) in g.EdgeSet() ==> Edge(i, j).src < |names| && Edge(i, j).dst < |names|;
      }
      if ns != [] {
        var c := child.value;
        IndexUnique(names', c);
      }
    }
  }

  lemma NewNameLast(names: seq<string>, names': seq<string>, i: nat)
    requires names <= names' && Distinct(names') && i < |names'|
    ensures i >= |names| ==> names'[i] !in names
  {
    if i >= |names| && names'[i] in names {
      var k :| 0 <= k < |names| && names[k] == names'[i];
      SamePosition(names', k, i);
    }
  }

  lemma CallsAreOfArrived(log: seq<Sample>, a: string, b: string)
    ensures EverCalled(log, a, b) ==> a in Arrived(log) && b in Arrived(log)
  {
    ArrivedMembers(log, a);
    ArrivedMembers(log, b);
  }

  /** Recording one frame. */
  lemma FrameRecorded(
      config: Config, log: seq<Sample>, s: StateView, caps: set<Capability>, syscall: Option<string>, ns: seq<string>,
      name: string, f: Function, child: Option<nat>)
    requires Explains(config, Extended(log, caps, syscall, ns), s)
    requires FrameEntry(config, name, caps, syscall, ns == []) == Ok(f)
    requires IsChildOf(s, ns, child)
    ensures var s' := RecordName(s, name, f, child);
            && Explains(config, Extended(log, caps, syscall, ns + [name]), s')
            && name in s'.table.names
            && IsChildOf(s', ns + [name], Some(IndexOf(s'.table.names, name)))
  {
    TableRecorded(config, log, caps, syscall, ns, s.table, name, f);
    CallsRecorded(log, caps, syscall, ns, s.table.names, Upserted(s.table, name, f).names, s.callGraph, name, child);
    var l1, l2 := Extended(log, caps, syscall, ns), Extended(log, caps, syscall, ns + [name]);
    forall cap ensures CapSeen(l1, cap) <==> CapSeen(l2, cap) {
      assert l1[|log|] in l1 && l2[|log|] in l2;
    }
  }

  /** `child` is the index of the last of the names recorded, if there is one. */
  ghost predicate IsChildOf(s: StateView, ns: seq<string>, child: Option<nat>) {
    if ns == [] then child == None
    else ns[|ns| - 1] in s.table.names && child == Some(IndexOf(s.table.names, ns[|ns| - 1]))
  }

  lemma {:induction false} NamesRecorded(
      config: Config, log: seq<Sample>, s: StateView, caps: set<Capability>, syscall: Option<string>, ns: seq<string>,
      names: seq<string>, child: Option<nat>)
    requires Explains(config, Extended(log, caps, syscall, ns), s) && IsChildOf(s, ns, child)
    ensures Explains(config, Extended(log, caps, syscall, ns + Parseable(config, names)),
                     RecordNames(config, s, caps, syscall, names, child))
    decreases |names|
  {
    if names == [] {
      assert ns + Parseable(config, names) == ns;
    } else {
      ParseableCons(config, ns, names);
      match FrameEntry(config, names[0], caps, syscall, child.None?) {
        case Err(_) =>
          NamesRecorded(config, log, s, caps, syscall, ns, names[1..], child);
        case Ok(f) =>
          var s' := RecordName(s, names[0], f, child);
          assert child.None? == (ns == []);
          FrameRecorded(config, log, s, caps, syscall, ns, names[0], f, child);
          var child' := Some(IndexOf(s'.table.names, names[0]));
          NamesRecorded(config, log, s', caps, syscall, ns + [names[0]], names[1..], child');
      }
    }
  }

  lemma ParseableCons(config: Config, ns: seq<string>, names: seq<string>)
    requires names != []
    ensures ns + Parseable(config, names) ==
            (if Nameable(config.demangle, names[0]) then ns + [names[0]] else ns)
            + Parseable(config, names[1..])
  {
    assert ns + [names[0]] + Parseable(config, names[1..]) == ns + ([names[0]] + Parseable(config, names[1..]));
  }

  /** A whole system call: nothing before the start was seen, one sample after. */
  lemma SyscallRecorded(config: Config, log: seq<Sample>, s: StateView, e: Event)
    requires Explains(config, log, s) && e.SyscallExited? && e.meta.Caps?
    ensures Explains(config, if s.waiting then log else log + [SampleOf(config, e)], RecordSyscall(config, s, e))
  {
    if !s.waiting {
      var caps := e.meta.caps;
      EmptySampleExplained(config, log, s, caps, e.syscall);
      if e.canUnwind {
        if Complete(config.startBehaviour, e.frames) {
          var names := NamesOf(e.frames);
          NamesRecorded(config, log, WithCaps(s, caps), caps, e.syscall, [], names, None);
          assert [] + Parseable(config, names) == Parseable(config, names);
        }
      }
    }
  }

  // ---------- Every run ----------

  /** Every process, active or gone, is exactly what its history makes of it. */
  ghost predicate AllExplained(config: Config, v: MapView, h: HistoryView) {
    && config.initPid in v.active
    && v.active.Keys == h.active.Keys
    && (forall pid <- v.active :: Explains(config, h.active[pid], v.active[pid]))
    && |v.inactive| == |h.inactive|
    && (forall i :: 0 <= i < |v.inactive| ==> InactiveExplained(config, v.inactive[i], h.inactive[i]))
  }

  ghost predicate InactiveExplained(config: Config, p: (Pid, StateView), q: (Pid, seq<Sample>)) {
    p.0 == q.0 && p.0 != config.initPid && Explains(config, q.1, p.1)
  }

  lemma StepExplained(config: Config, v: MapView, h: HistoryView, e: Event)
    requires AllExplained(config, v, h)
    ensures AllExplained(config, Step(config, v, e), HistoryStep(config, v, h, e))
  {
    match e {
      case Cloned(pid, child) =>
        FreshExplained(config);
      case Exited(pid) =>
        if pid != config.initPid && pid in v.active {
          assert InactiveExplained(config, (pid, v.active[pid]), (pid, h.active[pid]));
        }
      case SyscallExited(pid, isError, meta, _, _, _) =>
        if !isError && meta.Caps? && pid in v.active {
          SyscallRecorded(config, h.active[pid], v.active[pid], e);
        }
      case OtherEvent =>
    }
  }

  /** After every sequence of events each process's capabilities, function table and call graph are
      exactly what its recorded system calls make of them, and the initial process is active. */
  lemma {:induction false} RunExplained(config: Config, events: seq<Event>)
    ensures AllExplained(config, Run(config, events), History(config, events))
    decreases |events|
  {
    if events == [] {
      FreshExplained(config);
    } else {
      var init := events[..|events| - 1];
      RunExplained(config, init);
      StepExplained(config, Run(config, init), History(config, init), events[|events| - 1]);
    }
  }

  // ---------- Consequences for every run ----------

  /** The initial process never goes, so there is always a report. */
  lemma InitialAlwaysActive(config: Config, events: seq<Event>)
    ensures config.initPid in Run(config, events).active
  {
    RunExplained(config, events);
  }

  /** After `events` some process, active or gone, has the history `log` and the state `s`. */
  ghost predicate Recorded(config: Config, events: seq<Event>, log: seq<Sample>, s: StateView) {
    || (exists pid :: RecordedActive(Run(config, events), History(config, events), pid, log, s))
    || (exists i: nat :: RecordedGone(Run(config, events), History(config, events), i, log, s))
  }

  ghost predicate RecordedActive(v: MapView, h: HistoryView, pid: Pid, log: seq<Sample>, s: StateView) {
    pid in v.active && pid in h.active && v.active[pid] == s && h.active[pid] == log
  }

  ghost predicate RecordedGone(v: MapView, h: HistoryView, i: nat, log: seq<Sample>, s: StateView) {
    && i < |v.inactive| && i < |h.inactive|
    && v.inactive[i].1 == s && h.inactive[i] == (v.inactive[i].0, log)
  }

  lemma RecordedIsExplained(config: Config, events: seq<Event>, log: seq<Sample>, s: StateView)
    requires Recorded(config, events, log, s)
    ensures Explains(config, log, s)
  {
    RunExplained(config, events);
    if i: nat :| RecordedGone(Run(config, events), History(config, events), i, log, s) {
      assert InactiveExplained(config, Run(config, events).inactive[i], History(config, events).inactive[i]);
    }
  }

  /** Every process of a run, active or gone, is recorded with its history. */
  lemma EveryProcessRecorded(config: Config, events: seq<Event>)
    ensures var v, h := Run(config, events), History(config, events);
            && (forall pid <- v.active :: pid in h.active && Recorded(config, events, h.active[pid], v.active[pid]))
            && |v.inactive| == |h.inactive|
            && forall i :: 0 <= i < |v.inactive| ==> Recorded(config, events, h.inactive[i].1, v.inactive[i].1)
  {
    RunExplained(config, events);
    var v, h := Run(config, events), History(config, events);
    forall pid | pid in v.active ensures Recorded(config, events, h.active[pid], v.active[pid]) {
      assert RecordedActive(v, h, pid, h.active[pid], v.active[pid]);
    }
    forall i | 0 <= i < |v.inactive| ensures Recorded(config, events, h.inactive[i].1, v.inactive[i].1) {
      assert InactiveExplained(config, v.inactive[i], h.inactive[i]);
      assert RecordedGone(v, h, i, h.inactive[i].1, v.inactive[i].1);
    }
  }

  /** A process still waiting for its start symbol has recorded nothing. */
  lemma WaitingRecordsNothing(config: Config, events: seq<Event>, log: seq<Sample>, s: StateView)
    requires Recorded(config, events, log, s) && s.waiting
    ensures s.caps == {} && s.table == EMPTY_TABLE && s.callGraph.edges == []
  {
    RecordedIsExplained(config, events, log, s);
    assert s.table.names == [];
    NoEdges(s.callGraph);
  }

  lemma NoEdges(g: DiGraph<nat>)
    ensures g.EdgeSet() == {} <==> g.edges == []
  {
    if g.edges != [] {
      assert g.edges[0] in g.EdgeSet();
    }
  }

  /** Every function's capabilities are among its process's. */
  lemma FunctionCapsWithinProcess(config: Config, events: seq<Event>, log: seq<Sample>, s: StateView, i: nat)
    requires Recorded(config, events, log, s) && i < |s.table.functions|
    ensures s.table.functions[i].capabilities.Keys <= s.caps
  {
    RecordedIsExplained(config, events, log, s);
    var name, f := s.table.names[i], s.table.functions[i];
    assert EntryFromLog(config, log, name, f);
    var j: nat, k: nat :| FirstSeen(log, name, j, k) && EntryAt(config, log[j], name, f, k == 0);
    assert log[j] in log;
    assert f.capabilities.Keys == log[j].caps;
  }

  lemma NotBefore(names: seq<string>, name: string, k: nat)
    requires k <= |names|
    ensures name !in names[..k] ==> forall x :: 0 <= x < k ==> names[x] != name
  {
    assert forall x :: 0 <= x < k ==> names[..k][x] == names[x] && names[..k][x] in names[..k];
  }

  lemma FirstSeenUnique(log: seq<Sample>, name: string, j: nat, k: nat, j': nat, k': nat)
    requires FirstSeen(log, name, j, k) && FirstSeen(log, name, j', k')
    ensures j == j' && k == k'
  {
    assert name in log[j].names && name in log[j'].names;
    assert j == j';
    NotBefore(log[j].names, name, k);
    NotBefore(log[j].names, name, k');
  }

  /** A function shows the capabilities of the system call that first had it on its stack, direct
      if it made the call and transitive otherwise; and the call itself only in the first case. */
  lemma EntryShowsFirstCall(config: Config, events: seq<Event>, log: seq<Sample>, s: StateView, i: nat, j: nat,
                            k: nat)
    requires Recorded(config, events, log, s)
    requires i < |s.table.names| && i < |s.table.functions| && FirstSeen(log, s.table.names[i], j, k)
    ensures var f := s.table.functions[i];
            && IsNameOf(config.demangle, s.table.names[i], f.name)
            && f.capabilities.Keys == log[j].caps
            && (forall cap <- f.capabilities :: f.capabilities[cap] == if k == 0 then Direct else Transitive)
            && f.syscalls == if config.includeSyscalls && k == 0 && log[j].syscall.Some? then
                               {log[j].syscall.value}
                             else {}
  {
    RecordedIsExplained(config, events, log, s);
    var f := s.table.functions[i];
    assert EntryFromLog(config, log, s.table.names[i], f);
    var j': nat, k': nat :| FirstSeen(log, s.table.names[i], j', k')
                            && EntryAt(config, log[j'], s.table.names[i], f, k' == 0);
    FirstSeenUnique(log, s.table.names[i], j, k, j', k');
  }

  /** The function was first recorded as the innermost frame of a stack. */
  ghost predicate FirstSeenInnermost(log: seq<Sample>, name: string) {
    exists j: nat :: FirstSeen(log, name, j, 0)
  }

  ghost predicate OnlyDirect(f: Function) {
    forall cap <- f.capabilities :: f.capabilities[cap] == Direct
  }

  /** A path whose indices strictly fall. */
  ghost predicate Falls(p: seq<nat>) {
    forall i :: 0 <= i < |p| - 1 ==> FallsAt(p, i)
  }

  ghost predicate FallsAt(p: seq<nat>, i: nat)
    requires i + 1 < |p|
  {
    p[i + 1] < p[i]
  }

  lemma {:induction false} AddNewPrefix(known: seq<string>, names: seq<string>, k: nat)
    requires k <= |names|
    ensures AddNew(known, names[..k]) <= AddNew(known, names)
    decreases |names|
  {
    if k == |names| {
      assert names[..k] == names;
    } else {
      AddNewPrefix(known, names[..|names| - 1], k);
      assert names[..|names| - 1][..k] == names[..k];
    }
  }

  lemma {:induction false} ArrivedPrefix(log: seq<Sample>, j: nat)
    requires j <= |log|
    ensures Arrived(log[..j]) <= Arrived(log)
    decreases |log|
  {
    if j == |log| {
      assert log[..j] == log;
    } else {
      var init := log[..|log| - 1];
      ArrivedPrefix(init, j);
      assert init[..j] == log[..j];
      var names := log[|log| - 1].names;
      AddNewPrefix(Arrived(init), names, 0);
      assert names[..0] == [];
    }
  }

  ghost predicate SeenBefore(log: seq<Sample>, n: string, j: nat, k: nat)
    requires j < |log| && k <= |log[j].names|
  {
    n in log[j].names[..k] || exists i :: 0 <= i < j && n in log[i].names
  }

  /** A table lists the names in the order in which they were first seen, each once. */
  lemma ArrivedInOrder(log: seq<Sample>, i: nat, j: nat, k: nat)
    requires i < |Arrived(log)| && FirstSeen(log, Arrived(log)[i], j, k)
    ensures Distinct(Arrived(log))
    ensures forall n :: n in Arrived(log)[..i] <==> SeenBefore(log, n, j, k)
  {
    ArrivedDistinct(log);
    var name := Arrived(log)[i];
    var known := ArrivedBefore(log, j, k);
    var more := ArrivedBefore(log, j, k + 1);
    assert log[j].names[..k + 1][..k] == log[j].names[..k];
    assert more == known + [name];
    assert Arrived(log)[|known|] == more[|known|] == name;
    SamePosition(Arrived(log), i, |known|);
    assert Arrived(log)[..i] == known;
  }

  lemma {:induction false} ArrivedDistinct(log: seq<Sample>)
    ensures Distinct(Arrived(log))
    decreases |log|
  {
    if log != [] {
      ArrivedDistinct(log[..|log| - 1]);
      AddNewDistinct(Arrived(log[..|log| - 1]), log[|log| - 1].names);
    }
  }

  /** The names that arrived before position `k` of sample `j`. */
  lemma ArrivedBefore(log: seq<Sample>, j: nat, k: nat) returns (known: seq<string>)
    requires j < |log| && k <= |log[j].names|
    ensures known == AddNew(Arrived(log[..j]), log[j].names[..k]) && known <= Arrived(log)
    ensures forall n :: n in known <==> n in log[j].names[..k] || exists i :: 0 <= i < j && n in log[i].names
  {
    known := AddNew(Arrived(log[..j]), log[j].names[..k]);
    AddNewPrefix(Arrived(log[..j]), log[j].names, k);
    assert log[..j + 1][..j] == log[..j];
    ArrivedPrefix(log, j + 1);
    forall n ensures n in known <==> n in log[j].names[..k] || exists i :: 0 <= i < j && n in log[i].names {
      AddNewMembers(Arrived(log[..j]), log[j].names[..k], n);
      ArrivedMembers(log[..j], n);
      if i :| 0 <= i < j && n in log[i].names {
        assert log[..j][i] in log[..j];
      }
      if sample :| sample in log[..j] && n in sample.names {
        var i :| 0 <= i < j && log[..j][i] == sample;
        assert log[i] == sample;
      }
    }
  }

  /** What was called when a function first appeared arrived before it. */
  lemma CalleeArrivedBefore(config: Config, log: seq<Sample>, s: StateView, i: nat, j: nat, k: nat) returns (c: nat)
    requires Explains(config, log, s) && i < |s.table.names|
    requires FirstSeen(log, s.table.names[i], j, k) && k > 0
    ensures c < i && Edge(i, c) in s.callGraph.EdgeSet()
  {
    var names := s.table.names;
    var callee := log[j].names[k - 1];
    var known := ArrivedBefore(log, j, k);
    assert callee in log[j].names[..k];
    c :| 0 <= c < |known| && known[c] == callee;
    assert names[c] == callee;
    assert names[i] !in known;
    assert forall x :: 0 <= x < |known| ==> names[x] == known[x] && known[x] in known;
    assert AdjacentAt(log[j], names[i], callee, k - 1);
    assert CalledIn(log[j], names[i], callee);
    assert EverCalled(log, names[i], names[c]);
  }

  lemma FallingStep(es: set<Edge<nat>>, i: nat, c: nat, q: seq<nat>)
    requires q != [] && IsPath(es, c, q[|q| - 1], q) && Falls(q) && Edge(i, c) in es && c < i
    ensures IsPath(es, i, q[|q| - 1], [i] + q) && Falls([i] + q)
  {
    var p := [i] + q;
    forall x | 0 <= x < |p| - 1 ensures Linked(es, p, x) && FallsAt(p, x) {
      if x > 0 {
        assert Linked(es, q, x - 1) && FallsAt(q, x - 1);
      }
    }
  }

  /** From every function the call graph leads, over strictly falling indices, to one first recorded
      as the innermost frame of a stack. */
  lemma {:induction false} LeadsToInnermost(config: Config, events: seq<Event>, log: seq<Sample>, s: StateView, i: nat)
    returns (p: seq<nat>)
    requires Recorded(config, events, log, s) && i < |s.table.names|
    ensures p != [] && p[|p| - 1] < |s.table.names| && IsPath(s.callGraph.EdgeSet(), i, p[|p| - 1], p) && Falls(p)
    ensures FirstSeenInnermost(log, s.table.names[p[|p| - 1]])
    ensures p[|p| - 1] < |s.table.functions| && OnlyDirect(s.table.functions[p[|p| - 1]])
    decreases i
  {
    RecordedIsExplained(config, events, log, s);
    var name, f := s.table.names[i], s.table.functions[i];
    assert EntryFromLog(config, log, name, f);
    var j: nat, k: nat :| FirstSeen(log, name, j, k) && EntryAt(config, log[j], name, f, k == 0);
    if k == 0 {
      p := [i];
    } else {
      var c := CalleeArrivedBefore(config, log, s, i, j, k);
      var q := LeadsToInnermost(config, events, log, s, c);
      p := [i] + q;
      FallingStep(s.callGraph.EdgeSet(), i, c, q);
    }
  }

  /** Processes that are gone stay as they were, whatever comes after. */
  lemma {:induction false} GoneStaysGone(config: Config, events: seq<Event>, more: seq<Event>)
    ensures Run(config, events).inactive <= Run(config, events + more).inactive
    decreases |more|
  {
    if more == [] {
      assert events + more == events;
    } else {
      GoneStaysGone(config, events, more[..|more| - 1]);
      assert (events + more)[..|events + more| - 1] == events + more[..|more| - 1];
    }
  }
}
