/** What runs of the recorder come to, in terms of the trace: which processes are active, which are
    gone, when a process starts to record, and what it has recorded. */
module Traces {
  import opened Wrappers
  import opened Reports
  import opened Functions
  import opened Recorder

  // ---------- What happens in a trace ----------

  /** The event at `k` starts a process under this pid, cloned from an active one. */
  ghost predicate Spawns(config: Config, events: seq<Event>, k: nat, pid: Pid) {
    && k < |events| && events[k].Cloned? && events[k].child == pid
    && events[k].pid in Run(config, events[..k]).active
  }

  /** The pid is given to a new process after the event at `k`. */
  ghost predicate Respawned(config: Config, events: seq<Event>, k: nat, pid: Pid) {
    exists j: nat :: k < j && Spawns(config, events, j, pid)
  }

  ghost predicate ExitsAt(events: seq<Event>, k: nat, pid: Pid) {
    k < |events| && events[k] == Exited(pid)
  }

  /** The event is a system call of the process that succeeded, with its capabilities known. */
  ghost predicate Succeeds(e: Event, pid: Pid) {
    e.SyscallExited? && e.pid == pid && !e.isError && e.meta.Caps?
  }

  /** A system call of the process now under this pid comes upon the start symbol. */
  ghost predicate StartsAt(config: Config, events: seq<Event>, k: nat, pid: Pid) {
    && k < |events| && Succeeds(events[k], pid) && events[k].canUnwind
    && MeetsStart(config.startBehaviour, events[k].frames)
    && !Respawned(config, events, k, pid)
  }

  ghost predicate StartedSince(config: Config, events: seq<Event>, pid: Pid) {
    exists k: nat :: StartsAt(config, events, k, pid)
  }

  lemma SpawnsInit(config: Config, events: seq<Event>, k: nat, pid: Pid)
    requires k + 1 < |events|
    ensures Spawns(config, events, k, pid) <==> Spawns(config, events[..|events| - 1], k, pid)
  {
    assert events[..|events| - 1][..k] == events[..k];
  }

  lemma RespawnedMore(config: Config, events: seq<Event>, k: nat, pid: Pid)
    requires k + 1 < |events|
    ensures Respawned(config, events, k, pid) <==>
            || Respawned(config, events[..|events| - 1], k, pid)
            || Spawns(config, events, |events| - 1, pid)
  {
    var init := events[..|events| - 1];
    if j: nat :| k < j && Spawns(config, events, j, pid) {
      if j + 1 < |events| {
        SpawnsInit(config, events, j, pid);
      }
    }
    if j: nat :| k < j && Spawns(config, init, j, pid) {
      SpawnsInit(config, events, j, pid);
    }
  }

  lemma NotRespawnedAtEnd(config: Config, events: seq<Event>, k: nat, pid: Pid)
    requires k + 1 >= |events|
    ensures !Respawned(config, events, k, pid)
  {
  }

  // ---------- The gate ----------

  lemma StartedMore(config: Config, events: seq<Event>, pid: Pid)
    requires events != []
    ensures var last := |events| - 1;
            StartedSince(config, events, pid) <==>
            && !Spawns(config, events, last, pid)
            && (StartedSince(config, events[..last], pid) || StartsAt(config, events, last, pid))
  {
    var last := |events| - 1;
    var init := events[..last];
    if k: nat :| StartsAt(config, events, k, pid) {
      if k < last {
        RespawnedMore(config, events, k, pid);
        assert StartsAt(config, init, k, pid);
      }
    }
    if k: nat :| StartsAt(config, init, k, pid) {
      RespawnedMore(config, events, k, pid);
      assert !Spawns(config, events, last, pid) ==> StartsAt(config, events, k, pid);
    }
  }

  /** A process waits exactly until its start symbol is met; without one it never waits. */
  lemma {:induction false} WaitsUntilStarted(config: Config, events: seq<Event>, pid: Pid)
    requires pid in Run(config, events).active
    ensures Run(config, events).active[pid].waiting <==>
            config.startBehaviour.OnlyAfter? && !StartedSince(config, events, pid)
    decreases |events|
  {
    if events != [] {
      var last := |events| - 1;
      var init, e := events[..last], events[last];
      var v := Run(config, init);
      StartedMore(config, events, pid);
      if !Spawns(config, events, last, pid) {
        WaitsUntilStarted(config, init, pid);
        if Succeeds(e, pid) {
          RecordSyscallGate(config, v.active[pid], e);
          NotRespawnedAtEnd(config, events, last, pid);
        }
      }
    }
  }

  lemma RecordSyscallGate(config: Config, s: StateView, e: Event)
    requires e.SyscallExited? && e.meta.Caps?
    ensures RecordSyscall(config, s, e).waiting <==>
            s.waiting && !(e.canUnwind && MeetsStart(config.startBehaviour, e.frames))
  {
    RecordNamesGate(config, WithCaps(s, e.meta.caps), e.meta.caps, e.syscall, NamesOf(e.frames), None);
  }

  lemma {:induction false} RecordNamesGate(
      config: Config, s: StateView, caps: set<Capability>, syscall: Option<string>, names: seq<string>,
      child: Option<nat>)
    ensures RecordNames(config, s, caps, syscall, names, child).waiting == s.waiting
    decreases |names|
  {
    if names != [] {
      match FrameEntry(config, names[0], caps, syscall, child.None?) {
        case Err(_) => RecordNamesGate(config, s, caps, syscall, names[1..], child);
        case Ok(f) =>
          var s' := RecordName(s, names[0], f, child);
          RecordNamesGate(config, s', caps, syscall, names[1..], Some(IndexOf(s'.table.names, names[0])));
      }
    }
  }

  // ---------- Who is active ----------

  ghost predicate LivesSince(config: Config, events: seq<Event>, k: nat, pid: Pid) {
    Spawns(config, events, k, pid) && forall j: nat :: k < j ==> !ExitsAt(events, j, pid)
  }

  lemma LivesMore(config: Config, events: seq<Event>, pid: Pid)
    requires events != []
    ensures var last := |events| - 1;
            (exists k: nat :: LivesSince(config, events, k, pid)) <==>
            || Spawns(config, events, last, pid)
            || (!ExitsAt(events, last, pid) && exists k: nat :: LivesSince(config, events[..last], k, pid))
  {
    var last := |events| - 1;
    var init := events[..last];
    if k: nat :| LivesSince(config, events, k, pid) {
      if k < last {
        SpawnsInit(config, events, k, pid);
        assert forall j: nat :: k < j && ExitsAt(init, j, pid) ==> ExitsAt(events, j, pid);
        assert LivesSince(config, init, k, pid);
      }
    }
    if Spawns(config, events, last, pid) {
      assert LivesSince(config, events, last, pid);
    }
    if k: nat :| LivesSince(config, init, k, pid) {
      SpawnsInit(config, events, k, pid);
      if !ExitsAt(events, last, pid) {
        assert forall j: nat :: k < j && ExitsAt(events, j, pid) ==> ExitsAt(init, j, pid);
        assert LivesSince(config, events, k, pid);
      }
    }
  }

  /** The active processes are the initial one and those spawned that have not exited since. */
  lemma {:induction false} ActiveExactly(config: Config, events: seq<Event>, pid: Pid)
    ensures pid in Run(config, events).active <==>
            pid == config.initPid || exists k: nat :: LivesSince(config, events, k, pid)
    decreases |events|
  {
    if events != [] {
      ActiveExactly(config, events[..|events| - 1], pid);
      LivesMore(config, events, pid);
    }
  }

  // ---------- Who is gone ----------

  ghost predicate Rises(ks: seq<nat>) {
    forall i, j :: 0 <= i < j < |ks| ==> RisesAt(ks, i, j)
  }

  ghost predicate RisesAt(ks: seq<nat>, i: nat, j: nat)
    requires i < |ks| && j < |ks|
  {
    ks[i] < ks[j]
  }

  lemma RisesSnoc(ks: seq<nat>, k: nat)
    requires Rises(ks) && forall x <- ks :: x < k
    ensures Rises(ks + [k])
  {
    forall i, j | 0 <= i < j < |ks| + 1 ensures RisesAt(ks + [k], i, j) {
      if j < |ks| {
        assert RisesAt(ks, i, j);
      } else {
        assert ks[i] in ks;
      }
    }
  }

  /** The event at `k` ends an active process other than the initial one. */
  ghost predicate GoesAt(config: Config, events: seq<Event>, k: nat) {
    && k < |events| && events[k].Exited? && events[k].pid != config.initPid
    && events[k].pid in Run(config, events[..k]).active
  }

  /** The process that the event at `k` ends was left like this, by its state and by its history. */
  ghost predicate LeftAs(config: Config, events: seq<Event>, k: nat, p: (Pid, StateView), q: (Pid, seq<Sample>)) {
    && GoesAt(config, events, k)
    && p == (events[k].pid, Run(config, events[..k]).active[events[k].pid])
    && events[k].pid in History(config, events[..k]).active
    && q == (events[k].pid, History(config, events[..k]).active[events[k].pid])
  }

  /** The processes gone are those that ended, in that order, each as it was then. */
  ghost predicate GoneAt(config: Config, events: seq<Event>, ks: seq<nat>) {
    var v, h := Run(config, events), History(config, events);
    && Rises(ks)
    && (forall k: nat :: k in ks <==> GoesAt(config, events, k))
    && |v.inactive| == |ks| && |h.inactive| == |ks|
    && forall i :: 0 <= i < |ks| ==> LeftAs(config, events, ks[i], v.inactive[i], h.inactive[i])
  }

  lemma LeftBefore(config: Config, events: seq<Event>, k: nat)
    requires k + 1 < |events|
    ensures GoesAt(config, events, k) <==> GoesAt(config, events[..|events| - 1], k)
    ensures forall p, q :: LeftAs(config, events[..|events| - 1], k, p, q) ==> LeftAs(config, events, k, p, q)
  {
    assert events[..|events| - 1][..k] == events[..k];
  }

  /** The last event adds at most one process to those gone. */
  lemma GoneMore(config: Config, events: seq<Event>)
    requires events != []
    ensures var last := |events| - 1;
            var v, h := Run(config, events[..last]), History(config, events[..last]);
            var v', h' := Run(config, events), History(config, events);
            if GoesAt(config, events, last) then
              && v'.inactive == v.inactive + [(events[last].pid, v.active[events[last].pid])]
              && events[last].pid in h.active
              && h'.inactive == h.inactive + [(events[last].pid, h.active[events[last].pid])]
            else v'.inactive == v.inactive && h'.inactive == h.inactive
  {
    RunExplained(config, events[..|events| - 1]);
  }

  lemma {:induction false} GoneInOrder(config: Config, events: seq<Event>) returns (ks: seq<nat>)
    ensures GoneAt(config, events, ks)
    decreases |events|
  {
    ks := [];
    if events != [] {
      var last := |events| - 1;
      var before := GoneInOrder(config, events[..last]);
      ks := if GoesAt(config, events, last) then before + [last] else before;
      GoneMore(config, events);
      forall k: nat ensures k in ks <==> GoesAt(config, events, k) {
        if k < last {
          LeftBefore(config, events, k);
        }
      }
      var v, h := Run(config, events), History(config, events);
      forall i | 0 <= i < |ks| ensures LeftAs(config, events, ks[i], v.inactive[i], h.inactive[i]) {
        if i < |before| {
          assert before[i] in before;
          LeftBefore(config, events, before[i]);
        }
      }
      RisesSnoc(before, last);
    }
  }

  // ---------- What was recorded ----------

  /** The event at `k` is recorded by the process now under this pid. */
  ghost predicate Counts(config: Config, events: seq<Event>, pid: Pid, k: nat) {
    && k < |events| && Succeeds(events[k], pid) && !Respawned(config, events, k, pid)
    && (config.startBehaviour.OnlyAfter? ==> StartedSince(config, events[..k], pid))
  }

  /** `log` holds the system calls at `ks`, which are all that count. */
  ghost predicate LogsCalls(config: Config, events: seq<Event>, pid: Pid, ks: seq<nat>, log: seq<Sample>) {
    && Rises(ks)
    && (forall k: nat :: k in ks <==> Counts(config, events, pid, k))
    && |log| == |ks|
    && forall i :: 0 <= i < |ks| ==> SampledAt(config, events, ks[i], log[i])
  }

  ghost predicate SampledAt(config: Config, events: seq<Event>, k: nat, sample: Sample) {
    k < |events| && events[k].SyscallExited? && events[k].meta.Caps? && sample == SampleOf(config, events[k])
  }

  lemma CountsMore(config: Config, events: seq<Event>, pid: Pid, k: nat)
    requires k + 1 < |events|
    ensures Counts(config, events, pid, k) <==>
            Counts(config, events[..|events| - 1], pid, k) && !Spawns(config, events, |events| - 1, pid)
  {
    RespawnedMore(config, events, k, pid);
    assert events[..|events| - 1][..k] == events[..k];
  }

  /** The history of an active process holds, in order, exactly its successful system calls since it was
      spawned and had its start symbol met. */
  lemma {:induction false} HistoryIsCalls(config: Config, events: seq<Event>, pid: Pid) returns (ks: seq<nat>)
    requires pid in Run(config, events).active
    ensures pid in History(config, events).active
    ensures LogsCalls(config, events, pid, ks, History(config, events).active[pid])
    decreases |events|
  {
    ks := [];
    if events == [] {
      return;
    }
    var last := |events| - 1;
    HistoryMore(config, events, pid);
    if Spawns(config, events, last, pid) {
      NothingCounts(config, events, pid);
      return;
    }
    var before := HistoryIsCalls(config, events[..last], pid);
    LogsMore(config, events, pid, before, History(config, events[..last]).active[pid]);
    ks := if Counts(config, events, pid, last) then before + [last] else before;
  }

  lemma LogsMore(config: Config, events: seq<Event>, pid: Pid, ks: seq<nat>, log: seq<Sample>)
    requires events != [] && !Spawns(config, events, |events| - 1, pid)
    requires LogsCalls(config, events[..|events| - 1], pid, ks, log)
    ensures var last := |events| - 1;
            if Counts(config, events, pid, last) then
              LogsCalls(config, events, pid, ks + [last], log + [SampleOf(config, events[last])])
            else LogsCalls(config, events, pid, ks, log)
  {
    var last := |events| - 1;
    var init := events[..last];
    forall k: nat | k < last ensures Counts(config, events, pid, k) <==> Counts(config, init, pid, k) {
      CountsMore(config, events, pid, k);
    }
    forall k | k in ks ensures k < last {
      assert Counts(config, init, pid, k);
    }
    RisesSnoc(ks, last);
    forall i | 0 <= i < |ks| ensures SampledAt(config, events, ks[i], log[i]) {
      assert SampledAt(config, init, ks[i], log[i]);
    }
  }

  lemma NothingCounts(config: Config, events: seq<Event>, pid: Pid)
    requires events != [] && Spawns(config, events, |events| - 1, pid)
    ensures forall k: nat :: !Counts(config, events, pid, k)
  {
    forall k: nat ensures !Counts(config, events, pid, k) {
      if k + 1 < |events| {
        assert Respawned(config, events, k, pid);
      }
    }
  }

  /** The last event starts a history, adds a system call that counts to it, or leaves it as it was. */
  lemma HistoryMore(config: Config, events: seq<Event>, pid: Pid)
    requires events != [] && pid in Run(config, events).active
    ensures var last := |events| - 1;
            var h, h' := History(config, events[..last]), History(config, events);
            && pid in h'.active
            && if Spawns(config, events, last, pid) then h'.active[pid] == []
               else
                 && pid in Run(config, events[..last]).active && pid in h.active
                 && h'.active[pid] ==
                    if Counts(config, events, pid, last) then h.active[pid] + [SampleOf(config, events[last])]
                    else h.active[pid]
  {
    var last := |events| - 1;
    var init := events[..last];
    RunExplained(config, init);
    assert Run(config, init).active.Keys == History(config, init).active.Keys;
    StepOfHistory(config, Run(config, init), History(config, init), events[last], pid);
    if !Spawns(config, events, last, pid) {
      NotRespawnedAtEnd(config, events, last, pid);
      WaitsUntilStarted(config, init, pid);
    }
  }

  lemma StepOfHistory(config: Config, v: MapView, h: HistoryView, e: Event, pid: Pid)
    requires v.active.Keys == h.active.Keys && pid in Step(config, v, e).active
    ensures var h' := HistoryStep(config, v, h, e);
            && pid in h'.active
            && if e.Cloned? && e.child == pid && e.pid in v.active then h'.active[pid] == []
               else
                 && pid in v.active
                 && h'.active[pid] ==
                    if Succeeds(e, pid) && !v.active[pid].waiting then h.active[pid] + [SampleOf(config, e)]
                    else h.active[pid]
  {
  }
}
