/** The report of a run (runtime/process.rs), and what it shows of the system calls recorded. */
module RunReports {
  import opened Graphs
  import opened Reports
  import opened Functions
  import opened Recorder

  // ---------- The report from the states ----------

  ghost function ProcessOf(s: StateView): Process {
    Process(s.caps, s.table.functions, s.callGraph.edges)
  }

  /** The processes of `pids` in the order of their pids. */
  ghost function InPidOrder(active: map<Pid, StateView>, pids: set<Pid>): seq<Process>
    requires pids <= active.Keys
    decreases |pids|
  {
    if |pids| == 0 then []
    else
      var m := LeastPid(pids);
      [ProcessOf(active[m])] + InPidOrder(active, pids - {m})
  }

  ghost function ProcessesOf(inactive: seq<(Pid, StateView)>): seq<Process> {
    if inactive == [] then []
    else ProcessesOf(inactive[..|inactive| - 1]) + [ProcessOf(inactive[|inactive| - 1].1)]
  }

  /** The report: the initial process, with its own capabilities only; and the other processes,
      those still active by pid, then those gone in the order they went. */
  ghost function ReportOfRun(config: Config, v: MapView, includeChildren: bool): Report
    requires config.initPid in v.active
  {
    Report(ProcessOf(v.active[config.initPid]),
           if includeChildren then
             InPidOrder(v.active, v.active.Keys - {config.initPid}) + ProcessesOf(v.inactive)
           else [])
  }

  // ---------- What a report shows ----------

  /** The process shows exactly these samples: the union of their capabilities, the entries of their names in
      the order of arrival, and the calls of their stacks, each once. */
  ghost predicate Shows(config: Config, log: seq<Sample>, p: Process) {
    && CapsFromLog(log, p.capabilities)
    && |p.functions| == |Arrived(log)|
    && (forall i {:trigger p.functions[i]} :: 0 <= i < |p.functions| ==>
          EntryFromLog(config, log, Arrived(log)[i], p.functions[i]))
    && CallsFromLog(log, Arrived(log), DiGraph(p.edges))
  }

  ghost predicate PidsRise(pids: seq<Pid>) {
    forall i, j :: 0 <= i < j < |pids| ==> PidsRiseAt(pids, i, j)
  }

  ghost predicate PidsRiseAt(pids: seq<Pid>, i: nat, j: nat)
    requires i < |pids| && j < |pids|
  {
    pids[i].raw < pids[j].raw
  }

  /** The children are the other processes: first the active ones, which are `pids`, then those gone. */
  ghost predicate ShowsOthers(config: Config, h: HistoryView, pids: seq<Pid>, children: seq<Process>) {
    && PidsRise(pids)
    && (forall pid :: pid in pids <==> pid in h.active && pid != config.initPid)
    && |pids| <= |children|
    && ShowsActive(config, h, pids, children[..|pids|])
    && ShowsGone(config, h, children[|pids|..])
  }

  ghost predicate ShowsActive(config: Config, h: HistoryView, pids: seq<Pid>, children: seq<Process>) {
    && |children| == |pids|
    && forall i :: 0 <= i < |pids| ==> pids[i] in h.active && Shows(config, h.active[pids[i]], children[i])
  }

  ghost predicate ShowsGone(config: Config, h: HistoryView, children: seq<Process>) {
    && |children| == |h.inactive|
    && forall i :: 0 <= i < |children| ==> Shows(config, h.inactive[i].1, children[i])
  }

  /** The report of a run with this history. */
  ghost predicate IsReportOf(config: Config, h: HistoryView, includeChildren: bool, report: Report) {
    && config.initPid in h.active && Shows(config, h.active[config.initPid], report.process)
    && if includeChildren then exists pids :: ShowsOthers(config, h, pids, report.children) else report.children == []
  }

  lemma ExplainedShows(config: Config, log: seq<Sample>, s: StateView)
    requires Explains(config, log, s)
    ensures Shows(config, log, ProcessOf(s))
  {
    var p := ProcessOf(s);
    assert DiGraph(p.edges) == s.callGraph;
    forall i | 0 <= i < |p.functions| ensures EntryFromLog(config, log, Arrived(log)[i], p.functions[i]) {
      assert p.functions[i] == s.table.functions[i];
    }
  }

  lemma PidsRiseCons(m: Pid, rest: seq<Pid>)
    requires PidsRise(rest) && forall pid <- rest :: m.raw < pid.raw
    ensures PidsRise([m] + rest)
  {
    forall i, j | 0 <= i < j < |rest| + 1 ensures PidsRiseAt([m] + rest, i, j) {
      if i > 0 {
        assert PidsRiseAt(rest, i - 1, j - 1);
      } else {
        assert rest[j - 1] in rest;
      }
    }
  }

  /** The pids in their order. */
  ghost function PidList(pids: set<Pid>): seq<Pid>
    decreases |pids|
  {
    if |pids| == 0 then [] else [LeastPid(pids)] + PidList(pids - {LeastPid(pids)})
  }

  lemma {:induction false} PidListRises(pids: set<Pid>)
    ensures PidsRise(PidList(pids))
    ensures forall pid :: pid in PidList(pids) <==> pid in pids
    decreases |pids|
  {
    if |pids| > 0 {
      var m := LeastPid(pids);
      PidListRises(pids - {m});
      forall pid | pid in PidList(pids - {m}) ensures m.raw < pid.raw {
        assert pid in pids - {m} && pid == Pid(pid.raw) && m == Pid(m.raw);
      }
      PidsRiseCons(m, PidList(pids - {m}));
    }
  }

  lemma {:induction false} InPidOrderAt(active: map<Pid, StateView>, pids: set<Pid>)
    requires pids <= active.Keys
    ensures |InPidOrder(active, pids)| == |PidList(pids)|
    ensures forall i :: 0 <= i < |PidList(pids)| ==>
              PidList(pids)[i] in active && InPidOrder(active, pids)[i] == ProcessOf(active[PidList(pids)[i]])
    decreases |pids|
  {
    if |pids| > 0 {
      InPidOrderAt(active, pids - {LeastPid(pids)});
    }
  }

  lemma {:induction false} ProcessAt(inactive: seq<(Pid, StateView)>)
    ensures |ProcessesOf(inactive)| == |inactive|
    ensures forall i :: 0 <= i < |inactive| ==> ProcessesOf(inactive)[i] == ProcessOf(inactive[i].1)
    decreases |inactive|
  {
    if inactive != [] {
      ProcessAt(inactive[..|inactive| - 1]);
    }
  }

  /** Every state of the run shows its history. */
  ghost predicate AllShown(config: Config, v: MapView, h: HistoryView) {
    && v.active.Keys == h.active.Keys
    && (forall pid <- v.active :: Shows(config, h.active[pid], ProcessOf(v.active[pid])))
    && |v.inactive| == |h.inactive|
    && forall i :: 0 <= i < |v.inactive| ==> Shows(config, h.inactive[i].1, ProcessOf(v.inactive[i].1))
  }

  lemma ExplainedAllShown(config: Config, v: MapView, h: HistoryView)
    requires AllExplained(config, v, h)
    ensures AllShown(config, v, h)
  {
    forall pid | pid in v.active ensures Shows(config, h.active[pid], ProcessOf(v.active[pid])) {
      ExplainedShows(config, h.active[pid], v.active[pid]);
    }
    forall i | 0 <= i < |v.inactive| ensures Shows(config, h.inactive[i].1, ProcessOf(v.inactive[i].1)) {
      assert InactiveExplained(config, v.inactive[i], h.inactive[i]);
      ExplainedShows(config, h.inactive[i].1, v.inactive[i].1);
    }
  }

  lemma ActiveShown(config: Config, v: MapView, h: HistoryView, pids: set<Pid>)
    requires AllShown(config, v, h) && pids <= v.active.Keys
    ensures ShowsActive(config, h, PidList(pids), InPidOrder(v.active, pids))
  {
    InPidOrderAt(v.active, pids);
  }

  lemma GoneShown(config: Config, v: MapView, h: HistoryView)
    requires AllShown(config, v, h)
    ensures ShowsGone(config, h, ProcessesOf(v.inactive))
  {
    ProcessAt(v.inactive);
  }

  lemma OthersShown(config: Config, v: MapView, h: HistoryView) returns (pids: seq<Pid>)
    requires AllShown(config, v, h)
    ensures ShowsOthers(config, h, pids,
                        InPidOrder(v.active, v.active.Keys - {config.initPid}) + ProcessesOf(v.inactive))
  {
    var others := v.active.Keys - {config.initPid};
    pids := PidList(others);
    PidListRises(others);
    ActiveShown(config, v, h, others);
    GoneShown(config, v, h);
    var active, gone := InPidOrder(v.active, others), ProcessesOf(v.inactive);
    assert |active| == |pids| && (active + gone)[..|pids|] == active && (active + gone)[|pids|..] == gone;
  }

  /** The report of every run shows exactly what was recorded. */
  lemma ReportShowsHistory(config: Config, events: seq<Event>, includeChildren: bool)
    requires config.initPid in Run(config, events).active
    ensures IsReportOf(config, History(config, events), includeChildren,
                       ReportOfRun(config, Run(config, events), includeChildren))
  {
    var v, h := Run(config, events), History(config, events);
    RunExplained(config, events);
    ExplainedAllShown(config, v, h);
    if includeChildren {
      var pids := OthersShown(config, v, h);
    }
  }
}
