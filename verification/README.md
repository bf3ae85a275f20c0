# cargo-capslock: verified model

cargo-capslock reports which capabilities (files, network, execution, ...) the
functions of a Rust program use. It does so statically, from LLVM bitcode, and at
runtime, from a trace of system calls. This project models its analyses in Dafny and
proves what their results mean.

| file | models |
|---|---|
| `LlvmIr.dfy`, `Graphs.dfy`, `Paths.dfy`, `Traversal.dfy` | the parts of LLVM IR the analyses read; directed graphs as petgraph keeps them; walks and reachability; petgraph's `Dfs`, `DfsPostOrder` and `has_path_connecting` |
| `ControlFlowGraph.dfy` | control flow graphs from terminators, and the runs of a function |
| `Dominance.dfy`, `EstimateTree.dfy`, `DominatorTree.dfy`, `DominatorQueries.dfy` | dominance by walks; what updates and sweeps of the estimates keep; the builder with its table updated in place; the queries on both trees |
| `Frontier.dfy`, `ControlDepGraph.dfy`, `FunctionAnalysis.dfy` | dominance frontiers; the control dependence graph, its worklists and its path query; all analyses of a function together |
| `NameParser.dfy`, `Reports.dfy`, `Functions.dfy` | Rust function names; the vocabulary of reports; the function table |
| `CallGraph.dfy`, `CapabilityBubbling.dfy`, `Bitcode.dfy`, `StaticAnalysis.dfy` | the static analysis: functions by type, call graph, bubbling, builder, report |
| `Recorder.dfy`, `Traces.dfy`, `RunReports.dfy`, `Runtime.dfy` | the runtime recorder: a state machine over trace events with the properties of its runs; its runs in terms of the trace alone; what a report shows; and the objects that implement it |

What holds, in short:

- *Dominators.* `build` ends for every graph, within (n-1)(n-2)/2 + 1 sweeps, with exactly the
  immediate dominators by the path definition. The numbering is depth-first pre-order (the
  original calls it rpo). Its proof uses that every numbered node but the first has a predecessor with a
  smaller number; that every estimate is dominated by all strict dominators of its node, which a
  fixpoint alone would not give; and that a sweep in this order only moves an
  estimate to one of its own ancestors.
- *Postdominators* are the same on the reversed graph, and a node that cannot return is
  postdominated by itself alone. *Control dependence* edges are exactly those of the path definition,
  and exactly the decisions a function's runs make: some step from a block commits every returning run
  to the dependent node, and some run returns from the block without it, unless the two are the same.
- *Static reports.* A function has a capability in the report if and only if a chain of calls
  leads from it to a function the capability is listed for, across all modules added; the order of
  the modules does not show, except in indices. Names, listed capabilities and errors are stated from the
  demangler's answers alone, and the error is that of the first name that fails.
- *Runtime reports.* After every sequence of events the report shows, for each process, the capabilities, the
  functions in the order and with the entries they arrived with, and the calls of exactly the system calls
  recorded. Those are the successful ones since the process was spawned and its start symbol was met. The
  children are the other active processes by pid, then those gone in the order they went.

Where code and comments differ the model follows the code: `FunctionMap::upsert` never
updates an entry, so later capabilities of a known function are not added
(src/function.rs:51-61); `Map::into_report` collects all processes' capabilities
and does not use them (src/runtime/process.rs:105-109), so the report shows those of
the initial process; calls through pointers see the functions defined in the
caller's own module (src/static/bitcode.rs:50); and `ipostdom` is empty for every block that cannot
return, also a reachable one.

External parts are parameters: the demangler is a total function from mangled names, and an
event carries the outcome of unwinding and of the capability lookup.

## Model

| member | source | states |
|---|---|---|
| Traversal.DfsIsPreorder | llvm-ir-analysis/src/dominator_tree.rs:70-73 | the numbering visits exactly the reachable nodes, each once, the entry first, and every other node after one of its predecessors |
| Traversal.HasPathConnectingIsReachability | llvm-ir-analysis/src/dominator_tree.rs:235-237 | the path query answers reachability over zero or more edges |
| Traversal.DfsPostOrderIsPostorder | llvm-ir-analysis/src/control_dep_graph.rs:31-33 | on a graph without cycles the walk visits every reachable node once, after all its successors |
| ControlFlowGraphs.New | llvm-ir-analysis/src/control_flow_graph.rs:41-130 | the graph has an edge exactly where a block's terminator allows a step; the entry is the first block |
| ControlFlowGraphs.RunIsPath | llvm-ir-analysis/src/control_flow_graph.rs:47-124 | the runs of the function are the walks over its graph |
| ControlFlowGraphs.ReturnHasNoSuccessor | llvm-ir-analysis/src/control_flow_graph.rs:47-124 | nothing follows `Return` |
| EstimateTree.FirstPassStep | llvm-ir-analysis/src/dominator_tree.rs:86-88 | an estimate from the predecessors done so far keeps a tree of smaller numbers, loses no dominator, and lies between its bounds |
| EstimateTree.MeetIsSafe | llvm-ir-analysis/src/dominator_tree.rs:118-137 | every strict dominator of a node dominates the meet of the node's predecessors, in every state of the estimates |
| EstimateTree.UpdateClimbs | llvm-ir-analysis/src/dominator_tree.rs:93-103 | in the middle of a sweep the new estimate is one of the old estimate's current ancestors or the old estimate |
| EstimateTree.SweepStep | llvm-ir-analysis/src/dominator_tree.rs:93-103 | one update in sweep order keeps everything the next update relies on |
| EstimateTree.SweepAccount | llvm-ir-analysis/src/dominator_tree.rs:90-104 | a sweep that changes something strictly lowers the sum of the estimates' numbers, which is bounded below |
| EstimateTree.FixpointIsDominatorTree | llvm-ir-analysis/src/dominator_tree.rs:90-110 | a fixpoint that lost no dominator holds exactly the immediate dominators by the path definition |
| DominatorTrees.DomTreeBuilder.CommonDominator | llvm-ir-analysis/src/dominator_tree.rs:142-158 | on every tree of estimates the two-finger walk ends, never asks for the entry's parent, and finds the node whose ancestors are the common ancestors |
| DominatorTrees.DomTreeBuilder.ComputeIdom | llvm-ir-analysis/src/dominator_tree.rs:118-137 | nothing exactly for the entry, otherwise the nearest common ancestor of the predecessors that have estimates; there always is one |
| DominatorTrees.DomTreeBuilder.FirstEstimates | llvm-ir-analysis/src/dominator_tree.rs:84-88 | after the first pass every reachable node has a safe estimate with a smaller number |
| DominatorTrees.DomTreeBuilder.Sweep | llvm-ir-analysis/src/dominator_tree.rs:92-103 | estimates only sink, no dominator is lost, the flag is set exactly on a change, and a sweep without change has found the fixpoint |
| DominatorTrees.DomTreeBuilder.Build | llvm-ir-analysis/src/dominator_tree.rs:79-111 | the result has an edge exactly from each immediate dominator to its node, no reachable node but the entry without one, after at most (n-1)(n-2)/2 + 1 sweeps |
| Dominance.DominatorsChain | llvm-ir-analysis/src/dominator_tree.rs:14-22 | two dominators of a reachable node are themselves ordered by dominance |
| Dominance.TreePathIsDominance | llvm-ir-analysis/src/dominator_tree.rs:235-237 | a path in the dominator tree is dominance, for reachable nodes |
| DominatorQueries.NewDominatorTree | llvm-ir-analysis/src/dominator_tree.rs:162-167 | for every graph the finished tree is the dominator tree |
| DominatorQueries.NewPostDominatorTree | llvm-ir-analysis/src/dominator_tree.rs:257-264 | the finished tree is the dominator tree of the reversed graph from `Return` |
| DominatorQueries.DominatesIsPathDominance | llvm-ir-analysis/src/dominator_tree.rs:230-245 | `dominates(a, b)` if and only if a = b, or b is reachable and a lies on every walk from the entry to b; `strictly_dominates` likewise for a ≠ b |
| DominatorQueries.DominatesIsChainOrder | llvm-ir-analysis/src/dominator_tree.rs:230-245 | `dominates` is a partial order whose lower sets are chains |
| DominatorQueries.OnlyParentIsImmediate | llvm-ir-analysis/src/dominator_tree.rs:286-296 | no node has two parents, so the panics on a second parent never happen; no parent exactly for the root and unreachable nodes |
| DominatorQueries.IdomIsImmediate | llvm-ir-analysis/src/dominator_tree.rs:179-219 | `idom` and `idom_of_return` never panic and give the immediate dominator, or nothing exactly for the entry and unreachable nodes |
| DominatorQueries.RunVisitsIdom | llvm-ir-analysis/src/dominator_tree.rs:169-178 | every run from the entry that reaches a block has visited its `idom` before |
| DominatorQueries.ReversedDominance | llvm-ir-analysis/src/control_flow_graph.rs:176-182 | dominance on the reversed graph is postdominance by walks to `Return` |
| DominatorQueries.PostdominatesIsPathPostdominance | llvm-ir-analysis/src/dominator_tree.rs:328-343 | `postdominates(a, b)` if and only if a = b, or b can return and a lies on every walk from b to `Return`; `strictly_postdominates` likewise for a ≠ b |
| DominatorQueries.IpostdomIsNearest | llvm-ir-analysis/src/dominator_tree.rs:266-296 | never panics; nothing exactly for `Return` and nodes that cannot return, otherwise the strict postdominator that all others postdominate |
| DominatorQueries.RunVisitsIpostdom | llvm-ir-analysis/src/dominator_tree.rs:272-279 | every run from a block that reaches `Return` visits the block's `ipostdom` after it |
| Frontier.FrontierRecurrence | llvm-ir-analysis/src/control_dep_graph.rs:31-51 | the recurrence over predecessors and children computes exactly the frontier by the path definition, in both directions |
| ControlDepGraphs.PostdominanceFrontier | llvm-ir-analysis/src/control_dep_graph.rs:34-47 | the two loops collect the predecessors and the children's frontiers, without the nodes whose immediate postdominator is x |
| ControlDepGraphs.New | llvm-ir-analysis/src/control_dep_graph.rs:25-57 | an edge from x to y if and only if y has a successor that can return and is postdominated by x, while x does not strictly postdominate y |
| ControlDepGraphs.ReturnNotInvolved | llvm-ir-analysis/src/control_dep_graph.rs:71-76 | no control dependence edge touches `Return`, so the panic is unreachable |
| ControlDepGraphs.ControlDependencies | llvm-ir-analysis/src/control_dep_graph.rs:166-178 | ends on every graph, cyclic ones too, with exactly what the block reaches over one edge or more |
| ControlDepGraphs.ControlDependents | llvm-ir-analysis/src/control_dep_graph.rs:197-208 | ends on every graph with exactly what reaches the block over one edge or more |
| ControlDepGraphs.IsControlDependentIsReachability | llvm-ir-analysis/src/control_dep_graph.rs:119-146 | `is_control_dependent` is the relation of both closures, for a block and itself too |
| FunctionAnalyses.Analyze | llvm-ir-analysis/src/lib.rs:216-252 | for every supported function all four analyses are as specified, and no dependence ends in `Return` |
| FunctionAnalyses.ControlDependenceIsDecision | llvm-ir-analysis/src/control_dep_graph.rs:14-18 | x depends on y if and only if some step from y commits every returning run to x, and x = y or a run from y may return without x |
| NameParser.ParseIsLossless | src/function.rs:86-120 | printing a parsed name in the shape of its branch gives back the input |
| NameParser.ParseFailsExactly | src/function.rs:86-107 | parsing fails exactly on a name in angle form that has no ">::" after its first " as ", or none at all if it has no " as "; as a trait method in the first case and a method in the second, with the text behind the angle |
| NameParser.ParsesExactly | src/function.rs:86-120 | parsing gives the parts if and only if the name is made of them: conditions on the text alone for each of the four branches |
| NameParser.TraitMethodParsesExactly | src/function.rs:87-97 | "<t as r>::m" parses to t, r, m if and only if t neither contains " as " nor ends in " as" and m has no ">::" |
| NameParser.AngledMethodParsesExactly | src/function.rs:98-107 | "<t>::m" parses to t, m if and only if no " as " occurs and m has no ">::" |
| NameParser.PathMethodParsesExactly | src/function.rs:108-114 | "t::m" parses by the plain branch to t, m if and only if it does not start with an angle or end in one, and m neither contains "::" nor starts with a colon |
| Functions.FunctionMap.Upsert | src/function.rs:51-61 | the first arrival of a name decides its entry and its index; a known name changes nothing |
| Functions.MangledNameExactly | src/function.rs:64-84 | the name is the one parsed from what the demangler shows, or its display name and language; it fails exactly where the demangler fails or the parts cannot be parsed, with that error |
| Functions.ToFunctionWithFnCaps | src/function.rs:153-167 | the entry has the name and, all direct, the capabilities listed under what the demangler shows |
| Functions.FunctionMap.UpsertWithCaps | src/function.rs:40-49 | a new name gets the entry of the demangler's answer; a name that fails is that error and leaves the table alone |
| CapabilityBubbling.BubbleTransitiveCapabilities | src/graph.rs:29-53 | ends for every graph; a function ends with a capability if and only if it reaches a function that began with it; own ones keep their type, added ones are transitive |
| CapabilityBubbling.BubblingUnique | src/graph.rs:29-53 | the result does not depend on the order of the edges |
| CallGraphs.NewFunctionsByType | llvm-ir-analysis/src/functions_by_type.rs:14-34 | the functions of a type are exactly those defined with it in the modules |
| CallGraphs.New | llvm-ir-analysis/src/call_graph.rs:26-96 | an edge exactly where some call or invoke of the caller may land: the function named, or any function of the pointer's type |
| Bitcode.Builder.UpsertFunctionMap | src/static/bitcode.rs:66-80 | afterwards the table lists exactly the names mentioned, in the order of their first mention, definitions before declarations, with the capabilities listed for them; fails exactly if some name does, with the error of the first |
| Bitcode.Builder.UpsertCallGraph | src/static/bitcode.rs:49-64 | if every callee named is in this module or one before it, every name has an index and the index edges become exactly the calls of all modules |
| Bitcode.Builder.AddModule | src/static/bitcode.rs:30-41 | keeps table and edges exactly those of the modules added; fails exactly if a name of the module does, with the error of the first; a callee needs an entry only if none does, from this module or one before it |
| Bitcode.InheritsIsChaining | src/static/bitcode.rs:49-64 | reaching a capability over index edges is having a chain of calls, over all modules, to a function it is listed for |
| Bitcode.Builder.IntoReport | src/static/bitcode.rs:93-119 | entries in the order of first mention, named from the demangler's answer; each has exactly the capabilities of the functions it chains to, direct exactly if listed for itself; the overall set is the union of all listed |
| StaticAnalysis.Analyze | src/static/mod.rs:63-87 | for all modules in any number on which the original does not panic: a report as above exactly if no name fails, otherwise the error of the first that does, over the modules in order and in each the definitions before the declarations |
| StaticAnalysis.SelfContainedAccepted | src/static/bitcode.rs:49-64 | modules that each define or declare what they call raise no panic, in whatever order they are added |
| StaticAnalysis.ChainedCapabilityReported | src/static/bitcode.rs:93-119 | soundness: a capability listed at the end of a call chain appears on the function at its start and in the overall set |
| StaticAnalysis.ModuleOrderInvisible | src/static/bitcode.rs:30-80 | for the same modules in another order, or repeated, entries per name, the entries as a multiset, edges between names and the overall set are the same |
| Traces.WaitsUntilStarted | src/runtime/mod.rs:255-261 | in every run a process waits exactly until a successful system call since its spawn came upon the configured symbol with no unreadable frame before it; without a configured symbol it never waits |
| Traces.ActiveExactly | src/runtime/process.rs:61-102 | in every run the active processes are the initial one and those spawned by an active one that have not exited since |
| Traces.GoneInOrder | src/runtime/process.rs:61-67 | in every run the inactive processes are exactly those that exited while active, in that order, each as it was then |
| Traces.HistoryIsCalls | src/runtime/mod.rs:188-235 | in every run the samples of a process are, in order, exactly its successful system calls since its spawn and since its start symbol was met |
| Recorder.SyscallRecorded | src/runtime/mod.rs:222-321 | one system call extends a state that is explained by its history to one explained by the longer history |
| Recorder.RunExplained | src/runtime/mod.rs:188-199 | after every sequence of events each process's capabilities, function table in its order, entries and call edges are exactly those of its recorded stacks |
| Recorder.InitialAlwaysActive | src/runtime/process.rs:61-67 | the initial process is active after every sequence of events |
| Recorder.WaitingRecordsNothing | src/runtime/mod.rs:230-274 | in every run a process waiting for its start symbol has no capabilities, functions or edges |
| Recorder.FunctionCapsWithinProcess | src/runtime/mod.rs:230-235 | in every run each function's capabilities are among its process's |
| Recorder.ArrivedInOrder | src/function.rs:51-61 | a process's functions are listed, each once, in the order in which the recorded stacks first had them |
| Recorder.EntryShowsFirstCall | src/runtime/mod.rs:277-303 | in every run a function's entry is that of the first stack it was on: that call's capabilities, direct for the innermost frame and transitive for all others, with the call's name only if innermost and asked for |
| Recorder.LeadsToInnermost | src/runtime/mod.rs:274-312 | in every run and process, from every function the call graph leads, over strictly falling valid indices, to one first recorded as an innermost frame, whose capabilities are direct |
| Recorder.GoneStaysGone | src/runtime/process.rs:61-67 | a process that exited is never changed again |
| RunReports.ReportShowsHistory | src/runtime/process.rs:104-128 | the report of every run shows for each process the union of its samples' capabilities, the entries of its names in order of arrival and the calls of its stacks |
| Runtime.State.CollectNames | src/runtime/mod.rs:245-272 | the names of the frames that have one, in order, or nothing exactly if a frame cannot be read or is the configured symbol; the gate opens exactly if that symbol comes before any unreadable frame |
| Runtime.State.RecordStack | src/runtime/mod.rs:274-318 | the recording loop does to the state what the machine does with the names |
| Runtime.State.HandleSyscall | src/runtime/mod.rs:230-320 | the process's state moves as the machine's, whether or not the stack can be unwound |
| Runtime.ProcessMap.Spawn | src/runtime/process.rs:78-102 | a known parent gives the child a fresh state of its own; an unknown one is an error and changes nothing |
| Runtime.ProcessMap.Exit | src/runtime/process.rs:61-67 | a process other than the initial one moves to the inactive ones unchanged |
| Runtime.ProcessMap.HandleSyscallExit | src/runtime/mod.rs:222-321 | changes the one process concerned as the machine does and no other; which error comes of which failure |
| Runtime.EventErrors | src/runtime/mod.rs:188-242 | which error comes of which failure; an error leaves everything as it was, except that the capabilities stay if the stack cannot be unwound |
| Runtime.ProcessMap.HandleEvent | src/runtime/mod.rs:188-199 | every event is one step of the machine, with the error of its first failed check; processes never come to share state |
| Runtime.ProcessMap.IntoReport | src/runtime/process.rs:104-128 | the states' capabilities, functions and edges: the initial process, and on request the others by pid and then by exit; an error exactly without the initial process |
| Runtime.Record | src/runtime/mod.rs:98-129 | for every sequence of events there is a report; its process shows exactly the samples of the initial process, its children exactly those of the other processes, active by pid and then gone in order, or none without the option |

## Left out

- Bitcode loading, LLVM constants and types: a module is its functions, declarations, call sites and terminators; type identity is equality of a name.
- `callbr` terminators and calls of functions with numbered names: the original does not implement them, so they are excluded by precondition.
- Calls of global names that neither the module nor one added before it defines or declares as a function (an alias): the original panics there if all names of the module parse, so such modules are excluded by precondition, exactly then.
- Edge weights, source locations, paths, working directories, file descriptors and executed programs; JSON, where top-level `Safe` is dropped.
- ptrace, libunwind, signals and address spaces: an event carries their outcome. Errors while a system call is entered show as missing data at its exit.
- Which system call has which capabilities (`syscalls.cm`, `ioctl`): a parameter of the event.
- Iteration order of hash tables is arbitrary in the model; ordered sets of capabilities are iterated in arbitrary order too, which the results do not depend on.
- Isolated nodes of a graph map: only the panics of `callers` and `callees` on unknown functions would show them.
- The simple queries `preds`, `succs`, `children`, `entry`, `callers` and `callees`, and the cross-module analysis object: they add only easy members.
