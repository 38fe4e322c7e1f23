# Deadlock analysis of a resource-allocation graph

This project models the analysis core of the DeadPanda backend. A
resource-allocation graph (RAG) is a list of process and resource nodes plus
a list of edges. A request edge goes from a process to a resource. An
allocation edge goes from a resource to a process. The project models three
pieces:

- The `DeadlockAnalyzer` class. It covers the post-processing of the first
  simple cycle of the full graph, the wait-for reduction, the combined
  deadlock analysis, and the Banker's-style safe-sequence solver. The two
  module-level helpers are included.
- The records these operations exchange.
- The allocation simulator. It appends a proposed allocation edge and grants
  the allocation unless the analysis of the new graph reports a cycle.

Where the source code works step by step, the model is imperative Dafny.
`DeadlockAnalyzer` is a class. Its methods and their loop helpers
(`GroupEdges`, `AppendWaits`, `AppendHolders`, `JoiningEdgeIds`,
`TabulateEdges`, `FindCandidate`, `CanFinishWith`, `ReleaseAllocations`)
run the source's loops. Each one is proved equal to a pure definition:

- `WaitForGraph` in `WaitFor`,
- `CycleReport` in `Cycles`,
- `SafeSequenceOf` in `Safety`,
- `DeadlockAnalysis` in `Analyzer`.

Lemmas then prove what those definitions mean, stated against independent
reference notions:

- a request/allocation pair for a wait-for entry;
- a simple cycle of the edge relation;
- a safe order in which every process's requests fit what is available plus
  what the processes before it released.

Python's dictionary lookups can raise `KeyError`. The model returns an
`Outcome` value for that case: `Ok(value)` or `KeyError(key)`.

`networkx.simple_cycles` is foreign code. It becomes a parameter, a
`CycleEnumeration`: either the call raised, or it returned a list of cycles.
Properties that depend on what it returns take two hypotheses:

- `SoundEnumeration`: every listed cycle is a simple cycle.
- `CompleteEnumeration`: when the graph has a simple cycle, at least one is
  listed.

Behaviour shown by the code, stated as lemmas:

- The simulator looks at cycles only. It grants an allocation between nodes
  that do not exist, of more instances than any resource has
  (`GrantsWithoutExistenceCheck`). It also grants an allocation after which
  no safe sequence exists (`GrantsUnsafeState`). Before granting, the code
  checks neither that the two nodes exist, nor that the requested instances
  fit the resource's capacity or what is available, nor that a safe sequence
  remains.
- Cycles are enumerated on the full RAG, resource nodes included, not on the
  wait-for graph. The wait-for graph is only attached to the result.
- Nothing checks `available <= instances`, or that an edge joins a process
  and a resource in the documented direction. A request edge that leaves a
  node which is not a process raises `KeyError` inside the wait-for
  reduction when some other node holds the requested resource
  (`WaitFor.WaitForGraphFails`). The HTTP handlers turn that into an error
  response.
- Two process nodes with the same id make every graph unsafe
  (`Safety.DuplicateProcessIdsUnsafe`). The solver stops when the set of
  finished ids is as large as the list of process nodes, which then never
  happens.

## Model

| member | source | states |
|---|---|---|
| GraphModels.ProcessIds | backend/app/deadlock_analyzer.py:136 | the process ids are the ids of exactly the process nodes, no more of them than nodes |
| GraphModels.ProcessIdsAppend | backend/app/deadlock_analyzer.py:136 | the process ids of a concatenated node list are those of each part in turn, so node order and duplicate ids are kept |
| GraphModels.ProcessIdsCons | backend/app/deadlock_analyzer.py:136 | scanning from the front, a node contributes its own id exactly when it is a process, ahead of the ids of the nodes after it |
| GraphModels.NodesByIdKeys | backend/app/deadlock_analyzer.py:15 | `nodes_dict` has a key for exactly the ids that some node carries |
| GraphModels.NodesByIdLastWins | backend/app/deadlock_analyzer.py:15 | the node a key maps to is the last node in the list with that id |
| Analyzer.DeadlockAnalyzer.constructor | backend/app/deadlock_analyzer.py:13-16 | keeps the snapshot, builds `nodes_dict` from the node list and keeps the edge list |
| WaitFor.WaitLists | backend/app/deadlock_analyzer.py:81 | the wait-for map has exactly one key per process id |
| WaitFor.RequestedByMembership | backend/app/deadlock_analyzer.py:87-92 | a resource is in a process's request list exactly when a request edge joins them |
| WaitFor.HoldersMembership | backend/app/deadlock_analyzer.py:93-97 | a node is among a resource's holders exactly when an allocation edge joins them |
| WaitFor.OtherThanMembership | backend/app/deadlock_analyzer.py:104-105 | the holders kept for a process are the holders other than that process |
| WaitFor.GatherMembership | backend/app/deadlock_analyzer.py:101-106 | the gathered list holds exactly the nodes other than the process that hold one of the requested resources |
| WaitFor.RequestSourcesMembership | backend/app/deadlock_analyzer.py:88-92 | the key order of `process_requests` lists exactly the sources of request edges |
| WaitFor.RequestSourcesDistinct | backend/app/deadlock_analyzer.py:90-91 | that key order names each requester once |
| WaitFor.RequestGroupsMeaning | backend/app/deadlock_analyzer.py:84-92 | `process_requests` has a key for exactly the request sources, and maps each key to its requested resources in edge order; a non-key requests nothing |
| WaitFor.AllocationGroupsMeaning | backend/app/deadlock_analyzer.py:85-97 | `resource_allocations` maps each key to its holders in edge order; a resource that is not a key has no holder |
| WaitFor.FirstMissingFound | backend/app/deadlock_analyzer.py:100-106 | a `KeyError` is raised exactly when some requester in key order is not a process and has a holder to append, and the reported key is such a requester |
| WaitFor.WaitListMembership | backend/app/deadlock_analyzer.py:74-108 | Q is on P's wait list exactly when Q differs from P and some request edge P -> R meets some allocation edge R -> Q |
| WaitFor.NoSelfWait | backend/app/deadlock_analyzer.py:105 | no process waits for itself |
| WaitFor.WaitForGraphShape | backend/app/deadlock_analyzer.py:81-108 | on success the keys are exactly the process ids, no list holds its own key, and a process with no request edge keeps an empty list |
| WaitFor.WaitForGraphFails | backend/app/deadlock_analyzer.py:103-106 | the reduction raises exactly when a request edge leaves a non-process whose requested resource is allocated to another node; the key is a non-process with a non-empty wait list |
| WaitFor.WellDirectedWaitForOk | backend/app/graph_models.py:8-9 | a graph whose edges follow the documented directions never raises in the reduction |
| WaitFor.HoldersMultiplicity | backend/app/deadlock_analyzer.py:93-97 | a node occurs among a resource's holders once per allocation edge between them |
| WaitFor.OtherThanMultiplicity | backend/app/deadlock_analyzer.py:104-106 | skipping the process itself keeps every other holder as often as it occurs |
| WaitFor.GatherMultiplicity | backend/app/deadlock_analyzer.py:101-106 | the gathered list holds Q once per allocation to Q of each requested resource |
| WaitFor.RequestedHolderCount | backend/app/deadlock_analyzer.py:100-106 | that count equals the number of (request edge P -> R, allocation edge R -> Q) pairs |
| WaitFor.WaitListMultiplicity | backend/app/deadlock_analyzer.py:74-108 | Q occurs on P's wait list once per pair of a request edge P -> R and an allocation edge R -> Q, so parallel edges give repeated entries |
| Analyzer.GroupEdges | backend/app/deadlock_analyzer.py:84-97 | the first loop builds `process_requests`, its key order and `resource_allocations` |
| Analyzer.AppendHolders | backend/app/deadlock_analyzer.py:104-106 | appends every holder other than the process to its list, and raises `KeyError` on the first append when the process is not a key |
| Analyzer.AppendWaits | backend/app/deadlock_analyzer.py:101-106 | appends the holders of every requested resource, with the same `KeyError` rule |
| Analyzer.DeadlockAnalyzer.BuildWaitForGraph | backend/app/deadlock_analyzer.py:74-108 | the method returns `WaitForGraph` of the snapshot, the `KeyError` included |
| Cycles.NextIsModular | backend/app/deadlock_analyzer.py:55 | the successor of position i is `cycle[(i + 1) % len(cycle)]` |
| Cycles.CycleReport | backend/app/deadlock_analyzer.py:44-72 | a cycle is reported exactly when the first enumerated cycle is non-empty; the path is that cycle closed by its first node; otherwise every list is empty |
| Cycles.EdgesBetweenMembership | backend/app/deadlock_analyzer.py:58-60 | an id is collected for a pair exactly when an edge with that id joins it |
| Cycles.EdgesBetweenLength | backend/app/deadlock_analyzer.py:58-60 | one id is collected per joining edge, so parallel edges all appear |
| Cycles.CycleEdgesUpToMembership | backend/app/deadlock_analyzer.py:53-60 | after n pairs, the affected edges are the ids collected for one of the first n pairs |
| Cycles.CycleEdgesMembership | backend/app/deadlock_analyzer.py:52-60 | `affected_edges` holds exactly the ids of edges joining consecutive cycle nodes, the wrap-around pair included |
| Cycles.CycleEdgesLength | backend/app/deadlock_analyzer.py:53-60 | on a closed walk each pair contributes at least one affected edge |
| Cycles.ReportedCycleIsClosedWalk | backend/app/deadlock_analyzer.py:44-67 | with a sound enumeration a reported cycle is simple, has at least as many affected edges as nodes, and every step of its path follows an affected edge |
| Analyzer.JoiningEdgeIds | backend/app/deadlock_analyzer.py:58-60 | the inner scan collects the ids of the edges joining one pair, in edge order |
| Analyzer.DeadlockAnalyzer.DetectCycleDfs | backend/app/deadlock_analyzer.py:35-72 | the method returns `CycleReport`: a raising enumeration, no cycle, or an empty first cycle gives "no cycle" |
| Analyzer.DeadlockAnalysis | backend/app/deadlock_analyzer.py:110-129 | the analysis fails exactly when the reduction raises; otherwise it reports a deadlock exactly when a cycle is reported, attaches the cycle info only then, includes the wait-for map and picks the message by branch; the attached info is the cycle report of the first enumerated cycle |
| Analyzer.DeadlockIsReportedCycle | backend/app/deadlock_analyzer.py:110-129 | with a sound enumeration a deadlock is reported exactly when cycles were listed, and its nodes form a simple cycle with enough affected edges |
| Analyzer.DeadlockIffSimpleCycle | backend/app/deadlock_analyzer.py:110-129 | with a sound and complete enumeration a deadlock is reported exactly when the graph has a simple cycle |
| Analyzer.DeadlockAnalyzer.AnalyzeDeadlock | backend/app/deadlock_analyzer.py:110-129 | the method returns `DeadlockAnalysis` of the snapshot |
| Analyzer.AnalyzeGraphForDeadlock | backend/app/deadlock_analyzer.py:211-214 | the helper returns `DeadlockAnalysis` of its argument |
| Safety.AvailableTable | backend/app/deadlock_analyzer.py:147 | every available count is non-negative |
| Safety.AvailableTableLastWins | backend/app/deadlock_analyzer.py:147 | the table has an entry exactly for the resource ids, holding the last such node's `available` |
| Safety.Table | backend/app/deadlock_analyzer.py:153-165 | every recorded instance count is at least 1 |
| Safety.TableLastWins | backend/app/deadlock_analyzer.py:153-165 | a process's table has an entry for a resource exactly when a matching edge joins them, holding the instances of the last such edge |
| Safety.Tables | backend/app/deadlock_analyzer.py:150-151 | `allocations` and `requests` have exactly one entry per process id |
| Analyzer.TabulateEdges | backend/app/deadlock_analyzer.py:150-165 | the table loop builds `Tables` for both edge kinds |
| Analyzer.CanFinishWith | backend/app/deadlock_analyzer.py:180-184 | the check succeeds exactly when every request fits the work vector, a missing resource counting as 0 |
| Safety.Release | backend/app/deadlock_analyzer.py:188-189 | releasing adds each held amount to the work entry, a missing entry counting as 0, and keeps every old key |
| Analyzer.ReleaseAllocations | backend/app/deadlock_analyzer.py:188-189 | the release loop computes `Release` |
| Safety.ReleaseNeverDecreases | backend/app/deadlock_analyzer.py:188-189 | finishing a process never lowers a work entry or drops a key |
| Safety.FirstCandidate | backend/app/deadlock_analyzer.py:175-194 | a found candidate is unfinished and fits, and every earlier unfinished process does not fit; with none found, no unfinished process fits |
| Analyzer.FindCandidate | backend/app/deadlock_analyzer.py:175-194 | one scan returns the first candidate in node order |
| Safety.Run | backend/app/deadlock_analyzer.py:172-202 | a safe end extends the finished prefix; an unsafe end has an empty sequence and its message quotes a completed list that starts with the finished prefix |
| Safety.SafeSequenceOf | backend/app/deadlock_analyzer.py:131-208 | no processes gives safe with an empty sequence; otherwise safe results carry the found message and unsafe ones an empty sequence |
| Analyzer.DeadlockAnalyzer.CalculateSafeSequence | backend/app/deadlock_analyzer.py:131-208 | the method returns `SafeSequenceOf` of the snapshot |
| Analyzer.CalculateSafeSequence | backend/app/deadlock_analyzer.py:217-220 | the helper returns `SafeSequenceOf` of its argument |
| Safety.Released | backend/app/deadlock_analyzer.py:188-189 | what a group of finished processes releases is never negative |
| Safety.ReleasedSubset | backend/app/deadlock_analyzer.py:188-189 | a repetition-free group releases at most what any sequence containing all of it releases |
| Safety.RunSound | backend/app/deadlock_analyzer.py:172-208 | a safe end lists every process once, and each one's requests fit when its turn comes |
| Safety.RunComplete | backend/app/deadlock_analyzer.py:172-202 | with distinct ids, if some safe order exists the greedy loop never gets stuck |
| Safety.SafeResultIsSafeOrder | backend/app/deadlock_analyzer.py:131-208 | a safe result is a safe order: a permutation of the process ids in which every request fits |
| Safety.SafeIffSafeOrderExists | backend/app/deadlock_analyzer.py:131-208 | with distinct process ids the solver reports safe exactly when a safe order exists |
| Safety.DuplicateProcessIdsUnsafe | backend/app/deadlock_analyzer.py:169-172 | two process nodes with one id make the result unsafe |
| Simulation.CandidateStateShape | backend/app/main.py:94-107 | the candidate graph keeps the nodes and every old edge and appends one allocation edge from the resource to the process, with the requested instances and the id `sim_<process>_<resource>` |
| Simulation.CandidateAllocation | backend/app/main.py:95-107 | the process becomes one more holder of the resource, and its allocation entry for the resource is overwritten with the requested instances |
| Simulation.SimulateAllocation | backend/app/main.py:94-125 | the simulation fails exactly when the analysis of the candidate raises; otherwise it grants exactly when no cycle is reported, returning the candidate state only when it grants |
| Simulation.GrantedIffNoCycle | backend/app/main.py:110-125 | with a sound and complete enumeration an allocation is granted exactly when the candidate graph has no simple cycle |
| Simulation.GrantsWithoutExistenceCheck | backend/app/main.py:94-125 | an allocation of 5 instances between two ids absent from an empty graph is granted |
| Simulation.NoCycleInUnsafeCandidate | backend/app/main.py:104-110 | the candidate graph R1 -> P1 -> R2 has no simple cycle |
| Simulation.GrantsUnsafeState | backend/app/main.py:110-125 | that allocation is granted although the candidate graph has no safe sequence |

## Left out

- `build_directed_graph` and `networkx.simple_cycles` are foreign code. The
  enumeration is a parameter. Its soundness and completeness are hypotheses
  of the lemmas that need them. A `DiGraph` merges parallel edges, which
  only matters inside the enumeration. Node labels and edge attributes
  passed to the `DiGraph` are not modelled.
- The timestamp of `analyze_deadlock` reads the clock and is left out of the
  result.
- Messages are branch tags, not the formatted strings.
  `DeadlockDetected(path)` carries the cycle path. `UnsafeState(completed)`
  carries the processes finished before the solver got stuck.
- Node labels and the pydantic `Config`, parsing and validation are left
  out. Field bounds (`ge=1`, `ge=0`) become the types `Positive` and `nat`.
- The FastAPI handlers, the HTTP error mapping and the rest of `main.py` are
  not part of this model.
- Python dictionary iteration order is modelled only where it changes a
  result: the order of `process_requests` decides which `KeyError` is
  reported. The key order of the returned maps is not modelled.
- Python exceptions are modelled as follows:
  - The reduction's `KeyError` is an `Outcome`.
  - The `IndexError` of an empty first cycle inside `detect_cycle_dfs`'s
    `try` is the "no cycle" branch.
  - A raising enumeration is `EnumerationRaised`.
- The safe-sequence solver's inner scan and release are restructured. The
  source releases inside the `for` loop and then breaks. The model picks the
  candidate first, then releases. The two orders have the same effect: the
  scan stops at the first fit.
- `Simulation.SimulateAllocation` is a function over `DeadlockAnalysis`,
  and its `Outcome` stands for the exception the handler turns into an HTTP
  500. The object copies of `nodes.copy()` and the new `GraphState` are
  values here, so aliasing is not modelled.
