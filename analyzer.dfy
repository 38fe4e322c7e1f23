/** The `DeadlockAnalyzer` class: deadlock analysis of one graph snapshot
    and the safe-sequence solver, each proved equal to the pure definitions
    of the `WaitFor`, `Cycles` and `Safety` modules. */
module Analyzer {
  import opened GraphModels
  import opened SeqFacts
  import opened WaitFor
  import opened Cycles
  import opened Safety

  /** The result of `analyze_deadlock` (without its timestamp): the cycle
      report of the full graph, with the wait-for reduction attached; a
      `KeyError` raised by the reduction propagates. */
  function DeadlockAnalysis(g: GraphState, enumeration: CycleEnumeration): (r: Outcome<DeadlockAnalysisResult>)
    ensures r.Ok? <==> WaitForGraph(g.nodes, g.edges).Ok?
    ensures r.KeyError? ==> r.key == WaitForGraph(g.nodes, g.edges).key
    ensures r.Ok? ==> r.value.waitForGraph == WaitForGraph(g.nodes, g.edges).value
    ensures r.Ok? ==> (r.value.hasDeadlock <==> FirstCycle(enumeration) != [])
    ensures r.Ok? ==> (r.value.cycleInfo.Some? <==> r.value.hasDeadlock)
    ensures r.Ok? && r.value.hasDeadlock ==>
      r.value.cycleInfo.value.cycleExists && r.value.message == DeadlockDetected(r.value.cycleInfo.value.cyclePath)
    ensures r.Ok? && !r.value.hasDeadlock ==> r.value.message == NoDeadlockDetected
    ensures r.Ok? && r.value.hasDeadlock ==> r.value.cycleInfo == Some(CycleReport(g.edges, enumeration))
  {
    var info := CycleReport(g.edges, enumeration);
    match WaitForGraph(g.nodes, g.edges)
    case KeyError(p) => KeyError(p)
    case Ok(waitFor) =>
      Ok(DeadlockAnalysisResult(
        hasDeadlock := info.cycleExists,
        cycleInfo := if info.cycleExists then Some(info) else None,
        waitForGraph := waitFor,
        message := if info.cycleExists then DeadlockDetected(info.cyclePath) else NoDeadlockDetected))
  }

  /** With a sound enumeration, a deadlock is reported exactly when the
      enumeration found a cycle, and the reported nodes form a simple cycle
      of the graph whose closed path runs along affected edges. */
  lemma DeadlockIsReportedCycle(g: GraphState, enumeration: CycleEnumeration)
    requires SoundEnumeration(g.edges, enumeration)
    ensures var r := DeadlockAnalysis(g, enumeration);
      r.Ok? ==>
        && (r.value.hasDeadlock <==> enumeration.Enumerated? && enumeration.cycles != [])
        && (r.value.hasDeadlock ==>
              && IsSimpleCycle(g.edges, r.value.cycleInfo.value.affectedNodes)
              && |r.value.cycleInfo.value.affectedEdges| >= |r.value.cycleInfo.value.affectedNodes|)
  {
    ReportedCycleIsClosedWalk(g.edges, enumeration);
    if enumeration.Enumerated? && enumeration.cycles != [] {
      assert IsSimpleCycle(g.edges, enumeration.cycles[0]);
    }
  }

  /** With an enumeration that is sound and complete, a deadlock is reported
      exactly when the graph has a simple cycle. */
  lemma DeadlockIffSimpleCycle(g: GraphState, enumeration: CycleEnumeration)
    requires SoundEnumeration(g.edges, enumeration) && CompleteEnumeration(g.edges, enumeration)
    ensures var r := DeadlockAnalysis(g, enumeration);
      r.Ok? ==> (r.value.hasDeadlock <==> exists c :: IsSimpleCycle(g.edges, c))
  {
    DeadlockIsReportedCycle(g, enumeration);
  }

  /** `all(work.get(r, 0) >= needed for r, needed in need.items())`. */
  method CanFinishWith(need: map<Id, int>, work: map<Id, int>) returns (canFinish: bool)
    ensures canFinish == CanFinish(need, work)
  {
    canFinish := true;
    var pending := need.Keys;
    while pending != {}
      invariant pending <= need.Keys
      invariant forall r :: r in need && r !in pending ==> need[r] <= Get(work, r)
      decreases pending
    {
      var r :| r in pending;
      if Get(work, r) < need[r] {
        canFinish := false;
        break;
      }
      pending := pending - {r};
    }
  }

  /** `work[r] = work.get(r, 0) + allocated` for every held resource. */
  method ReleaseAllocations(work: map<Id, int>, held: map<Id, int>) returns (released: map<Id, int>)
    ensures released == Release(work, held)
  {
    released := work;
    var pending := held.Keys;
    while pending != {}
      invariant pending <= held.Keys
      invariant released.Keys == work.Keys + (held.Keys - pending)
      invariant forall r :: r in released ==> released[r] == Get(work, r) + (if r in pending then 0 else Get(held, r))
      decreases pending
    {
      var r :| r in pending;
      released := released[r := Get(released, r) + held[r]];
      pending := pending - {r};
    }
    ReleaseIsPointwise(work, held, released);
  }

  lemma ReleaseIsPointwise(work: map<Id, int>, held: map<Id, int>, released: map<Id, int>)
    requires released.Keys == work.Keys + held.Keys
    requires forall r :: r in released ==> released[r] == Get(work, r) + Get(held, r)
    ensures released == Release(work, held)
  {
  }

  /** The first loop of `build_wait_for_graph`: `process_requests`, with
      its key order, and `resource_allocations`. */
  method GroupEdges(edges: seq<Edge>) returns (processRequests: map<Id, seq<Id>>, requestOrder: seq<Id>, resourceAllocations: map<Id, seq<Id>>)
    ensures processRequests == RequestGroups(edges) && requestOrder == RequestSources(edges)
    ensures resourceAllocations == AllocationGroups(edges)
  {
    processRequests, requestOrder, resourceAllocations := map[], [], map[];
    for i := 0 to |edges|
      invariant processRequests == RequestGroups(edges[..i]) && requestOrder == RequestSources(edges[..i])
      invariant resourceAllocations == AllocationGroups(edges[..i])
    {
      var edge := edges[i];
      assert edges[..i + 1][..i] == edges[..i];
      RequestGroupsMeaning(edges[..i]);
      match edge.kind
      case Request =>
        if edge.source !in processRequests {
          processRequests := processRequests[edge.source := []];
          requestOrder := requestOrder + [edge.source];
        }
        processRequests := processRequests[edge.source := processRequests[edge.source] + [edge.target]];
      case Allocation =>
        if edge.source !in resourceAllocations {
          resourceAllocations := resourceAllocations[edge.source := []];
        }
        resourceAllocations := resourceAllocations[edge.source := resourceAllocations[edge.source] + [edge.target]];
    }
    assert edges[..|edges|] == edges;
  }

  /** The table loop of `calculate_safe_sequence`: `allocations` and
      `requests`, one entry per process id. */
  method TabulateEdges(edges: seq<Edge>, processIds: set<Id>) returns (allocations: map<Id, map<Id, int>>, requests: map<Id, map<Id, int>>)
    ensures allocations == Tables(edges, Allocation, processIds)
    ensures requests == Tables(edges, Request, processIds)
  {
    allocations := map p | p in processIds :: map[];
    requests := map p | p in processIds :: map[];
    assert edges[..0] == [];
    for i := 0 to |edges|
      invariant allocations == Tables(edges[..i], Allocation, processIds)
      invariant requests == Tables(edges[..i], Request, processIds)
    {
      var edge := edges[i];
      TablesStep(edges, Allocation, processIds, i);
      TablesStep(edges, Request, processIds, i);
      match edge.kind
      case Allocation =>
        var processId, resourceId := edge.target, edge.source;
        if processId in allocations {
          allocations := allocations[processId := allocations[processId][resourceId := edge.instances]];
        }
      case Request =>
        var processId, resourceId := edge.source, edge.target;
        if processId in requests {
          requests := requests[processId := requests[processId][resourceId := edge.instances]];
        }
    }
    assert edges[..|edges|] == edges;
  }

  /** One scan of the solver's `for process in processes` loop: the first
      unfinished process whose requests fit `work`, if any. */
  method FindCandidate(processes: seq<Id>, ghost edges: seq<Edge>, requests: map<Id, map<Id, int>>, work: map<Id, int>, finished: set<Id>)
    returns (candidate: Option<nat>)
    requires requests == Tables(edges, Request, SetOf(processes))
    ensures candidate == FirstCandidate(processes, edges, work, finished, 0)
  {
    for j := 0 to |processes|
      invariant FirstCandidate(processes, edges, work, finished, 0) == FirstCandidate(processes, edges, work, finished, j)
    {
      var process := processes[j];
      if process in finished {
        continue;
      }
      assert process in SetOf(processes);
      var canFinish := CanFinishWith(requests[process], work);
      if canFinish {
        return Some(j);
      }
    }
    return None;
  }

  /** `wait_for` after appending `added` to the list of `process`; nothing
      changes when `process` is not a key. */
  function Appended(waitFor: map<Id, seq<Id>>, process: Id, added: seq<Id>): (m: map<Id, seq<Id>>)
    ensures m.Keys == waitFor.Keys
    ensures forall p :: p in m && p != process ==> m[p] == waitFor[p]
    ensures process in waitFor ==> m[process] == waitFor[process] + added
  {
    if process in waitFor then waitFor[process := waitFor[process] + added] else waitFor
  }

  lemma AppendedNothing(waitFor: map<Id, seq<Id>>, process: Id)
    ensures Appended(waitFor, process, []) == waitFor
  {
    if process in waitFor {
      assert waitFor[process] + [] == waitFor[process];
    }
  }

  lemma AppendedTwice(waitFor: map<Id, seq<Id>>, process: Id, s: seq<Id>, t: seq<Id>)
    ensures Appended(Appended(waitFor, process, s), process, t) == Appended(waitFor, process, s + t)
  {
    if process in waitFor {
      assert waitFor[process] + s + t == waitFor[process] + (s + t);
    }
  }

  /** The second loop of `build_wait_for_graph` for one requester: append
      every holder other than `process` of every requested resource to
      `wait_for[process]`; the first append raises `KeyError` when `process`
      is not a key. */
  method AppendWaits(edges: seq<Edge>, waitFor: map<Id, seq<Id>>, process: Id, requested: seq<Id>, resourceAllocations: map<Id, seq<Id>>)
    returns (result: Outcome<map<Id, seq<Id>>>)
    requires forall r :: r in resourceAllocations ==> resourceAllocations[r] == Holders(edges, r)
    requires forall r :: r !in resourceAllocations ==> Holders(edges, r) == []
    ensures process in waitFor || Gather(edges, requested, process) == [] ==>
      result == Ok(Appended(waitFor, process, Gather(edges, requested, process)))
    ensures process !in waitFor && Gather(edges, requested, process) != [] ==> result == KeyError(process)
  {
    var current := waitFor;
    assert requested[..0] == [];
    AppendedNothing(waitFor, process);
    for m := 0 to |requested|
      invariant current == Appended(waitFor, process, Gather(edges, requested[..m], process))
      invariant process !in waitFor ==> Gather(edges, requested[..m], process) == []
    {
      var resource := requested[m];
      GatherStep(edges, requested, m, process);
      AppendedTwice(waitFor, process, Gather(edges, requested[..m], process), OtherThan(Holders(edges, resource), process));
      if resource in resourceAllocations {
        var next := AppendHolders(current, process, resourceAllocations[resource]);
        match next
        case KeyError(_) =>
          GatherNonEmpty(edges, requested, m, process);
          return KeyError(process);
        case Ok(updated) =>
          current := updated;
      } else {
        assert OtherThan([], process) == [];
        assert Gather(edges, requested[..m], process) + [] == Gather(edges, requested[..m], process);
      }
    }
    assert requested[..|requested|] == requested;
    return Ok(current);
  }

  /** A requested resource with a holder other than `p` makes the gathered
      list non-empty. */
  lemma GatherNonEmpty(edges: seq<Edge>, requested: seq<Id>, m: nat, p: Id)
    requires m < |requested| && OtherThan(Holders(edges, requested[m]), p) != []
    ensures Gather(edges, requested, p) != []
  {
    var q := OtherThan(Holders(edges, requested[m]), p)[0];
    GatherMembership(edges, requested, p, q);
    assert HeldByOther(edges, requested[m], p, q);
  }

  /** The innermost loop: `wait_for[process].append(holder)` for every holder
      other than `process` itself. */
  method AppendHolders(waitFor: map<Id, seq<Id>>, process: Id, holders: seq<Id>) returns (result: Outcome<map<Id, seq<Id>>>)
    ensures process in waitFor || OtherThan(holders, process) == [] ==>
      result == Ok(Appended(waitFor, process, OtherThan(holders, process)))
    ensures process !in waitFor && OtherThan(holders, process) != [] ==> result == KeyError(process)
  {
    var current := waitFor;
    assert holders[..0] == [];
    AppendedNothing(waitFor, process);
    for h := 0 to |holders|
      invariant current == Appended(waitFor, process, OtherThan(holders[..h], process))
      invariant process !in waitFor ==> OtherThan(holders[..h], process) == []
    {
      var holder := holders[h];
      OtherThanStep(holders, h, process);
      if holder != process {
        if process !in current {
          OtherThanMembership(holders, process, holder);
          return KeyError(process);
        }
        AppendedTwice(waitFor, process, OtherThan(holders[..h], process), [holder]);
        current := current[process := current[process] + [holder]];
        assert current == Appended(Appended(waitFor, process, OtherThan(holders[..h], process)), process, [holder]);
      } else {
        assert OtherThan(holders[..h], process) + [] == OtherThan(holders[..h], process);
      }
    }
    assert holders[..|holders|] == holders;
    return Ok(current);
  }

  /** `wait_for` once the requesters of `done` have been handled. */
  function WaitsFor(keys: set<Id>, edges: seq<Edge>, done: seq<Id>): (w: map<Id, seq<Id>>)
    ensures w.Keys == keys
  {
    map p | p in keys :: if p in done then WaitList(edges, p) else []
  }

  /** Handling one more requester, not handled before, appends its whole
      wait list. */
  lemma WaitsForStep(keys: set<Id>, edges: seq<Edge>, order: seq<Id>, k: nat)
    requires k < |order| && Distinct(order)
    ensures Appended(WaitsFor(keys, edges, order[..k]), order[k], WaitList(edges, order[k])) == WaitsFor(keys, edges, order[..k + 1])
  {
    var p := order[k];
    assert order[..k + 1] == order[..k] + [p];
    assert p !in order[..k];
    var before, after := WaitsFor(keys, edges, order[..k]), WaitsFor(keys, edges, order[..k + 1]);
    var appended := Appended(before, p, WaitList(edges, p));
    forall x | x in after ensures appended[x] == after[x] {
      if x == p {
        assert [] + WaitList(edges, p) == WaitList(edges, p);
      } else {
        assert x in order[..k + 1] <==> x in order[..k];
      }
    }
  }

  /** Once every requester is handled, each process has its wait list. */
  lemma WaitsForAll(keys: set<Id>, edges: seq<Edge>, order: seq<Id>)
    requires forall p :: p !in order ==> RequestedBy(edges, p) == []
    ensures WaitsFor(keys, edges, order) == map p | p in keys :: WaitList(edges, p)
  {
    forall p | p in keys && p !in order ensures WaitList(edges, p) == [] {
    }
  }

  /** One more requested resource extends the gathered list by its holders. */
  lemma GatherStep(edges: seq<Edge>, requested: seq<Id>, m: nat, p: Id)
    requires m < |requested|
    ensures Gather(edges, requested[..m + 1], p) == Gather(edges, requested[..m], p) + OtherThan(Holders(edges, requested[m]), p)
  {
    assert requested[..m + 1][..m] == requested[..m];
  }

  /** One more holder extends the list of holders other than `p`. */
  lemma OtherThanStep(holders: seq<Id>, h: nat, p: Id)
    requires h < |holders|
    ensures OtherThan(holders[..h + 1], p) == OtherThan(holders[..h], p) + (if holders[h] != p then [holders[h]] else [])
  {
    assert holders[..h + 1][..h] == holders[..h];
  }

  /** The inner scan of `detect_cycle_dfs`: the ids of the edges from
      `source` to `target`, in edge-list order. */
  method JoiningEdgeIds(edges: seq<Edge>, source: Id, target: Id) returns (ids: seq<Id>)
    ensures ids == EdgesBetween(edges, source, target)
  {
    ids := [];
    for k := 0 to |edges|
      invariant ids == EdgesBetween(edges[..k], source, target)
    {
      var edge := edges[k];
      assert edges[..k + 1][..k] == edges[..k];
      if edge.source == source && edge.target == target {
        ids := ids + [edge.id];
      }
    }
    assert edges[..|edges|] == edges;
  }

  class DeadlockAnalyzer {
    const graphState: GraphState
    const nodesDict: map<Id, Node>
    const edgesList: seq<Edge>

    /** The fields the constructor derives from the snapshot. */
    ghost predicate Valid()
    {
      nodesDict == NodesById(graphState.nodes) && edgesList == graphState.edges
    }

    constructor (graphState: GraphState)
      ensures Valid() && this.graphState == graphState
    {
      this.graphState := graphState;
      this.nodesDict := NodesById(graphState.nodes);
      this.edgesList := graphState.edges;
    }

    /** Post-processing of the first enumerated cycle: close the path and
        collect, pair by pair, the ids of the edges joining consecutive
        nodes. */
    method DetectCycleDfs(enumeration: CycleEnumeration) returns (info: CycleInfo)
      requires Valid()
      ensures info == CycleReport(graphState.edges, enumeration)
    {
      match enumeration
      case EnumerationRaised =>
        return CycleInfo(cycleExists := false);
      case Enumerated(cycles) =>
        if |cycles| == 0 {
          return CycleInfo(cycleExists := false);
        }
        var cycle := cycles[0];
        if |cycle| == 0 {
          // cycle[0] raises IndexError, which the handler turns into "no cycle"
          return CycleInfo(cycleExists := false);
        }
        var cyclePath := cycle + [cycle[0]];
        var affectedEdges: seq<Id> := [];
        for i := 0 to |cycle|
          invariant affectedEdges == CycleEdgesUpTo(edgesList, cycle, i)
        {
          var source := cycle[i];
          var target := cycle[(i + 1) % |cycle|];
          NextIsModular(cycle, i);
          var joining := JoiningEdgeIds(edgesList, source, target);
          affectedEdges := affectedEdges + joining;
        }
        return CycleInfo(true, cyclePath, cycle, affectedEdges);
    }

    /** The wait-for reduction: group request targets by requesting node and
        allocation targets by resource, then append to each requester's list,
        in dictionary order, every holder of every requested resource other
        than itself. */
    method BuildWaitForGraph() returns (result: Outcome<map<Id, seq<Id>>>)
      requires Valid()
      ensures result == WaitForGraph(graphState.nodes, graphState.edges)
    {
      var processIds := ProcessIdSet(graphState.nodes);
      var waitFor: map<Id, seq<Id>> := map p | p in processIds :: [];
      var processRequests, requestOrder, resourceAllocations := GroupEdges(edgesList);
      RequestGroupsMeaning(edgesList);
      AllocationGroupsMeaning(edgesList);
      RequestSourcesDistinct(edgesList);
      assert waitFor == WaitsFor(processIds, edgesList, requestOrder[..0]);
      for k := 0 to |requestOrder|
        invariant waitFor == WaitsFor(processIds, edgesList, requestOrder[..k])
        invariant FirstMissing(requestOrder, processIds, edgesList) == FirstMissing(requestOrder[k..], processIds, edgesList)
      {
        var process := requestOrder[k];
        FirstMissingStep(requestOrder, processIds, edgesList, k);
        assert processRequests[process] == RequestedBy(edgesList, process);
        var appended := AppendWaits(edgesList, waitFor, process, processRequests[process], resourceAllocations);
        match appended
        case KeyError(_) =>
          return KeyError(process);
        case Ok(next) =>
          WaitsForStep(processIds, edgesList, requestOrder, k);
          waitFor := next;
      }
      assert requestOrder[..|requestOrder|] == requestOrder;
      WaitsForAll(processIds, edgesList, requestOrder);
      return Ok(waitFor);
    }

    /** The safe-sequence solver: tabulate requests and allocations per
        process (the last edge of a pair wins), then repeatedly finish the
        first unfinished process whose requests fit the work vector,
        rescanning from the front after every pick. */
    method CalculateSafeSequence() returns (result: SafeSequenceResult)
      requires Valid()
      ensures result == SafeSequenceOf(graphState)
    {
      var processes := ProcessIds(graphState.nodes);
      if |processes| == 0 {
        return SafeSequenceResult(true, [], NoProcesses);
      }
      var processIds := ProcessIdSet(graphState.nodes);
      var available := AvailableTable(graphState.nodes);
      var allocations, requests := TabulateEdges(edgesList, processIds);
      var safeSequence: seq<Id> := [];
      var finished: set<Id> := {};
      var work := available;
      assert processIds == SetOf(processes);
      while |finished| < |processes|
        invariant finished <= SetOf(processes) && |finished| <= |processes|
        invariant Run(processes, edgesList, work, finished, safeSequence) == SafeSequenceOf(graphState)
        decreases |processes| - |finished|
      {
        var candidate := FindCandidate(processes, edgesList, requests, work, finished);
        RunScan(processes, edgesList, work, finished, safeSequence);
        match candidate
        case None =>
          return SafeSequenceResult(false, [], UnsafeState(safeSequence));
        case Some(j) =>
          var process := processes[j];
          work := ReleaseAllocations(work, allocations[process]);
          safeSequence := safeSequence + [process];
          finished := finished + {process};
      }
      return SafeSequenceResult(true, safeSequence, SafeSequenceFound);
    }

    /** `analyze_deadlock`: the cycle report, then the wait-for reduction. */
    method AnalyzeDeadlock(enumeration: CycleEnumeration) returns (result: Outcome<DeadlockAnalysisResult>)
      requires Valid()
      ensures result == DeadlockAnalysis(graphState, enumeration)
    {
      var cycleInfo := DetectCycleDfs(enumeration);
      var waitForGraph := BuildWaitForGraph();
      match waitForGraph
      case KeyError(p) =>
        return KeyError(p);
      case Ok(waitFor) =>
        var message := if cycleInfo.cycleExists then DeadlockDetected(cycleInfo.cyclePath) else NoDeadlockDetected;
        return Ok(DeadlockAnalysisResult(
          hasDeadlock := cycleInfo.cycleExists,
          cycleInfo := if cycleInfo.cycleExists then Some(cycleInfo) else None,
          waitForGraph := waitFor,
          message := message));
    }
  }

  /** `analyze_graph_for_deadlock`. */
  method AnalyzeGraphForDeadlock(graphState: GraphState, enumeration: CycleEnumeration) returns (result: Outcome<DeadlockAnalysisResult>)
    ensures result == DeadlockAnalysis(graphState, enumeration)
  {
    var analyzer := new DeadlockAnalyzer(graphState);
    result := analyzer.AnalyzeDeadlock(enumeration);
  }

  /** The module-level `calculate_safe_sequence`. */
  method CalculateSafeSequence(graphState: GraphState) returns (result: SafeSequenceResult)
    ensures result == SafeSequenceOf(graphState)
  {
    var analyzer := new DeadlockAnalyzer(graphState);
    result := analyzer.CalculateSafeSequence();
  }
}
