/** The grant-or-deny rule of the allocation simulator: append the proposed
    allocation edge to a copy of the graph and grant exactly when the
    deadlock analysis of that candidate graph reports no cycle. */
module Simulation {
  import opened GraphModels
  import opened WaitFor
  import opened Cycles
  import opened Safety
  import opened Analyzer

  /** The synthetic allocation edge resource -> process. */
  function SimulationEdge(request: AllocationRequest): Edge
  {
    Edge(
      id := "sim_" + request.processId + "_" + request.resourceId,
      source := request.resourceId,
      target := request.processId,
      kind := Allocation,
      instances := request.instances)
  }

  /** The graph the simulator analyses: the same nodes, and the edges
      followed by the proposed one. */
  function CandidateState(g: GraphState, request: AllocationRequest): GraphState
  {
    GraphState(nodes := g.nodes, edges := g.edges + [SimulationEdge(request)])
  }

  /** The proposed edge is an allocation of `instances` from the resource to
      the process whose id is tagged `sim_`; the candidate graph keeps the
      nodes and every old edge in place and adds exactly that edge. */
  lemma CandidateStateShape(g: GraphState, request: AllocationRequest)
    ensures var c, e := CandidateState(g, request), SimulationEdge(request);
      && c.nodes == g.nodes
      && |c.edges| == |g.edges| + 1
      && c.edges[..|g.edges|] == g.edges
      && c.edges[|g.edges|] == e
      && IsAllocationFrom(e, request.resourceId) && e.target == request.processId
      && e.instances == request.instances
      && e.id == "sim_" + request.processId + "_" + request.resourceId
  {
  }

  /** The candidate graph makes the process one more holder of the resource,
      and its allocation-table entry for the resource is overwritten with the
      requested instances, whatever it held before. */
  lemma CandidateAllocation(g: GraphState, request: AllocationRequest)
    ensures var c := CandidateState(g, request);
      && Holders(c.edges, request.resourceId) == Holders(g.edges, request.resourceId) + [request.processId]
      && (forall r :: r != request.resourceId ==> Holders(c.edges, r) == Holders(g.edges, r))
      && AllocationTable(c.edges, request.processId) == AllocationTable(g.edges, request.processId)[request.resourceId := request.instances]
  {
    var c := CandidateState(g, request);
    assert c.edges[..|c.edges| - 1] == g.edges;
  }

  /** The result of `simulate_allocation` for enumeration `enumeration` of the
      candidate graph's cycles; the `KeyError` of the wait-for reduction
      propagates (the handler turns it into an HTTP 500). */
  function SimulateAllocation(g: GraphState, request: AllocationRequest, enumeration: CycleEnumeration): (r: Outcome<SimulationResult>)
    ensures var c := CandidateState(g, request);
      && (r.Ok? <==> WaitForGraph(c.nodes, c.edges).Ok?)
      && (r.KeyError? ==> r.key == WaitForGraph(c.nodes, c.edges).key)
    ensures r.Ok? ==> r.value.success == !r.value.wouldCauseDeadlock
    ensures r.Ok? ==> (r.value.success <==> FirstCycle(enumeration) == [])
    ensures r.Ok? && r.value.success ==>
      r.value.newState == Some(CandidateState(g, request)) && r.value.message == AllocationIsSafe
    ensures r.Ok? && !r.value.success ==>
      r.value.newState == None && r.value.message == WouldCauseDeadlock
  {
    match DeadlockAnalysis(CandidateState(g, request), enumeration)
    case KeyError(p) => KeyError(p)
    case Ok(analysis) =>
      if analysis.hasDeadlock then
        Ok(SimulationResult(success := false, message := WouldCauseDeadlock, newState := None, wouldCauseDeadlock := true))
      else
        Ok(SimulationResult(success := true, message := AllocationIsSafe, newState := Some(CandidateState(g, request)), wouldCauseDeadlock := false))
  }

  /** With a sound and complete enumeration, the allocation is granted exactly
      when the candidate graph has no simple cycle, and a denial comes with
      the cycle that the analysis reports. */
  lemma GrantedIffNoCycle(g: GraphState, request: AllocationRequest, enumeration: CycleEnumeration)
    requires var c := CandidateState(g, request);
      SoundEnumeration(c.edges, enumeration) && CompleteEnumeration(c.edges, enumeration)
    ensures var c, r := CandidateState(g, request), SimulateAllocation(g, request, enumeration);
      r.Ok? ==> (r.value.success <==> !exists cycle :: IsSimpleCycle(c.edges, cycle))
  {
    DeadlockIffSimpleCycle(CandidateState(g, request), enumeration);
  }

  // ---------------------------------------------------------------------
  // The decision looks at cycles only.

  /** The empty graph with no enumerated cycle: the simulator grants an
      allocation between two nodes that do not exist, of more instances than
      any resource has. */
  lemma GrantsWithoutExistenceCheck()
    ensures var g, request := GraphState(), AllocationRequest("P9", "R9", 5);
      && ProcessIds(g.nodes) == [] && AvailableTable(g.nodes) == map[]
      && SimulateAllocation(g, request, Enumerated([])).Ok?
      && SimulateAllocation(g, request, Enumerated([])).value.success
  {
  }

  /** Process P1 requests R2, of which no instance is available.  Allocating
      R1 to P1 closes no cycle, so the simulator grants it, although the
      candidate graph has no safe sequence. */
  lemma GrantsUnsafeState(enumeration: CycleEnumeration)
    requires SoundEnumeration(UnsafeCandidate().edges, enumeration)
    ensures var r := SimulateAllocation(UnsafeExample(), UnsafeRequest(), enumeration);
      r.Ok? && r.value.success
    ensures !SafeSequenceOf(UnsafeCandidate()).isSafe
  {
    var c := UnsafeCandidate();
    NoCycleInUnsafeCandidate();
    assert FirstCycle(enumeration) == [];
    UnsafeCandidateReduces();
    UnsafeCandidateIsUnsafe();
  }

  /** Both edges of the candidate graph join a process and a resource, in
      the right direction, so the wait-for reduction succeeds. */
  lemma UnsafeCandidateReduces()
    ensures WellDirected(UnsafeCandidate())
    ensures WaitForGraph(UnsafeCandidate().nodes, UnsafeCandidate().edges).Ok?
  {
    var c := UnsafeCandidate();
    assert c.nodes[0].id == "P1" && c.nodes[1].id == "R1" && c.nodes[2].id == "R2";
    assert EdgeWellDirected(c.nodes, c.edges[0]);
    assert EdgeWellDirected(c.nodes, c.edges[1]);
    WellDirectedWaitForOk(c);
  }

  /** In the candidate graph, P1 waits for an instance of R2 that nobody
      holds and nobody can release. */
  lemma UnsafeCandidateIsUnsafe()
    ensures var c := UnsafeCandidate();
      && ProcessIds(c.nodes) == ["P1"]
      && !CanFinish(RequestTable(c.edges, "P1"), AvailableTable(c.nodes))
      && SafeSequenceOf(c) == SafeSequenceResult(false, [], UnsafeState([]))
  {
    var c := UnsafeCandidate();
    var nodes := c.nodes;
    assert nodes[..2] == [Node("P1", Process), Node("R1", Resource)];
    assert nodes[..2][..1] == [Node("P1", Process)];
    assert [Node("P1", Process)][..0] == [];
    assert ProcessIds(nodes[..2][..1]) == ["P1"];
    assert ProcessIds(nodes[..2]) == ["P1"];
    var procs := ProcessIds(nodes);
    assert procs == ["P1"];
    var work := AvailableTable(nodes);
    assert Get(work, "R2") == 0;
    assert c.edges[..1] == [Edge("e1", "P1", "R2", Request)];
    assert c.edges[..1][..0] == [];
    assert Table(c.edges[..1], Request, "P1") == map["R2" := 1];
    assert RequestTable(c.edges, "P1") == map["R2" := 1];
    assert !CanFinish(RequestTable(c.edges, "P1"), work);
    assert FirstCandidate(procs, c.edges, work, {}, 0) == None;
  }

  /** P1, R1 and R2 with nothing available, and the request edge P1 -> R2. */
  function UnsafeExample(): GraphState
  {
    GraphState(
      nodes := [Node("P1", Process), Node("R1", Resource), Node("R2", Resource)],
      edges := [Edge("e1", "P1", "R2", Request)])
  }

  /** One instance of R1 for P1. */
  function UnsafeRequest(): AllocationRequest
  {
    AllocationRequest("P1", "R1", 1)
  }

  function UnsafeCandidate(): GraphState
  {
    CandidateState(UnsafeExample(), UnsafeRequest())
  }

  /** R1 -> P1 -> R2 is a path, not a cycle: R2 has no outgoing edge. */
  lemma NoCycleInUnsafeCandidate()
    ensures forall cycle :: !IsSimpleCycle(UnsafeCandidate().edges, cycle)
  {
    var edges := UnsafeCandidate().edges;
    assert |edges| == 2;
    assert edges[0].source == "P1" && edges[0].target == "R2";
    assert edges[1].source == "R1" && edges[1].target == "P1";
    forall cycle | IsSimpleCycle(edges, cycle) ensures false {
      var n := |cycle|;
      assert JoinedAt(edges, cycle, 0);
      assert JoinedAt(edges, cycle, n - 1);
      assert cycle[0] == "P1";
      if n > 2 {
        // the pair at position 1 starts at R2, which has no outgoing edge
        ghost var fromR2 := JoinedAt(edges, cycle, 1);
        assert false;
      }
    }
  }
}
