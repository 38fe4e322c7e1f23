/** The records of the resource-allocation graph (RAG) and of the analysis
    results.  Field bounds of the source (`ge=1`, `ge=0`) are types here,
    and fields with a default carry it as a constructor default. */
module GraphModels {

  /** Node and edge identifiers. */
  type Id = string

  /** An integer that is at least 1. */
  type Positive = x: int | x >= 1 witness 1

  datatype Option<+T> = None | Some(value: T)

  /** The result of an operation that may raise a `KeyError` on a dictionary
      lookup (the only exception the analyzer's own code can raise). */
  datatype Outcome<+T> = Ok(value: T) | KeyError(key: Id)

  /** ALLOCATION goes resource -> process, REQUEST goes process -> resource. */
  datatype EdgeType = Allocation | Request

  datatype NodeType = Process | Resource

  /** `instances` and `available` are meaningful for resources only; nothing
      relates `available` to `instances`. */
  datatype Node = Node(id: Id, kind: NodeType, instances: Positive := 1, available: nat := 0)

  datatype Edge = Edge(id: Id, source: Id, target: Id, kind: EdgeType, instances: Positive := 1)

  datatype GraphState = GraphState(nodes: seq<Node> := [], edges: seq<Edge> := [])

  datatype CycleInfo = CycleInfo(
    cycleExists: bool,
    cyclePath: seq<Id> := [],
    affectedNodes: seq<Id> := [],
    affectedEdges: seq<Id> := [])

  /** Which branch of the safe-sequence solver produced the result; the
      unsafe message quotes the processes completed before the solver stuck. */
  datatype SafeMessage = NoProcesses | SafeSequenceFound | UnsafeState(completed: seq<Id>)

  datatype SafeSequenceResult = SafeSequenceResult(
    isSafe: bool,
    safeSequence: seq<Id> := [],
    message: SafeMessage)

  /** The deadlock message names the closed cycle path it reports. */
  datatype DeadlockMessage = DeadlockDetected(path: seq<Id>) | NoDeadlockDetected

  datatype DeadlockAnalysisResult = DeadlockAnalysisResult(
    hasDeadlock: bool,
    cycleInfo: Option<CycleInfo> := None,
    waitForGraph: map<Id, seq<Id>> := map[],
    message: DeadlockMessage)

  datatype AllocationRequest = AllocationRequest(processId: Id, resourceId: Id, instances: Positive)

  datatype SimulationMessage = WouldCauseDeadlock | AllocationIsSafe

  datatype SimulationResult = SimulationResult(
    success: bool,
    message: SimulationMessage,
    newState: Option<GraphState> := None,
    wouldCauseDeadlock: bool := false)

  /** The ids of the process nodes, in node-list order (duplicates kept). */
  function ProcessIds(nodes: seq<Node>): (ids: seq<Id>)
    ensures |ids| <= |nodes|
    ensures forall x :: x in ids <==> exists k :: 0 <= k < |nodes| && nodes[k].kind == Process && nodes[k].id == x
  {
    if nodes == [] then []
    else
      var rest := ProcessIds(nodes[..|nodes| - 1]);
      var last := nodes[|nodes| - 1];
      assert forall k :: 0 <= k < |nodes| - 1 ==> nodes[..|nodes| - 1][k] == nodes[k];
      if last.kind == Process then rest + [last.id] else rest
  }

  /** The process ids of a concatenation are those of each part, in order:
      node-list order is kept and so is every duplicate. */
  lemma {:induction false} ProcessIdsAppend(a: seq<Node>, b: seq<Node>)
    ensures ProcessIds(a + b) == ProcessIds(a) + ProcessIds(b)
  {
    if b == [] {
      assert a + b == a;
    } else {
      var init := b[..|b| - 1];
      ProcessIdsAppend(a, init);
      assert (a + b)[..|a + b| - 1] == a + init;
      assert (a + b)[|a + b| - 1] == b[|b| - 1];
    }
  }

  /** Read from the front, as the source's loops over the node list do: the
      first node contributes its id exactly when it is a process. */
  lemma ProcessIdsCons(n: Node, rest: seq<Node>)
    ensures ProcessIds([n] + rest) == (if n.kind == Process then [n.id] else []) + ProcessIds(rest)
  {
    ProcessIdsAppend([n], rest);
    assert [n][..0] == [];
  }

  /** The set of process ids: the keys of every per-process dictionary. */
  function ProcessIdSet(nodes: seq<Node>): set<Id>
  {
    set x | x in ProcessIds(nodes)
  }

  /** Node ids of one kind. */
  ghost predicate IsNodeOfKind(nodes: seq<Node>, x: Id, kind: NodeType)
  {
    exists k :: 0 <= k < |nodes| && nodes[k].id == x && nodes[k].kind == kind
  }

  /** The documented (but never validated) direction of an edge: a request
      goes from a process to a resource, an allocation from a resource to a
      process. */
  ghost predicate EdgeWellDirected(nodes: seq<Node>, e: Edge)
  {
    match e.kind
    case Request => IsNodeOfKind(nodes, e.source, Process) && IsNodeOfKind(nodes, e.target, Resource)
    case Allocation => IsNodeOfKind(nodes, e.source, Resource) && IsNodeOfKind(nodes, e.target, Process)
  }

  ghost predicate WellDirected(g: GraphState)
  {
    forall i :: 0 <= i < |g.edges| ==> EdgeWellDirected(g.nodes, g.edges[i])
  }

  /** The dictionary `{node.id: node for node in nodes}`: a later node with the
      same id replaces an earlier one. */
  function NodesById(nodes: seq<Node>): map<Id, Node>
  {
    if nodes == [] then map[]
    else NodesById(nodes[..|nodes| - 1])[nodes[|nodes| - 1].id := nodes[|nodes| - 1]]
  }

  /** `NodesById` holds exactly the node ids. */
  lemma {:induction false} NodesByIdKeys(nodes: seq<Node>, x: Id)
    ensures x in NodesById(nodes) <==> exists k :: 0 <= k < |nodes| && nodes[k].id == x
  {
    if nodes != [] {
      var init := nodes[..|nodes| - 1];
      NodesByIdKeys(init, x);
      assert forall k :: 0 <= k < |init| ==> init[k] == nodes[k];
    }
  }

  /** Each id is bound to the LAST node carrying it. */
  lemma {:induction false} NodesByIdLastWins(nodes: seq<Node>, k: nat)
    requires k < |nodes|
    requires forall k' :: k < k' < |nodes| ==> nodes[k'].id != nodes[k].id
    ensures nodes[k].id in NodesById(nodes) && NodesById(nodes)[nodes[k].id] == nodes[k]
  {
    var n := |nodes| - 1;
    if k < n {
      var init := nodes[..n];
      assert init[k] == nodes[k];
      NodesByIdLastWins(init, k);
    }
  }
}
