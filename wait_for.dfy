/** The wait-for reduction of a resource-allocation graph: process P waits
    for process Q when P requests a resource that is allocated to Q. */
module WaitFor {
  import opened GraphModels
  import opened SeqFacts

  predicate IsRequestFrom(e: Edge, p: Id)
  {
    e.kind == Request && e.source == p
  }

  predicate IsAllocationFrom(e: Edge, r: Id)
  {
    e.kind == Allocation && e.source == r
  }

  /** `process_requests[p]`: the targets of the request edges leaving `p`, in
      edge order. */
  function RequestedBy(edges: seq<Edge>, p: Id): seq<Id>
  {
    if edges == [] then []
    else
      var e := edges[|edges| - 1];
      RequestedBy(edges[..|edges| - 1], p) + (if IsRequestFrom(e, p) then [e.target] else [])
  }

  /** `resource_allocations[r]`: the targets of the allocation edges leaving
      `r`, in edge order. */
  function Holders(edges: seq<Edge>, r: Id): seq<Id>
  {
    if edges == [] then []
    else
      var e := edges[|edges| - 1];
      Holders(edges[..|edges| - 1], r) + (if IsAllocationFrom(e, r) then [e.target] else [])
  }

  /** The holders that are not `p` itself, in order. */
  function OtherThan(holders: seq<Id>, p: Id): seq<Id>
  {
    if holders == [] then []
    else
      var h := holders[|holders| - 1];
      OtherThan(holders[..|holders| - 1], p) + (if h != p then [h] else [])
  }

  /** The holders other than `p` of each resource of `resources`, one
      resource after the other. */
  function Gather(edges: seq<Edge>, resources: seq<Id>, p: Id): seq<Id>
  {
    if resources == [] then []
    else
      Gather(edges, resources[..|resources| - 1], p) + OtherThan(Holders(edges, resources[|resources| - 1]), p)
  }

  /** The list `wait_for[p]` that the reduction builds for process `p`. */
  function WaitList(edges: seq<Edge>, p: Id): seq<Id>
  {
    Gather(edges, RequestedBy(edges, p), p)
  }

  /** The sources of request edges in order of first occurrence: the
      iteration order of the `process_requests` dictionary. */
  function RequestSources(edges: seq<Edge>): seq<Id>
  {
    if edges == [] then []
    else
      var rest := RequestSources(edges[..|edges| - 1]);
      var e := edges[|edges| - 1];
      if e.kind == Request && e.source !in rest then rest + [e.source] else rest
  }

  /** The `process_requests` dictionary of the first loop: for every edge in
      order, a request edge appends its target to its source's list. */
  function RequestGroups(edges: seq<Edge>): map<Id, seq<Id>>
  {
    if edges == [] then map[]
    else
      var groups := RequestGroups(edges[..|edges| - 1]);
      var e := edges[|edges| - 1];
      if e.kind == Request then groups[e.source := (if e.source in groups then groups[e.source] else []) + [e.target]]
      else groups
  }

  /** The `resource_allocations` dictionary of the first loop: an allocation
      edge appends its target to its source's list. */
  function AllocationGroups(edges: seq<Edge>): map<Id, seq<Id>>
  {
    if edges == [] then map[]
    else
      var groups := AllocationGroups(edges[..|edges| - 1]);
      var e := edges[|edges| - 1];
      if e.kind == Allocation then groups[e.source := (if e.source in groups then groups[e.source] else []) + [e.target]]
      else groups
  }

  /** The first requesting process, in dictionary order, that is not a key of
      `wait_for` and would have something appended to its list: the one whose
      lookup raises the `KeyError`. */
  function FirstMissing(order: seq<Id>, keys: set<Id>, edges: seq<Edge>): Option<Id>
  {
    if order == [] then None
    else if order[0] !in keys && WaitList(edges, order[0]) != [] then Some(order[0])
    else FirstMissing(order[1..], keys, edges)
  }

  /** The search for the first missing requester, resumed at position `k`. */
  lemma FirstMissingStep(order: seq<Id>, keys: set<Id>, edges: seq<Edge>, k: nat)
    requires k < |order|
    ensures FirstMissing(order[k..], keys, edges) ==
      if order[k] !in keys && WaitList(edges, order[k]) != [] then Some(order[k])
      else FirstMissing(order[k + 1..], keys, edges)
  {
    assert order[k..][1..] == order[k + 1..];
  }

  /** The result of `build_wait_for_graph`: either the map from every process
      id to its wait list, or the `KeyError` raised for a requesting node that
      is not a process. */
  function WaitForGraph(nodes: seq<Node>, edges: seq<Edge>): Outcome<map<Id, seq<Id>>>
  {
    match FirstMissing(RequestSources(edges), ProcessIdSet(nodes), edges)
    case Some(p) => KeyError(p)
    case None => Ok(WaitLists(nodes, edges))
  }

  /** Every process id with its wait list. */
  function WaitLists(nodes: seq<Node>, edges: seq<Edge>): (w: map<Id, seq<Id>>)
    ensures w.Keys == ProcessIdSet(nodes)
  {
    map p | p in ProcessIdSet(nodes) :: WaitList(edges, p)
  }

  /** Some request edge P -> R and some allocation edge R -> Q exist. */
  ghost predicate RequestMeetsAllocation(edges: seq<Edge>, p: Id, q: Id)
  {
    exists i, j :: 0 <= i < |edges| && 0 <= j < |edges| &&
      IsRequestFrom(edges[i], p) && IsAllocationFrom(edges[j], edges[i].target) && edges[j].target == q
  }

  // ---------------------------------------------------------------------
  // Membership facts for the building blocks.

  lemma {:induction false} RequestedByMembership(edges: seq<Edge>, p: Id, r: Id)
    ensures r in RequestedBy(edges, p) <==>
            exists i :: 0 <= i < |edges| && IsRequestFrom(edges[i], p) && edges[i].target == r
  {
    if edges != [] {
      var init := edges[..|edges| - 1];
      RequestedByMembership(init, p, r);
      assert forall i :: 0 <= i < |init| ==> init[i] == edges[i];
    }
  }

  lemma {:induction false} HoldersMembership(edges: seq<Edge>, r: Id, q: Id)
    ensures q in Holders(edges, r) <==>
            exists j :: 0 <= j < |edges| && IsAllocationFrom(edges[j], r) && edges[j].target == q
  {
    if edges != [] {
      var init := edges[..|edges| - 1];
      HoldersMembership(init, r, q);
      assert forall j :: 0 <= j < |init| ==> init[j] == edges[j];
    }
  }

  lemma {:induction false} OtherThanMembership(holders: seq<Id>, p: Id, q: Id)
    ensures q in OtherThan(holders, p) <==> q in holders && q != p
  {
    if holders != [] {
      var init := holders[..|holders| - 1];
      OtherThanMembership(init, p, q);
      assert holders == init + [holders[|holders| - 1]];
    }
  }

  /** `q` is one of the holders other than `p` of resource `r`. */
  predicate HeldByOther(edges: seq<Edge>, r: Id, p: Id, q: Id)
  {
    q in OtherThan(Holders(edges, r), p)
  }

  lemma {:induction false} GatherMembership(edges: seq<Edge>, resources: seq<Id>, p: Id, q: Id)
    ensures q in Gather(edges, resources, p) <==>
            exists r :: r in resources && HeldByOther(edges, r, p, q)
  {
    if resources != [] {
      var init, last := resources[..|resources| - 1], resources[|resources| - 1];
      GatherMembership(edges, init, p, q);
      assert resources == init + [last];
      if q in Gather(edges, resources, p) && q !in Gather(edges, init, p) {
        assert HeldByOther(edges, last, p, q);
      }
      if exists r :: r in resources && HeldByOther(edges, r, p, q) {
        var r :| r in resources && HeldByOther(edges, r, p, q);
        if r != last {
          assert r in init;
        }
      }
    }
  }

  lemma {:induction false} RequestSourcesMembership(edges: seq<Edge>, p: Id)
    ensures p in RequestSources(edges) <==> exists i :: 0 <= i < |edges| && IsRequestFrom(edges[i], p)
  {
    if edges != [] {
      var init := edges[..|edges| - 1];
      RequestSourcesMembership(init, p);
      assert forall i :: 0 <= i < |init| ==> init[i] == edges[i];
    }
  }

  /** The dictionary order of `process_requests` lists each key once. */
  lemma {:induction false} RequestSourcesDistinct(edges: seq<Edge>)
    ensures Distinct(RequestSources(edges))
  {
    if edges != [] {
      RequestSourcesDistinct(edges[..|edges| - 1]);
    }
  }

  /** The keys of `process_requests` are the request sources, each mapped to
      the resources it requests; every other node requests nothing. */
  lemma {:induction false} RequestGroupsMeaning(edges: seq<Edge>)
    ensures forall p :: p in RequestGroups(edges) <==> p in RequestSources(edges)
    ensures forall p :: p in RequestGroups(edges) ==> RequestGroups(edges)[p] == RequestedBy(edges, p)
    ensures forall p :: p !in RequestGroups(edges) ==> RequestedBy(edges, p) == []
  {
    if edges != [] {
      RequestGroupsMeaning(edges[..|edges| - 1]);
    }
  }

  /** `resource_allocations` maps each resource to its holders; a resource
      that is not a key has none. */
  lemma {:induction false} AllocationGroupsMeaning(edges: seq<Edge>)
    ensures forall r :: r in AllocationGroups(edges) ==> AllocationGroups(edges)[r] == Holders(edges, r)
    ensures forall r :: r !in AllocationGroups(edges) ==> Holders(edges, r) == []
  {
    if edges != [] {
      AllocationGroupsMeaning(edges[..|edges| - 1]);
    }
  }

  lemma {:induction false} FirstMissingFound(order: seq<Id>, keys: set<Id>, edges: seq<Edge>)
    ensures FirstMissing(order, keys, edges).Some? <==>
            exists k :: 0 <= k < |order| && order[k] !in keys && WaitList(edges, order[k]) != []
    ensures FirstMissing(order, keys, edges).Some? ==>
            var p := FirstMissing(order, keys, edges).value;
            p in order && p !in keys && WaitList(edges, p) != []
  {
    if order != [] {
      FirstMissingFound(order[1..], keys, edges);
      assert forall k :: 1 <= k < |order| ==> order[1..][k - 1] == order[k];
    }
  }

  // ---------------------------------------------------------------------
  // Properties of the reduction.

  /** Q appears on P's wait list exactly when some request edge P -> R and
      some allocation edge R -> Q exist with Q different from P. */
  lemma WaitListMembership(edges: seq<Edge>, p: Id, q: Id)
    ensures q in WaitList(edges, p) <==>
            q != p && RequestMeetsAllocation(edges, p, q)
  {
    var rs := RequestedBy(edges, p);
    GatherMembership(edges, rs, p, q);
    if q in WaitList(edges, p) {
      var r :| r in rs && HeldByOther(edges, r, p, q);
      OtherThanMembership(Holders(edges, r), p, q);
      RequestedByMembership(edges, p, r);
      HoldersMembership(edges, r, q);
      var i :| 0 <= i < |edges| && IsRequestFrom(edges[i], p) && edges[i].target == r;
      var j :| 0 <= j < |edges| && IsAllocationFrom(edges[j], r) && edges[j].target == q;
      assert IsAllocationFrom(edges[j], edges[i].target);
    }
    if q != p && RequestMeetsAllocation(edges, p, q) {
      var i, j :| 0 <= i < |edges| && 0 <= j < |edges| &&
        IsRequestFrom(edges[i], p) && IsAllocationFrom(edges[j], edges[i].target) && edges[j].target == q;
      var r := edges[i].target;
      RequestedByMembership(edges, p, r);
      HoldersMembership(edges, r, q);
      OtherThanMembership(Holders(edges, r), p, q);
      assert HeldByOther(edges, r, p, q);
    }
  }

  /** No process ever waits for itself. */
  lemma NoSelfWait(edges: seq<Edge>, p: Id)
    ensures p !in WaitList(edges, p)
  {
    WaitListMembership(edges, p, p);
  }

  /** When the reduction succeeds, its keys are exactly the process ids, every
      list has no self-loop, and a process that requests nothing keeps the
      empty list it started with. */
  lemma WaitForGraphShape(nodes: seq<Node>, edges: seq<Edge>)
    ensures WaitForGraph(nodes, edges).Ok? ==>
      var w := WaitForGraph(nodes, edges).value;
      && w.Keys == ProcessIdSet(nodes)
      && (forall p :: p in w ==> p !in w[p])
      && (forall p :: p in w && (forall i :: 0 <= i < |edges| ==> !IsRequestFrom(edges[i], p)) ==> w[p] == [])
  {
    if WaitForGraph(nodes, edges).Ok? {
      var w := WaitForGraph(nodes, edges).value;
      forall p | p in w ensures p !in w[p] {
        NoSelfWait(edges, p);
      }
      forall p | p in w && (forall i :: 0 <= i < |edges| ==> !IsRequestFrom(edges[i], p)) ensures w[p] == [] {
        if RequestedBy(edges, p) != [] {
          var r := RequestedBy(edges, p)[0];
          RequestedByMembership(edges, p, r);
        }
      }
    }
  }

  /** Request edge `i` leaves `edges[i].source`, which is not among `keys`,
      and allocation edge `j` gives the requested resource to another node. */
  predicate RaisingPair(edges: seq<Edge>, keys: set<Id>, i: int, j: int)
  {
    0 <= i < |edges| && 0 <= j < |edges| &&
    IsRequestFrom(edges[i], edges[i].source) && edges[i].source !in keys &&
    IsAllocationFrom(edges[j], edges[i].target) && edges[j].target != edges[i].source
  }

  /** A wrongly directed request raises: the reduction fails exactly when a
      request edge leaves a node that is not a process and the requested
      resource is allocated to some other node; the key reported is such a
      node. */
  lemma WaitForGraphFails(nodes: seq<Node>, edges: seq<Edge>)
    ensures WaitForGraph(nodes, edges).KeyError? <==>
      exists i, j :: RaisingPair(edges, ProcessIdSet(nodes), i, j)
    ensures WaitForGraph(nodes, edges).KeyError? ==>
      var p := WaitForGraph(nodes, edges).key;
      p !in ProcessIdSet(nodes) && WaitList(edges, p) != []
  {
    var order := RequestSources(edges);
    var keys := ProcessIdSet(nodes);
    FirstMissingFound(order, keys, edges);
    if FirstMissing(order, keys, edges).Some? {
      MissingHasRaisingPair(order, keys, edges);
    }
    if exists i, j :: RaisingPair(edges, keys, i, j) {
      RaisingPairIsMissing(keys, edges);
    }
  }

  lemma MissingHasRaisingPair(order: seq<Id>, keys: set<Id>, edges: seq<Edge>)
    requires exists k :: 0 <= k < |order| && order[k] !in keys && WaitList(edges, order[k]) != []
    ensures exists i, j :: RaisingPair(edges, keys, i, j)
  {
    var k :| 0 <= k < |order| && order[k] !in keys && WaitList(edges, order[k]) != [];
    var p := order[k];
    var q := WaitList(edges, p)[0];
    WaitListMembership(edges, p, q);
    var i, j :| 0 <= i < |edges| && 0 <= j < |edges| &&
      IsRequestFrom(edges[i], p) && IsAllocationFrom(edges[j], edges[i].target) && edges[j].target == q;
    assert RaisingPair(edges, keys, i, j);
  }

  lemma RaisingPairIsMissing(keys: set<Id>, edges: seq<Edge>)
    requires exists i, j :: RaisingPair(edges, keys, i, j)
    ensures FirstMissing(RequestSources(edges), keys, edges).Some?
  {
    var order := RequestSources(edges);
    var i, j :| RaisingPair(edges, keys, i, j);
    var p := edges[i].source;
    WaitListMembership(edges, p, edges[j].target);
    RequestSourcesMembership(edges, p);
    var k :| 0 <= k < |order| && order[k] == p;
    FirstMissingFound(order, keys, edges);
  }

  /** On a graph whose request edges leave process nodes, the reduction never
      raises. */
  lemma WellDirectedWaitForOk(g: GraphState)
    requires WellDirected(g)
    ensures WaitForGraph(g.nodes, g.edges).Ok?
  {
    WaitForGraphFails(g.nodes, g.edges);
  }
  // ---------------------------------------------------------------------
  // Multiplicity: one entry per (request edge, allocation edge) pair.

  /** The number of allocation edges R -> Q. */
  function AllocationCount(edges: seq<Edge>, r: Id, q: Id): nat
  {
    if edges == [] then 0
    else
      var e := edges[|edges| - 1];
      AllocationCount(edges[..|edges| - 1], r, q) + (if IsAllocationFrom(e, r) && e.target == q then 1 else 0)
  }

  /** The number of pairs of a request edge P -> R of `requests` and an
      allocation edge R -> Q of `edges`. */
  function PairCount(requests: seq<Edge>, edges: seq<Edge>, p: Id, q: Id): nat
  {
    if requests == [] then 0
    else
      var e := requests[|requests| - 1];
      PairCount(requests[..|requests| - 1], edges, p, q) + (if IsRequestFrom(e, p) then AllocationCount(edges, e.target, q) else 0)
  }

  /** The holders of each requested resource, counted for `q`. */
  function HolderCount(edges: seq<Edge>, resources: seq<Id>, q: Id): nat
  {
    if resources == [] then 0
    else HolderCount(edges, resources[..|resources| - 1], q) + AllocationCount(edges, resources[|resources| - 1], q)
  }

  lemma {:induction false} HoldersMultiplicity(edges: seq<Edge>, r: Id, q: Id)
    ensures multiset(Holders(edges, r))[q] == AllocationCount(edges, r, q)
  {
    if edges != [] {
      HoldersMultiplicity(edges[..|edges| - 1], r, q);
    }
  }

  lemma {:induction false} OtherThanMultiplicity(holders: seq<Id>, p: Id, q: Id)
    requires q != p
    ensures multiset(OtherThan(holders, p))[q] == multiset(holders)[q]
  {
    if holders != [] {
      var init := holders[..|holders| - 1];
      OtherThanMultiplicity(init, p, q);
      assert holders == init + [holders[|holders| - 1]];
    }
  }

  lemma {:induction false} GatherMultiplicity(edges: seq<Edge>, resources: seq<Id>, p: Id, q: Id)
    requires q != p
    ensures multiset(Gather(edges, resources, p))[q] == HolderCount(edges, resources, q)
  {
    if resources != [] {
      var r := resources[|resources| - 1];
      GatherMultiplicity(edges, resources[..|resources| - 1], p, q);
      OtherThanMultiplicity(Holders(edges, r), p, q);
      HoldersMultiplicity(edges, r, q);
    }
  }

  lemma {:induction false} RequestedHolderCount(requests: seq<Edge>, edges: seq<Edge>, p: Id, q: Id)
    ensures HolderCount(edges, RequestedBy(requests, p), q) == PairCount(requests, edges, p, q)
  {
    if requests != [] {
      var e := requests[|requests| - 1];
      var rs := RequestedBy(requests[..|requests| - 1], p);
      RequestedHolderCount(requests[..|requests| - 1], edges, p, q);
      if IsRequestFrom(e, p) {
        assert (rs + [e.target])[..|rs|] == rs;
      } else {
        assert rs + [] == rs;
      }
    }
  }

  /** For Q other than P, Q occurs on P's wait list once for every pair of a
      request edge P -> R and an allocation edge R -> Q: duplicates are kept. */
  lemma WaitListMultiplicity(edges: seq<Edge>, p: Id, q: Id)
    requires q != p
    ensures multiset(WaitList(edges, p))[q] == PairCount(edges, edges, p, q)
  {
    GatherMultiplicity(edges, RequestedBy(edges, p), p, q);
    RequestedHolderCount(edges, edges, p, q);
  }
}
