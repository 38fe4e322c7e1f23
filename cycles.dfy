/** Post-processing of the cycle that the simple-cycle enumeration returns
    for the full resource-allocation graph (resource nodes included). */
module Cycles {
  import opened GraphModels
  import opened SeqFacts

  /** The node after position `i` of a cycle, wrapping around to the start. */
  function Next(cycle: seq<Id>, i: nat): Id
    requires i < |cycle|
  {
    if i + 1 < |cycle| then cycle[i + 1] else cycle[0]
  }

  /** `Next` is the analyzer's `cycle[(i + 1) % len(cycle)]`. */
  lemma NextIsModular(cycle: seq<Id>, i: nat)
    requires i < |cycle|
    ensures Next(cycle, i) == cycle[(i + 1) % |cycle|]
  {
    if i + 1 == |cycle| {
      assert (i + 1) % |cycle| == 0;
    } else {
      assert (i + 1) % |cycle| == i + 1;
    }
  }

  /** Some edge of the graph goes from `s` to `t`. */
  ghost predicate HasEdge(edges: seq<Edge>, s: Id, t: Id)
  {
    exists k :: 0 <= k < |edges| && edges[k].source == s && edges[k].target == t
  }

  /** A simple cycle: at least one node, no node repeated, and an edge from
      every node to the next one, the last node leading back to the first. */
  ghost predicate IsSimpleCycle(edges: seq<Edge>, cycle: seq<Id>)
  {
    && |cycle| >= 1
    && Distinct(cycle)
    && PairsJoined(edges, cycle)
  }

  /** What the foreign simple-cycle enumeration gave: either it raised, or
      it listed cycles. */
  datatype CycleEnumeration = EnumerationRaised | Enumerated(cycles: seq<seq<Id>>)

  /** The enumeration lists only simple cycles of the graph. */
  ghost predicate SoundEnumeration(edges: seq<Edge>, enumeration: CycleEnumeration)
  {
    enumeration.Enumerated? ==>
      forall k :: 0 <= k < |enumeration.cycles| ==> IsSimpleCycle(edges, enumeration.cycles[k])
  }

  /** The enumeration ran and, when the graph has a simple cycle, listed at
      least one. */
  ghost predicate CompleteEnumeration(edges: seq<Edge>, enumeration: CycleEnumeration)
  {
    enumeration.Enumerated? && ((exists c :: IsSimpleCycle(edges, c)) ==> enumeration.cycles != [])
  }

  /** The ids of the edges from `s` to `t`, in edge-list order. */
  function EdgesBetween(edges: seq<Edge>, s: Id, t: Id): seq<Id>
  {
    if edges == [] then []
    else
      var e := edges[|edges| - 1];
      EdgesBetween(edges[..|edges| - 1], s, t) + (if e.source == s && e.target == t then [e.id] else [])
  }

  /** The ids of the edges joining the first `n` consecutive pairs of the cycle. */
  function CycleEdgesUpTo(edges: seq<Edge>, cycle: seq<Id>, n: nat): seq<Id>
    requires n <= |cycle|
  {
    if n == 0 then []
    else CycleEdgesUpTo(edges, cycle, n - 1) + EdgesBetween(edges, cycle[n - 1], Next(cycle, n - 1))
  }

  function CycleEdges(edges: seq<Edge>, cycle: seq<Id>): seq<Id>
  {
    CycleEdgesUpTo(edges, cycle, |cycle|)
  }

  /** The cycle the analyzer reports: the first one enumerated.  An empty
      value stands for "none": the enumeration raised, found nothing, or its
      first cycle is empty, so that indexing it raises inside the handler. */
  function FirstCycle(enumeration: CycleEnumeration): seq<Id>
  {
    if enumeration.Enumerated? && |enumeration.cycles| > 0 then enumeration.cycles[0] else []
  }

  /** The `CycleInfo` that `detect_cycle_dfs` returns. */
  function CycleReport(edges: seq<Edge>, enumeration: CycleEnumeration): (info: CycleInfo)
    ensures info.cycleExists <==> FirstCycle(enumeration) != []
    ensures info.cycleExists ==>
      && info.affectedNodes == FirstCycle(enumeration)
      && |info.cyclePath| == |info.affectedNodes| + 1
      && info.cyclePath[..|info.affectedNodes|] == info.affectedNodes
      && info.cyclePath[|info.affectedNodes|] == info.cyclePath[0]
    ensures !info.cycleExists ==> info.cyclePath == [] && info.affectedNodes == [] && info.affectedEdges == []
  {
    var cycle := FirstCycle(enumeration);
    if cycle == [] then CycleInfo(cycleExists := false)
    else CycleInfo(true, cycle + [cycle[0]], cycle, CycleEdges(edges, cycle))
  }

  // ---------------------------------------------------------------------

  /** Edge `k` has id `x` and goes from `s` to `t`. */
  predicate EdgeJoins(edges: seq<Edge>, k: int, s: Id, t: Id, x: Id)
  {
    0 <= k < |edges| && edges[k].id == x && edges[k].source == s && edges[k].target == t
  }

  lemma {:induction false} EdgesBetweenMembership(edges: seq<Edge>, s: Id, t: Id, x: Id)
    ensures x in EdgesBetween(edges, s, t) <==> exists k :: EdgeJoins(edges, k, s, t, x)
  {
    if edges != [] {
      var n := |edges| - 1;
      var init := edges[..n];
      EdgesBetweenMembership(init, s, t, x);
      assert forall k :: EdgeJoins(init, k, s, t, x) <==> k < n && EdgeJoins(edges, k, s, t, x);
      assert (exists k :: EdgeJoins(edges, k, s, t, x)) <==>
             (exists k :: k < n && EdgeJoins(edges, k, s, t, x)) || EdgeJoins(edges, n, s, t, x);
    }
  }

  /** The positions of the edges from `s` to `t`. */
  function JoiningPositions(edges: seq<Edge>, s: Id, t: Id): set<nat>
  {
    set k: nat | k < |edges| && edges[k].source == s && edges[k].target == t
  }

  /** An edge id is reported for the pair (s, t) for every edge s -> t, so
      that parallel edges are all listed, and the list is empty only when no
      edge joins the pair. */
  lemma {:induction false} EdgesBetweenLength(edges: seq<Edge>, s: Id, t: Id)
    ensures |EdgesBetween(edges, s, t)| == |JoiningPositions(edges, s, t)|
  {
    if edges == [] {
      assert JoiningPositions(edges, s, t) == {};
    } else {
      var n := |edges| - 1;
      EdgesBetweenLength(edges[..n], s, t);
      JoiningPositionsStep(edges, s, t);
    }
  }

  /** The last edge adds its own position, which is new, or nothing. */
  lemma JoiningPositionsStep(edges: seq<Edge>, s: Id, t: Id)
    requires edges != []
    ensures var n := |edges| - 1;
      && n !in JoiningPositions(edges[..n], s, t)
      && JoiningPositions(edges, s, t) ==
         JoiningPositions(edges[..n], s, t) + (if edges[n].source == s && edges[n].target == t then {n} else {})
  {
    var n := |edges| - 1;
    var init := edges[..n];
    forall k: nat | k < n ensures init[k] == edges[k] {
    }
  }

  lemma {:induction false} CycleEdgesUpToMembership(edges: seq<Edge>, cycle: seq<Id>, n: nat, x: Id)
    requires n <= |cycle|
    ensures x in CycleEdgesUpTo(edges, cycle, n) <==> exists i :: 0 <= i < n && InPairAt(edges, cycle, i, x)
  {
    if n > 0 {
      CycleEdgesUpToMembership(edges, cycle, n - 1, x);
      var init, pair := CycleEdgesUpTo(edges, cycle, n - 1), EdgesBetween(edges, cycle[n - 1], Next(cycle, n - 1));
      assert CycleEdgesUpTo(edges, cycle, n) == init + pair;
      InPairAtSplit(edges, cycle, n, x);
    }
  }

  /** A pair among the first `n` is one among the first `n - 1` or the last. */
  lemma InPairAtSplit(edges: seq<Edge>, cycle: seq<Id>, n: nat, x: Id)
    requires 0 < n <= |cycle|
    ensures (exists i :: 0 <= i < n && InPairAt(edges, cycle, i, x)) <==>
            (exists i :: 0 <= i < n - 1 && InPairAt(edges, cycle, i, x)) || InPairAt(edges, cycle, n - 1, x)
  {
  }

  /** `x` is the id of an edge joining position `i` of the cycle to the next. */
  predicate InPairAt(edges: seq<Edge>, cycle: seq<Id>, i: int, x: Id)
  {
    0 <= i < |cycle| && x in EdgesBetween(edges, cycle[i], Next(cycle, i))
  }

  /** `affected_edges` holds exactly the ids of the edges that join two
      consecutive nodes of the cycle, the wrap-around pair included. */
  lemma CycleEdgesMembership(edges: seq<Edge>, cycle: seq<Id>, x: Id)
    ensures x in CycleEdges(edges, cycle) <==> exists i, k :: EdgeJoinsAt(edges, cycle, i, k, x)
  {
    CycleEdgesUpToMembership(edges, cycle, |cycle|, x);
    if exists i, k :: EdgeJoinsAt(edges, cycle, i, k, x) {
      var i, k :| EdgeJoinsAt(edges, cycle, i, k, x);
      InPairAtMeaning(edges, cycle, i, x);
    }
    if x in CycleEdges(edges, cycle) {
      var i :| 0 <= i < |cycle| && InPairAt(edges, cycle, i, x);
      InPairAtMeaning(edges, cycle, i, x);
    }
  }

  lemma InPairAtMeaning(edges: seq<Edge>, cycle: seq<Id>, i: nat, x: Id)
    requires i < |cycle|
    ensures InPairAt(edges, cycle, i, x) <==> exists k :: EdgeJoinsAt(edges, cycle, i, k, x)
  {
    EdgesBetweenMembership(edges, cycle[i], Next(cycle, i), x);
    if x in EdgesBetween(edges, cycle[i], Next(cycle, i)) {
      var k :| EdgeJoins(edges, k, cycle[i], Next(cycle, i), x);
      assert EdgeJoinsAt(edges, cycle, i, k, x);
    }
  }

  /** Edge `k` has id `x` and goes from position `i` of the cycle to the next. */
  predicate EdgeJoinsAt(edges: seq<Edge>, cycle: seq<Id>, i: int, k: int, x: Id)
  {
    0 <= i < |cycle| && EdgeJoins(edges, k, cycle[i], Next(cycle, i), x)
  }

  /** Every consecutive pair of the cycle is joined by an edge. */
  ghost predicate PairsJoined(edges: seq<Edge>, cycle: seq<Id>)
  {
    forall i :: 0 <= i < |cycle| ==> JoinedAt(edges, cycle, i)
  }

  /** An edge goes from position `i` of the cycle to the next position. */
  ghost predicate JoinedAt(edges: seq<Edge>, cycle: seq<Id>, i: nat)
    requires i < |cycle|
  {
    HasEdge(edges, cycle[i], Next(cycle, i))
  }

  /** Every pair of the cycle contributes at least one affected edge. */
  lemma {:induction false} CycleEdgesLength(edges: seq<Edge>, cycle: seq<Id>, n: nat)
    requires n <= |cycle|
    requires PairsJoined(edges, cycle)
    ensures |CycleEdgesUpTo(edges, cycle, n)| >= n
  {
    if n > 0 {
      CycleEdgesLength(edges, cycle, n - 1);
      assert JoinedAt(edges, cycle, n - 1);
      PairHasEdgeId(edges, cycle[n - 1], Next(cycle, n - 1));
      CycleEdgesUpToStep(edges, cycle, n);
    }
  }

  /** The list for `n` pairs is the list for `n - 1` and one pair more. */
  lemma CycleEdgesUpToStep(edges: seq<Edge>, cycle: seq<Id>, n: nat)
    requires 0 < n <= |cycle|
    ensures |CycleEdgesUpTo(edges, cycle, n)| ==
            |CycleEdgesUpTo(edges, cycle, n - 1)| + |EdgesBetween(edges, cycle[n - 1], Next(cycle, n - 1))|
  {
  }

  lemma PairHasEdgeId(edges: seq<Edge>, s: Id, t: Id)
    requires HasEdge(edges, s, t)
    ensures |EdgesBetween(edges, s, t)| >= 1
  {
    var k :| 0 <= k < |edges| && edges[k].source == s && edges[k].target == t;
    EdgesBetweenMembership(edges, s, t, edges[k].id);
    assert EdgeJoins(edges, k, s, t, edges[k].id);
  }

  /** With a sound enumeration, a reported cycle is a closed walk of the
      graph: each consecutive pair of `cycle_path` is joined by an edge whose
      id is among `affected_edges`, and there are at least as many affected
      edges as affected nodes. */
  lemma ReportedCycleIsClosedWalk(edges: seq<Edge>, enumeration: CycleEnumeration)
    requires SoundEnumeration(edges, enumeration)
    ensures var info := CycleReport(edges, enumeration);
      info.cycleExists ==>
        && IsSimpleCycle(edges, info.affectedNodes)
        && |info.affectedEdges| >= |info.affectedNodes|
        && forall i :: 0 <= i < |info.cyclePath| - 1 ==>
             exists k :: 0 <= k < |edges| && edges[k].source == info.cyclePath[i] &&
               edges[k].target == info.cyclePath[i + 1] && edges[k].id in info.affectedEdges
  {
    var info := CycleReport(edges, enumeration);
    if info.cycleExists {
      var cycle := info.affectedNodes;
      assert IsSimpleCycle(edges, cycle);
      CycleEdgesLength(edges, cycle, |cycle|);
      forall i | 0 <= i < |info.cyclePath| - 1
        ensures exists k :: 0 <= k < |edges| && edges[k].source == info.cyclePath[i] &&
                  edges[k].target == info.cyclePath[i + 1] && edges[k].id in info.affectedEdges
      {
        assert info.cyclePath[i] == cycle[i];
        assert info.cyclePath[i + 1] == Next(cycle, i);
        PairHasReportedEdge(edges, cycle, i);
      }
    }
  }

  /** The pair at position `i` of a closed walk is joined by an edge whose id
      is among the cycle's edges. */
  lemma PairHasReportedEdge(edges: seq<Edge>, cycle: seq<Id>, i: nat)
    requires i < |cycle| && JoinedAt(edges, cycle, i)
    ensures exists k :: 0 <= k < |edges| && edges[k].source == cycle[i] &&
              edges[k].target == Next(cycle, i) && edges[k].id in CycleEdges(edges, cycle)
  {
    var k :| 0 <= k < |edges| && edges[k].source == cycle[i] && edges[k].target == Next(cycle, i);
    assert EdgeJoinsAt(edges, cycle, i, k, edges[k].id);
    CycleEdgesMembership(edges, cycle, edges[k].id);
  }
}
