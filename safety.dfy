/** The safe-sequence solver: a Banker's-style greedy search in which a
    process's need is its current request edges (there is no declared
    maximum-demand matrix) and finishing a process releases what its
    allocation edges hold. */
module Safety {
  import opened GraphModels
  import opened SeqFacts

  /** `m.get(r, 0)`. */
  function Get(m: map<Id, int>, r: Id): int
  {
    if r in m then m[r] else 0
  }

  /** `{r.id: r.available for r in resources}`: a later resource node with the
      same id replaces an earlier one. */
  function AvailableTable(nodes: seq<Node>): (t: map<Id, int>)
    ensures forall r :: r in t ==> t[r] >= 0
  {
    if nodes == [] then map[]
    else
      var n := nodes[|nodes| - 1];
      var t := AvailableTable(nodes[..|nodes| - 1]);
      if n.kind == Resource then t[n.id := n.available] else t
  }

  /** The process end of an edge: the target of an allocation, the source of
      a request. */
  function ProcessEnd(e: Edge): Id
  {
    if e.kind == Allocation then e.target else e.source
  }

  /** The resource end of an edge. */
  function ResourceEnd(e: Edge): Id
  {
    if e.kind == Allocation then e.source else e.target
  }

  /** Edge `e` is of `kind` between process `p` and resource `r`. */
  predicate Joins(e: Edge, kind: EdgeType, p: Id, r: Id)
  {
    e.kind == kind && ProcessEnd(e) == p && ResourceEnd(e) == r
  }

  /** `allocations[p]` (kind Allocation) or `requests[p]` (kind Request): for
      each resource, the instances of the last matching edge. */
  function Table(edges: seq<Edge>, kind: EdgeType, p: Id): (t: map<Id, int>)
    ensures forall r :: r in t ==> t[r] >= 1
  {
    if edges == [] then map[]
    else
      var e := edges[|edges| - 1];
      var t := Table(edges[..|edges| - 1], kind, p);
      if e.kind == kind && ProcessEnd(e) == p then t[ResourceEnd(e) := e.instances] else t
  }

  function AllocationTable(edges: seq<Edge>, p: Id): map<Id, int>
  {
    Table(edges, Allocation, p)
  }

  function RequestTable(edges: seq<Edge>, p: Id): map<Id, int>
  {
    Table(edges, Request, p)
  }

  /** `allocations` or `requests`: the table of every process id. */
  function Tables(edges: seq<Edge>, kind: EdgeType, keys: set<Id>): (ts: map<Id, map<Id, int>>)
    ensures ts.Keys == keys
  {
    map p | p in keys :: Table(edges, kind, p)
  }

  /** Every request of `need` fits the work vector. */
  predicate CanFinish(need: map<Id, int>, work: map<Id, int>)
  {
    forall r :: r in need ==> need[r] <= Get(work, r)
  }

  /** The work vector after a finishing process gives back what it holds. */
  function Release(work: map<Id, int>, held: map<Id, int>): (w: map<Id, int>)
    ensures w.Keys == work.Keys + held.Keys
    ensures forall r :: Get(w, r) == Get(work, r) + Get(held, r)
  {
    map r | r in work.Keys + held.Keys :: Get(work, r) + Get(held, r)
  }

  /** The first position at or after `from`, in node-list order, of a process
      that is unfinished and whose requests all fit `work`. */
  function FirstCandidate(procs: seq<Id>, edges: seq<Edge>, work: map<Id, int>, finished: set<Id>, from: nat): (c: Option<nat>)
    requires from <= |procs|
    decreases |procs| - from
    ensures c.Some? ==>
      && from <= c.value < |procs|
      && procs[c.value] !in finished
      && CanFinish(RequestTable(edges, procs[c.value]), work)
    ensures forall i :: from <= i < |procs| && (c.None? || i < c.value) ==>
      procs[i] in finished || !CanFinish(RequestTable(edges, procs[i]), work)
  {
    if from == |procs| then None
    else if procs[from] !in finished && CanFinish(RequestTable(edges, procs[from]), work) then Some(from)
    else FirstCandidate(procs, edges, work, finished, from + 1)
  }

  /** The solver's main loop from the state (`work`, `finished`, `done`):
      pick the first candidate, release its allocations, record it, and scan
      again from the front; stop when as many ids are finished as there are
      process nodes, or when a scan finds nobody. */
  function Run(procs: seq<Id>, edges: seq<Edge>, work: map<Id, int>, finished: set<Id>, done: seq<Id>): (res: SafeSequenceResult)
    requires finished <= SetOf(procs)
    decreases |SetOf(procs) - finished|
    ensures res.isSafe ==> res.message == SafeSequenceFound && |res.safeSequence| >= |done| && res.safeSequence[..|done|] == done
    ensures !res.isSafe ==> res.safeSequence == [] && res.message.UnsafeState?
    ensures !res.isSafe ==> |res.message.completed| >= |done| && res.message.completed[..|done|] == done
  {
    if |finished| >= |procs| then SafeSequenceResult(true, done, SafeSequenceFound)
    else
      match FirstCandidate(procs, edges, work, finished, 0)
      case None => SafeSequenceResult(false, [], UnsafeState(done))
      case Some(i) =>
        var p := procs[i];
        assert SetOf(procs) - (finished + {p}) < SetOf(procs) - finished;
        var res := Run(procs, edges, Release(work, AllocationTable(edges, p)), finished + {p}, done + [p]);
        var reached := if res.isSafe then res.safeSequence else res.message.completed;
        PrefixOfExtension(reached, done, p);
        res
  }

  /** One round of the main loop: a scan that finds nobody ends the run
      unsafe, a scan that finds `procs[i]` continues from its release. */
  lemma RunScan(procs: seq<Id>, edges: seq<Edge>, work: map<Id, int>, finished: set<Id>, done: seq<Id>)
    requires finished <= SetOf(procs) && |finished| < |procs|
    ensures var c := FirstCandidate(procs, edges, work, finished, 0);
      && (c.None? ==> Run(procs, edges, work, finished, done) == SafeSequenceResult(false, [], UnsafeState(done)))
      && (c.Some? ==>
            var p := procs[c.value];
            && p !in finished && p in SetOf(procs) && |finished + {p}| == |finished| + 1
            && Run(procs, edges, work, finished, done) == Run(procs, edges, Release(work, AllocationTable(edges, p)), finished + {p}, done + [p]))
  {
  }

  /** The result of `calculate_safe_sequence`. */
  function SafeSequenceOf(g: GraphState): (res: SafeSequenceResult)
    ensures ProcessIds(g.nodes) == [] ==> res == SafeSequenceResult(true, [], NoProcesses)
    ensures ProcessIds(g.nodes) != [] && res.isSafe ==> res.message == SafeSequenceFound
    ensures !res.isSafe ==> res.safeSequence == [] && res.message.UnsafeState?
  {
    var procs := ProcessIds(g.nodes);
    if procs == [] then SafeSequenceResult(true, [], NoProcesses)
    else Run(procs, g.edges, AvailableTable(g.nodes), {}, [])
  }

  // ---------------------------------------------------------------------
  // The reference notion of a safe order.

  /** What the processes of `order` release, resource `r` only. */
  function Released(edges: seq<Edge>, order: seq<Id>, r: Id): (n: int)
    ensures n >= 0
  {
    if order == [] then 0
    else Released(edges, order[..|order| - 1], r) + Get(AllocationTable(edges, order[|order| - 1]), r)
  }

  /** The `k`-th process of `order` can finish: each of its requests is at
      most what is initially available plus what the processes before it
      gave back. */
  ghost predicate FitsAfter(edges: seq<Edge>, initial: map<Id, int>, order: seq<Id>, k: nat)
    requires k < |order|
  {
    var need := RequestTable(edges, order[k]);
    forall r :: r in need ==> need[r] <= Get(initial, r) + Released(edges, order[..k], r)
  }

  /** Every step of `order` can finish. */
  ghost predicate Feasible(edges: seq<Edge>, initial: map<Id, int>, order: seq<Id>)
  {
    forall k :: 0 <= k < |order| ==> FitsAfter(edges, initial, order, k)
  }

  /** A safe order: every process listed exactly once, and each one's
      requests fit when its turn comes. */
  ghost predicate IsSafeOrder(g: GraphState, order: seq<Id>)
  {
    multiset(order) == multiset(ProcessIds(g.nodes)) && Feasible(g.edges, AvailableTable(g.nodes), order)
  }

  // ---------------------------------------------------------------------
  // Tables.

  lemma {:induction false} AvailableTableLastWins(nodes: seq<Node>, r: Id)
    ensures r in AvailableTable(nodes) <==> exists k :: 0 <= k < |nodes| && nodes[k].kind == Resource && nodes[k].id == r
    ensures forall k :: 0 <= k < |nodes| && nodes[k].kind == Resource && nodes[k].id == r &&
              (forall k' :: k < k' < |nodes| ==> !(nodes[k'].kind == Resource && nodes[k'].id == r))
              ==> AvailableTable(nodes)[r] == nodes[k].available
  {
    if nodes != [] {
      var init := nodes[..|nodes| - 1];
      AvailableTableLastWins(init, r);
      assert forall k :: 0 <= k < |init| ==> init[k] == nodes[k];
    }
  }

  /** A table has an entry for `r` exactly when some edge joins `p` and `r`,
      and the entry is the instance count of the last such edge. */
  lemma {:induction false} TableLastWins(edges: seq<Edge>, kind: EdgeType, p: Id, r: Id)
    ensures r in Table(edges, kind, p) <==> exists k :: 0 <= k < |edges| && Joins(edges[k], kind, p, r)
    ensures forall k :: 0 <= k < |edges| && Joins(edges[k], kind, p, r) &&
              (forall k' :: k < k' < |edges| ==> !Joins(edges[k'], kind, p, r))
              ==> Table(edges, kind, p)[r] == edges[k].instances
  {
    if edges != [] {
      var init := edges[..|edges| - 1];
      TableLastWins(init, kind, p, r);
      assert forall k :: 0 <= k < |init| ==> init[k] == edges[k];
    }
  }

  /** One more edge of `kind` overwrites one entry of its process's table. */
  lemma TablesStep(edges: seq<Edge>, kind: EdgeType, keys: set<Id>, i: nat)
    requires i < |edges|
    ensures var e, ts := edges[i], Tables(edges[..i], kind, keys);
      Tables(edges[..i + 1], kind, keys) ==
        if e.kind == kind && ProcessEnd(e) in keys then ts[ProcessEnd(e) := ts[ProcessEnd(e)][ResourceEnd(e) := e.instances]] else ts
  {
    assert edges[..i + 1][..i] == edges[..i];
  }

  /** Finishing a process never lowers the work vector, nor drops a key. */
  lemma ReleaseNeverDecreases(work: map<Id, int>, edges: seq<Edge>, p: Id)
    ensures forall r :: Get(Release(work, AllocationTable(edges, p)), r) >= Get(work, r)
    ensures forall r :: r in work ==> r in Release(work, AllocationTable(edges, p))
  {
    forall r ensures Get(AllocationTable(edges, p), r) >= 0 {
    }
  }

  // ---------------------------------------------------------------------
  // Sums of released instances.

  lemma {:induction false} ReleasedAppend(edges: seq<Edge>, a: seq<Id>, b: seq<Id>, r: Id)
    ensures Released(edges, a + b, r) == Released(edges, a, r) + Released(edges, b, r)
  {
    if b == [] {
      assert a + b == a;
    } else {
      var init := b[..|b| - 1];
      ReleasedAppend(edges, a, init, r);
      assert (a + b)[..|a + b| - 1] == a + init;
    }
  }

  lemma ReleasedRemove(edges: seq<Edge>, a: seq<Id>, j: nat, r: Id)
    requires j < |a|
    ensures Released(edges, a, r) == Released(edges, a[..j] + a[j + 1..], r) + Get(AllocationTable(edges, a[j]), r)
  {
    assert a == (a[..j] + [a[j]]) + a[j + 1..];
    ReleasedAppend(edges, a[..j] + [a[j]], a[j + 1..], r);
    ReleasedAppend(edges, a[..j], [a[j]], r);
    ReleasedAppend(edges, a[..j], a[j + 1..], r);
    assert [a[j]][..0] == [];
  }

  /** What a repetition-free group of processes releases is at most what any
      sequence containing all of them releases. */
  lemma {:induction false} ReleasedSubset(edges: seq<Edge>, a: seq<Id>, b: seq<Id>, r: Id)
    requires Distinct(a) && SetOf(a) <= SetOf(b)
    ensures Released(edges, a, r) <= Released(edges, b, r)
    decreases |b|
  {
    if b == [] {
      DistinctCard(a);
      assert SetOf(a) == {};
    } else {
      var x := b[|b| - 1];
      var b' := b[..|b| - 1];
      assert forall y :: y in b && y != x ==> y in b';
      if x in a {
        var j :| 0 <= j < |a| && a[j] == x;
        var a' := a[..j] + a[j + 1..];
        ReleasedRemove(edges, a, j, r);
        RemoveAt(a, j);
        ReleasedSubset(edges, a', b', r);
      } else {
        ReleasedSubset(edges, a, b', r);
      }
    }
  }

  /** The first position of `s` holding an element outside `f`. */
  lemma {:induction false} FirstOutside(s: seq<Id>, f: set<Id>) returns (k: nat)
    requires exists i :: 0 <= i < |s| && s[i] !in f
    ensures k < |s| && s[k] !in f
    ensures forall i :: 0 <= i < k ==> s[i] in f
  {
    if s[0] !in f {
      k := 0;
    } else {
      var i :| 0 <= i < |s| && s[i] !in f;
      assert s[1..][i - 1] == s[i];
      var k' := FirstOutside(s[1..], f);
      k := k' + 1;
      assert forall i :: 1 <= i < k ==> s[i] == s[1..][i - 1];
    }
  }

  // ---------------------------------------------------------------------
  // Soundness and completeness of the greedy loop.

  /** The state the loop keeps: `finished` is the set of the processes done
      so far, none of them twice, each of them could finish when it was
      picked, and `work` is the initial vector plus all they released. */
  ghost predicate Reached(procs: seq<Id>, edges: seq<Edge>, initial: map<Id, int>, work: map<Id, int>, finished: set<Id>, done: seq<Id>)
  {
    && finished <= SetOf(procs)
    && finished == SetOf(done)
    && Distinct(done)
    && (forall r :: Get(work, r) == Get(initial, r) + Released(edges, done, r))
    && Feasible(edges, initial, done)
  }

  /** One pick keeps the loop's state. */
  lemma PickKeepsReached(procs: seq<Id>, edges: seq<Edge>, initial: map<Id, int>, work: map<Id, int>, finished: set<Id>, done: seq<Id>, i: nat)
    requires Reached(procs, edges, initial, work, finished, done)
    requires i < |procs| && procs[i] !in finished && CanFinish(RequestTable(edges, procs[i]), work)
    ensures var p := procs[i];
      Reached(procs, edges, initial, Release(work, AllocationTable(edges, p)), finished + {p}, done + [p])
  {
    var p := procs[i];
    var done' := done + [p];
    assert done'[..|done|] == done;
    forall k | 0 <= k < |done'| ensures FitsAfter(edges, initial, done', k) {
      if k < |done| {
        assert done'[..k] == done[..k];
        assert FitsAfter(edges, initial, done, k);
      }
    }
    assert SetOf(done') == SetOf(done) + {p};
  }

  lemma {:induction false} RunSound(procs: seq<Id>, edges: seq<Edge>, initial: map<Id, int>, work: map<Id, int>, finished: set<Id>, done: seq<Id>)
    requires Reached(procs, edges, initial, work, finished, done)
    decreases |SetOf(procs) - finished|
    ensures var res := Run(procs, edges, work, finished, done);
      res.isSafe ==>
        && Distinct(res.safeSequence)
        && multiset(res.safeSequence) == multiset(procs)
        && Feasible(edges, initial, res.safeSequence)
  {
    if |finished| >= |procs| {
      AllFinished(procs, edges, initial, work, finished, done);
    } else {
      match FirstCandidate(procs, edges, work, finished, 0)
      case None =>
      case Some(i) =>
        var p := procs[i];
        PickKeepsReached(procs, edges, initial, work, finished, done, i);
        assert SetOf(procs) - (finished + {p}) < SetOf(procs) - finished;
        RunSound(procs, edges, initial, Release(work, AllocationTable(edges, p)), finished + {p}, done + [p]);
    }
  }

  /** Once as many processes are finished as are listed, the finished ones,
      in their order, are a permutation of the list. */
  lemma AllFinished(procs: seq<Id>, edges: seq<Edge>, initial: map<Id, int>, work: map<Id, int>, finished: set<Id>, done: seq<Id>)
    requires Reached(procs, edges, initial, work, finished, done)
    requires |finished| >= |procs|
    ensures Distinct(done) && multiset(done) == multiset(procs)
  {
    assert finished <= SetOf(procs) && finished == SetOf(done);
    DistinctCard(done);
    CardSetOf(procs);
    var all := SetOf(procs);
    assert all == finished + (all - finished);
    assert finished * (all - finished) == {};
    DistinctSameSetPermutation(done, procs);
  }

  /** If a safe order exists, the greedy loop never gets stuck: the first
      process of that order that the loop has not finished yet fits the
      current work vector, because the loop has already released at least
      as much as that order had before it. */
  lemma {:induction false} RunComplete(procs: seq<Id>, edges: seq<Edge>, initial: map<Id, int>, work: map<Id, int>, finished: set<Id>, done: seq<Id>, order: seq<Id>)
    requires Reached(procs, edges, initial, work, finished, done)
    requires Distinct(procs)
    requires multiset(order) == multiset(procs) && Feasible(edges, initial, order)
    decreases |SetOf(procs) - finished|
    ensures Run(procs, edges, work, finished, done).isSafe
  {
    if |finished| < |procs| {
      match FirstCandidate(procs, edges, work, finished, 0)
      case None =>
        StuckContradiction(procs, edges, initial, work, finished, done, order);
      case Some(i) =>
        var p := procs[i];
        PickKeepsReached(procs, edges, initial, work, finished, done, i);
        assert SetOf(procs) - (finished + {p}) < SetOf(procs) - finished;
        RunComplete(procs, edges, initial, Release(work, AllocationTable(edges, p)), finished + {p}, done + [p], order);
    }
  }

  /** Some unfinished process of a feasible order fits the work vector. */
  lemma StuckContradiction(procs: seq<Id>, edges: seq<Edge>, initial: map<Id, int>, work: map<Id, int>, finished: set<Id>, done: seq<Id>, order: seq<Id>)
    requires Reached(procs, edges, initial, work, finished, done)
    requires Distinct(procs) && |finished| < |procs|
    requires multiset(order) == multiset(procs) && Feasible(edges, initial, order)
    ensures FirstCandidate(procs, edges, work, finished, 0).Some?
  {
    PermutationOfDistinct(procs, order);
    DistinctCard(procs);
    assert exists i :: 0 <= i < |order| && order[i] !in finished by {
      assert |SetOf(procs)| == |procs|;
      assert finished != SetOf(procs);
      var x :| x in SetOf(procs) && x !in finished;
      assert x in SetOf(order);
      var i :| 0 <= i < |order| && order[i] == x;
    }
    var k := FirstOutside(order, finished);
    var x := order[k];
    var prefix := order[..k];
    assert Distinct(prefix);
    assert SetOf(prefix) <= SetOf(done);
    assert FitsAfter(edges, initial, order, k);
    forall r | r in RequestTable(edges, x) ensures RequestTable(edges, x)[r] <= Get(work, r) {
      ReleasedSubset(edges, prefix, done, r);
    }
    assert CanFinish(RequestTable(edges, x), work);
    assert x in SetOf(procs);
    var j :| 0 <= j < |procs| && procs[j] == x;
  }

  // ---------------------------------------------------------------------
  // The solver's promises.

  /** A safe result lists every process exactly once, and replaying it, each
      process's requests fit the work available at its step. */
  lemma SafeResultIsSafeOrder(g: GraphState)
    ensures SafeSequenceOf(g).isSafe ==> IsSafeOrder(g, SafeSequenceOf(g).safeSequence)
  {
    var procs := ProcessIds(g.nodes);
    if procs != [] {
      RunSound(procs, g.edges, AvailableTable(g.nodes), AvailableTable(g.nodes), {}, []);
    }
  }

  /** With distinct process ids, the solver reports safe exactly when a safe
      order exists: the greedy choice never misses one. */
  lemma SafeIffSafeOrderExists(g: GraphState)
    requires Distinct(ProcessIds(g.nodes))
    ensures SafeSequenceOf(g).isSafe <==> exists order :: IsSafeOrder(g, order)
  {
    SafeResultIsSafeOrder(g);
    var procs := ProcessIds(g.nodes);
    if order :| IsSafeOrder(g, order) {
      if procs != [] {
        RunComplete(procs, g.edges, AvailableTable(g.nodes), AvailableTable(g.nodes), {}, [], order);
      }
    }
  }

  /** Two process nodes with the same id make every graph unsafe: the set of
      finished ids can never grow as large as the list of process nodes. */
  lemma DuplicateProcessIdsUnsafe(g: GraphState)
    requires !Distinct(ProcessIds(g.nodes))
    ensures !SafeSequenceOf(g).isSafe
  {
    var procs := ProcessIds(g.nodes);
    RunSound(procs, g.edges, AvailableTable(g.nodes), AvailableTable(g.nodes), {}, []);
    var res := SafeSequenceOf(g);
    if res.isSafe {
      PermutationOfDistinct(res.safeSequence, procs);
    }
  }
}
