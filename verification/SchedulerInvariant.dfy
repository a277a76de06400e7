/** What every step of the executor keeps, whatever the interleaving, the node
    outcomes and the checkpoint the run was started from. */
module SchedulerInvariant {
  import opened Sequences
  import opened Wrappers
  import opened Graphs
  import opened Readiness
  import opened PlanResult
  import opened Scheduler

  function ResultNodes(results: seq<Report>): multiset<NodeID> {
    if results == [] then multiset{} else multiset{results[0].node} + ResultNodes(results[1..])
  }

  /** Conservation: a dispatched node is queued, running, waiting or reported. */
  ghost predicate Conserved(tasks: seq<NodeID>, running: multiset<NodeID>, results: seq<Report>,
                            reported: multiset<NodeID>, dispatched: multiset<NodeID>)
  {
    dispatched == multiset(tasks) + running + ResultNodes(results) + reported
  }

  ghost predicate SucceededExact(c: Config, status: map<NodeID, Status>, reported: multiset<NodeID>,
                                 succeeded: set<NodeID>) {
    && status.Keys == c.deps.Keys
    && (forall v :: v in reported ==> v in c.deps)
    && (forall v :: v in succeeded <==> v in reported && status[v].Success?)
  }

  /** A node whose failure or skip was seen in this run. */
  ghost predicate Bad(c: Config, status: map<NodeID, Status>, reported: multiset<NodeID>, d: NodeID) {
    && d in status && (status[d].Failed? || status[d].Skipped?)
    && (d in reported || d !in c.restored)
  }

  ghost predicate HasBadDep(c: Config, status: map<NodeID, Status>, reported: multiset<NodeID>, v: NodeID)
    requires v in c.deps
  {
    exists d :: d in c.deps[v] && Bad(c, status, reported, d)
  }

  /** Every status is accounted for: reported in this run, restored from the
      checkpoint, or Skipped exactly when a dependency failed or was skipped. */
  ghost predicate StatusExact(c: Config, status: map<NodeID, Status>, reported: multiset<NodeID>) {
    && status.Keys == c.deps.Keys
    && (forall v :: v in c.deps && v in reported ==> IsReport(status[v]))
    && (forall v :: v in c.deps && v !in reported && v in c.restored ==> status[v] == c.restored[v])
    && (forall v {:trigger HasBadDep(c, status, reported, v)} ::
          v in c.deps && v !in reported && v !in c.restored ==>
            status[v] == if HasBadDep(c, status, reported, v) then Skipped else Pending)
  }

  function FailedIn(states: NodeStates): set<NodeID> {
    set v | v in states && states[v].Failed?
  }

  /** The progress counter is short of the node count by the pending nodes and by
      the nodes restored as Failed, which are never counted. */
  ghost predicate CountExact(c: Config, processed: nat, status: map<NodeID, Status>) {
    processed + |PendingSet(status)| + |FailedIn(c.restored)| == |c.deps|
  }

  ghost predicate ReportsValid(results: seq<Report>) {
    forall i :: 0 <= i < |results| ==> IsReport(results[i].status)
  }

  /** The checkpoint in memory holds what was restored, overlaid with what was reported. */
  ghost predicate MemoryExact(c: Config, memory: Option<NodeStates>, status: map<NodeID, Status>,
                              reported: multiset<NodeID>) {
    && status.Keys == c.deps.Keys
    && (memory.Some? <==> c.checkpointing)
    && (memory.Some? ==>
          && (forall v :: v in memory.value <==> v in c.deps && (v in reported || v in c.restored))
          && (forall v :: v in memory.value ==>
                memory.value[v] == if v in reported then status[v] else c.restored[v]))
  }

  ghost predicate Inv(c: Config, s: State) {
    && Shape(c, s)
    && Conserved(s.tasks, s.running, s.results, s.reported, s.dispatched)
    && DispatchedWhenReady(c.deps, DoneIn(c.restored), s.dispatched, s.succeeded)
    && DegreesExact(c.deps, s.inDegree, s.succeeded)
    && SucceededExact(c, s.status, s.reported, s.succeeded)
    && StatusExact(c, s.status, s.reported)
    && CountExact(c, s.processed, s.status)
    && ReportsValid(s.results)
    && MemoryExact(c, s.memory, s.status, s.reported)
  }

  // ----- Consequences -----------------------------------------------------------

  lemma {:induction false} ResultNodesMember(results: seq<Report>, i: nat)
    requires i < |results|
    ensures results[i].node in ResultNodes(results)
  {
    if i > 0 {
      ResultNodesMember(results[1..], i - 1);
    }
  }

  lemma {:induction false} ResultNodesAppend(results: seq<Report>, r: Report)
    ensures ResultNodes(results + [r]) == ResultNodes(results) + multiset{r.node}
  {
    if results == [] {
      assert results + [r] == [r];
    } else {
      ResultNodesAppend(results[1..], r);
      assert (results + [r])[1..] == results[1..] + [r];
    }
  }

  /** A dispatched node has seen every dependency succeed in this run, is not done
      from an earlier run, and has been dispatched once. */
  lemma DispatchedFacts(c: Config, s: State, v: NodeID)
    requires DispatchedWhenReady(c.deps, DoneIn(c.restored), s.dispatched, s.succeeded) && v in s.dispatched
    ensures v in c.deps && v !in DoneIn(c.restored) && s.dispatched[v] == 1
    ensures forall d :: d in c.deps[v] ==> d in s.succeeded
  {
    assert v in c.deps;
  }

  /** A node in flight has not reported, and is not done from an earlier run. */
  lemma InFlightFacts(c: Config, s: State, v: NodeID)
    requires Conserved(s.tasks, s.running, s.results, s.reported, s.dispatched)
    requires DispatchedWhenReady(c.deps, DoneIn(c.restored), s.dispatched, s.succeeded)
    requires SucceededExact(c, s.status, s.reported, s.succeeded)
    requires v in multiset(s.tasks) + s.running + ResultNodes(s.results)
    ensures v in c.deps && v in s.dispatched && v !in s.reported && v !in s.succeeded
  {
    assert v in s.dispatched;
    DispatchedFacts(c, s, v);
  }

  lemma NoBadDepWhenReady(c: Config, s: State, v: NodeID)
    requires SucceededExact(c, s.status, s.reported, s.succeeded) && v in c.deps
    requires forall d :: d in c.deps[v] ==> d in s.succeeded
    ensures !HasBadDep(c, s.status, s.reported, v)
  {
  }

  // ----- Initial state ----------------------------------------------------------

  lemma {:induction false} DistinctMultiset(t: seq<NodeID>, v: NodeID)
    requires Distinct(t)
    ensures multiset(t)[v] == if v in t then 1 else 0
  {
    if t != [] {
      var last := t[|t| - 1];
      assert t == t[..|t| - 1] + [last];
      DistinctMultiset(t[..|t| - 1], v);
      assert v in t <==> v in t[..|t| - 1] || v == last;
    }
  }

  lemma RestoredCounts(restored: NodeStates)
    requires forall v :: v in restored ==> IsReport(restored[v])
    ensures |DoneIn(restored)| + |FailedIn(restored)| == |restored.Keys|
  {
    assert DoneIn(restored) + FailedIn(restored) == restored.Keys;
    DisjointSize(DoneIn(restored), FailedIn(restored));
  }

  lemma PendingCounts(deps: Deps, restored: NodeStates, status: map<NodeID, Status>)
    requires restored.Keys <= deps.Keys && status.Keys == deps.Keys
    requires forall v :: v in status ==> (status[v].Pending? <==> v !in restored)
    ensures |PendingSet(status)| + |restored.Keys| == |deps|
  {
    assert PendingSet(status) + restored.Keys == deps.Keys;
    DisjointSize(PendingSet(status), restored.Keys);
  }

  lemma DisjointSize<T>(a: set<T>, b: set<T>)
    requires a !! b
    ensures |a + b| == |a| + |b|
  {
  }

  lemma InitDispatch(c: Config, s: State)
    requires Init(c, s)
    ensures DispatchedWhenReady(c.deps, DoneIn(c.restored), s.dispatched, s.succeeded)
  {
    forall v | v in c.deps
      ensures s.dispatched[v] == Turns(c.deps, DoneIn(c.restored), {}, v)
    {
      OutstandingNone(c.deps[v]);
      DistinctMultiset(s.tasks, v);
    }
  }

  lemma InitDegrees(c: Config, s: State)
    requires Init(c, s)
    ensures DegreesExact(c.deps, s.inDegree, s.succeeded)
  {
    forall v | v in c.deps ensures Outstanding(c.deps[v], {}) == |c.deps[v]| {
      OutstandingNone(c.deps[v]);
    }
  }

  lemma InitCount(c: Config, s: State)
    requires Justified(c.deps, c.restored) && Init(c, s)
    ensures CountExact(c, s.processed, s.status)
  {
    RestoredCounts(c.restored);
    PendingCounts(c.deps, c.restored, s.status);
  }

  lemma InitStatuses(c: Config, s: State)
    requires Justified(c.deps, c.restored) && Init(c, s)
    ensures SucceededExact(c, s.status, s.reported, s.succeeded) && StatusExact(c, s.status, s.reported)
  {
  }

  lemma InitMemory(c: Config, s: State)
    requires Justified(c.deps, c.restored) && Init(c, s)
    ensures MemoryExact(c, s.memory, s.status, s.reported)
  {
  }

  lemma InitInv(c: Config, s: State)
    requires ValidConfig(c) && Init(c, s)
    ensures Inv(c, s)
  {
    InitDispatch(c, s);
    InitDegrees(c, s);
    InitStatuses(c, s);
    InitMemory(c, s);
    InitCount(c, s);
  }
}
