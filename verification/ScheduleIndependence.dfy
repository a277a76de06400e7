/** If each node's own outcome is a function of the node, every schedule ends in
    the same statuses: the unique solution of a recursive specification. */
module ScheduleIndependence {
  import opened Graphs
  import opened Readiness
  import opened PlanResult
  import opened Scheduler
  import opened SchedulerInvariant
  import opened SchedulerSteps

  /** The specification: a node is Skipped if some dependency is not Success and has
      its own outcome otherwise; a node done in an earlier run keeps its record. */
  ghost predicate Solves(c: Config, outcome: NodeID -> Status, final: map<NodeID, Status>) {
    && final.Keys == c.deps.Keys
    && forall v {:trigger final[v]} :: v in c.deps ==>
         final[v] == if v in c.restored then c.restored[v]
                     else if Blocked(c, final, v) then Skipped else outcome(v)
  }

  ghost predicate Blocked(c: Config, final: map<NodeID, Status>, v: NodeID)
    requires v in c.deps
  {
    exists d :: d in c.deps[v] && d in final && !final[d].Success?
  }

  ghost predicate FollowsOutcome(acts: seq<Action>, outcome: NodeID -> Status) {
    forall i :: 0 <= i < |acts| && acts[i].Finish? ==> acts[i].status == outcome(acts[i].node)
  }

  ghost predicate Agrees(s: State, outcome: NodeID -> Status) {
    && (forall i :: 0 <= i < |s.results| ==> s.results[i].status == outcome(s.results[i].node))
    && (forall v :: v in s.reported ==> v in s.status && s.status[v] == outcome(v))
  }

  lemma ReceiveAgrees(c: Config, s: State, outcome: NodeID -> Status, saved: bool)
    requires Inv(c, s) && s.results != [] && Agrees(s, outcome)
    ensures Agrees(Receive(c, s, saved), outcome)
  {
    ReceiveFacts(c, s);
  }

  /** The cascade changes no node that has reported. */
  lemma SpreadAgrees(c: Config, s: State, outcome: NodeID -> Status, r: Report)
    requires Inverts(c.deps, c.dependents) && Shape(c, s) && r.node in c.deps && Agrees(s, outcome)
    requires forall v :: v in s.reported ==> v in s.status && !s.status[v].Pending?
    ensures Agrees(Spread(c, s, r), outcome)
  {
    CascadeFrame(c.dependents, s.status, c.dependents[r.node]);
  }

  lemma ReceiveSettles(c: Config, s: State, saved: bool)
    requires Inv(c, s) && s.results != []
    ensures var s1 := Receive(c, s, saved); forall v :: v in s1.reported ==> v in s1.status && !s1.status[v].Pending?
  {
    ReceiveFacts(c, s);
    Settles(c, s.status, s.reported, s.results[0]);
  }

  lemma Settles(c: Config, status: map<NodeID, Status>, reported: multiset<NodeID>, r: Report)
    requires StatusExact(c, status, reported) && r.node in c.deps && IsReport(r.status)
    requires forall v :: v in reported ==> v in c.deps
    ensures forall v :: v in reported + multiset{r.node} ==>
              v in status[r.node := r.status] && !status[r.node := r.status][v].Pending?
  {
    forall v | v in reported ensures v in status && !status[v].Pending? {
      assert v in c.deps && IsReport(status[v]);
    }
  }

  lemma CoordinateAgrees(c: Config, s: State, outcome: NodeID -> Status, saved: bool)
    requires Inverts(c.deps, c.dependents) && Inv(c, s) && s.results != [] && Agrees(s, outcome)
    ensures Agrees(Spread(c, Receive(c, s, saved), s.results[0]), outcome)
  {
    ReceiveAgrees(c, s, outcome, saved);
    ReceiveSettles(c, s, saved);
    SpreadAgrees(c, Receive(c, s, saved), outcome, s.results[0]);
  }

  lemma WorkerAgrees(c: Config, s: State, a: Action, outcome: NodeID -> Status)
    requires Inverts(c.deps, c.dependents) && Shape(c, s) && Enabled(c, s, a) && Agrees(s, outcome)
    requires a.Take? || (a.Finish? && a.status == outcome(a.node))
    ensures Agrees(Apply(c, s, a), outcome)
  {
  }

  lemma StepAgrees(c: Config, s: State, a: Action, outcome: NodeID -> Status)
    requires ValidConfig(c) && Inv(c, s) && Enabled(c, s, a) && Agrees(s, outcome)
    requires a.Finish? ==> a.status == outcome(a.node)
    ensures Agrees(Apply(c, s, a), outcome)
  {
    if a.Coordinate? {
      CoordinateAgrees(c, s, outcome, a.saved);
    } else {
      WorkerAgrees(c, s, a, outcome);
    }
  }

  lemma {:induction false} RunAgrees(c: Config, s: State, acts: seq<Action>, outcome: NodeID -> Status)
    requires ValidConfig(c) && Inv(c, s) && Schedule(c, s, acts)
    requires Agrees(s, outcome) && FollowsOutcome(acts, outcome)
    ensures Agrees(After(c, s, acts), outcome)
    decreases |acts|
  {
    if acts != [] {
      StepAgrees(c, s, acts[0], outcome);
      StepInv(c, s, acts[0]);
      assert FollowsOutcome(acts[1..], outcome);
      RunAgrees(c, Apply(c, s, acts[0]), acts[1..], outcome);
    }
  }

  lemma BadBlocks(c: Config, s: State, v: NodeID)
    requires s.status.Keys == c.deps.Keys && v in c.deps
    requires HasBadDep(c, s.status, s.reported, v)
    ensures Blocked(c, s.status, v)
  {
    var d :| d in c.deps[v] && Bad(c, s.status, s.reported, d);
    assert !s.status[d].Success?;
  }

  lemma CompletedNode(c: Config, s: State, outcome: NodeID -> Status, v: NodeID)
    requires ValidConfig(c) && Inv(c, s) && Agrees(s, outcome)
    requires PendingSet(s.status) == {} && FailedIn(c.restored) == {}
    requires v in c.deps
    ensures s.status[v] == if v in c.restored then c.restored[v]
                           else if Blocked(c, s.status, v) then Skipped else outcome(v)
  {
    if v in s.reported {
      assert v in s.dispatched;
      DispatchedFacts(c, s, v);
      assert v !in FailedIn(c.restored);
      assert !Blocked(c, s.status, v);
    } else if v !in c.restored {
      assert v !in PendingSet(s.status);
      assert HasBadDep(c, s.status, s.reported, v);
      BadBlocks(c, s, v);
    }
  }

  /** A run that left its loop has computed a solution of the specification. */
  lemma CompletedSolves(c: Config, s: State, outcome: NodeID -> Status)
    requires ValidConfig(c) && Inv(c, s) && Agrees(s, outcome)
    requires s.processed >= |c.deps|
    ensures Solves(c, outcome, s.status)
  {
    assert PendingSet(s.status) == {} && FailedIn(c.restored) == {};
    forall v | v in c.deps
      ensures s.status[v] == if v in c.restored then c.restored[v]
                             else if Blocked(c, s.status, v) then Skipped else outcome(v)
    {
      CompletedNode(c, s, outcome, v);
    }
  }

  lemma {:induction false} SolutionsAgreeAt(c: Config, rank: map<NodeID, nat>, outcome: NodeID -> Status,
                                            f: map<NodeID, Status>, g: map<NodeID, Status>, v: NodeID)
    requires Ranks(c.deps, rank) && Closed(c.deps) && v in c.deps
    requires Solves(c, outcome, f) && Solves(c, outcome, g)
    ensures f[v] == g[v]
    decreases rank[v]
  {
    forall d | d in c.deps[v] ensures f[d] == g[d] {
      SolutionsAgreeAt(c, rank, outcome, f, g, d);
    }
    assert Blocked(c, f, v) == Blocked(c, g, v);
  }

  /** On an acyclic graph the specification has one solution. */
  lemma SolutionUnique(c: Config, outcome: NodeID -> Status, f: map<NodeID, Status>, g: map<NodeID, Status>)
    requires ValidConfig(c) && Solves(c, outcome, f) && Solves(c, outcome, g)
    ensures f == g
  {
    var rank :| Ranks(c.deps, rank);
    forall v | v in c.deps ensures f[v] == g[v] {
      SolutionsAgreeAt(c, rank, outcome, f, g, v);
    }
  }

  /** `s` is where some schedule that follows `outcome` leaves the loop. */
  ghost predicate EndsIn(c: Config, outcome: NodeID -> Status, s: State)
    requires ValidConfig(c)
  {
    exists s0, acts ::
      Init(c, s0) && Shape(c, s0) && Schedule(c, s0, acts) && FollowsOutcome(acts, outcome)
      && s == After(c, s0, acts) && s.processed >= |c.deps|
  }

  lemma EndSolves(c: Config, outcome: NodeID -> Status, s: State)
    requires ValidConfig(c) && EndsIn(c, outcome, s)
    ensures Solves(c, outcome, s.status)
  {
    var s0, acts :| Init(c, s0) && Shape(c, s0) && Schedule(c, s0, acts) && FollowsOutcome(acts, outcome)
                    && s == After(c, s0, acts) && s.processed >= |c.deps|;
    InitInv(c, s0);
    RunInv(c, s0, acts);
    RunAgrees(c, s0, acts, outcome);
    CompletedSolves(c, s, outcome);
  }

  /** Schedule independence: two executions of the same graph with the same node
      outcomes end in the same statuses, however their steps interleave and in
      whatever order the maps were visited. */
  lemma SchedulesAgree(c: Config, c': Config, outcome: NodeID -> Status, s: State, s': State)
    requires ValidConfig(c) && ValidConfig(c') && c.deps == c'.deps && c.restored == c'.restored
    requires EndsIn(c, outcome, s) && EndsIn(c', outcome, s')
    ensures s.status == s'.status
  {
    EndSolves(c, outcome, s);
    EndSolves(c', outcome, s');
    SolvesIgnoresOrder(c', c, outcome, s'.status);
    SolutionUnique(c, outcome, s.status, s'.status);
  }

  /** The specification depends on the graph and the restored records only. */
  lemma SolvesIgnoresOrder(c: Config, c': Config, outcome: NodeID -> Status, final: map<NodeID, Status>)
    requires c.deps == c'.deps && c.restored == c'.restored && Solves(c, outcome, final)
    ensures Solves(c', outcome, final)
  {
    forall v | v in c.deps ensures Blocked(c', final, v) == Blocked(c, final, v) {
    }
  }

  /** A node below a node that did not succeed is skipped, at any distance, in fresh and in
      resumed runs. */
  lemma {:induction false} FailureReachesAll(c: Config, rank: map<NodeID, nat>, outcome: NodeID -> Status,
                                             final: map<NodeID, Status>, v: NodeID, a: NodeID)
    requires Ranks(c.deps, rank) && Closed(c.deps) && Solves(c, outcome, final) && Justified(c.deps, c.restored)
    requires v in c.deps && a in c.deps && DependsOn(c.deps, v, a) && !final[a].Success?
    ensures final[v].Skipped?
    decreases rank[v]
  {
    var m := DependsOnCases(c.deps, v, a);
    if m != a {
      FailureReachesAll(c, rank, outcome, final, m, a);
    }
    assert m in final && !final[m].Success?;
    assert v !in c.restored;
    assert Blocked(c, final, v);
  }
}
