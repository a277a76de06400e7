/** Whole-run results for one execution: termination, bounds, quiescence, dependency order,
    progress, and exactly when a resumed run completes. */
module SchedulerTheorems {
  import opened Sequences
  import opened Wrappers
  import opened Graphs
  import opened Readiness
  import opened PlanResult
  import opened Scheduler
  import opened SchedulerInvariant
  import opened SchedulerSteps

  /** `s` is reached from the start of a run under some schedule. */
  ghost predicate Reachable(c: Config, s: State)
    requires Inverts(c.deps, c.dependents)
  {
    exists s0, acts ::
      Init(c, s0) && Shape(c, s0) && Schedule(c, s0, acts) && s == After(c, s0, acts)
  }

  lemma ReachableInv(c: Config, s: State)
    requires ValidConfig(c) && Reachable(c, s)
    ensures Inv(c, s)
  {
    var s0, acts :| Init(c, s0) && Shape(c, s0) && Schedule(c, s0, acts) && s == After(c, s0, acts);
    InitInv(c, s0);
    RunInv(c, s0, acts);
  }

  lemma ReachableStart(c: Config, s: State)
    requires Inverts(c.deps, c.dependents) && Init(c, s) && Shape(c, s)
    ensures Reachable(c, s)
  {
    assert Schedule(c, s, []) && s == After(c, s, []);
  }

  lemma ScheduleCons(c: Config, s: State, b: Action, rest: seq<Action>)
    requires Inverts(c.deps, c.dependents) && Shape(c, s) && Enabled(c, s, b)
    requires Schedule(c, Apply(c, s, b), rest)
    ensures Schedule(c, s, [b] + rest) && After(c, s, [b] + rest) == After(c, Apply(c, s, b), rest)
  {
    assert ([b] + rest)[1..] == rest;
  }

  lemma {:induction false} ScheduleMore(c: Config, s: State, acts: seq<Action>, a: Action)
    requires Inverts(c.deps, c.dependents) && Shape(c, s) && Schedule(c, s, acts)
    requires Enabled(c, After(c, s, acts), a)
    ensures Schedule(c, s, acts + [a]) && After(c, s, acts + [a]) == Apply(c, After(c, s, acts), a)
    decreases |acts|
  {
    if acts == [] {
      ScheduleCons(c, s, a, []);
      assert acts + [a] == [a] + [];
    } else {
      var first, rest := acts[0], acts[1..];
      ScheduleMore(c, Apply(c, s, first), rest, a);
      ScheduleCons(c, s, first, rest + [a]);
      AppendToHead(acts, a);
    }
  }

  lemma ReachedBy(c: Config, s0: State, acts: seq<Action>)
    requires Inverts(c.deps, c.dependents) && Init(c, s0) && Shape(c, s0) && Schedule(c, s0, acts)
    ensures Reachable(c, After(c, s0, acts))
  {
  }

  /** What an action makes of a reachable state is reachable. */
  lemma ReachableStep(c: Config, s: State, a: Action)
    requires Inverts(c.deps, c.dependents) && Shape(c, s) && Reachable(c, s) && Enabled(c, s, a)
    ensures Reachable(c, Apply(c, s, a))
  {
    var s0, acts :| Init(c, s0) && Shape(c, s0) && Schedule(c, s0, acts) && s == After(c, s0, acts);
    ScheduleMore(c, s0, acts, a);
    ReachedBy(c, s0, acts + [a]);
  }

  // ----- Termination and bounds ---------------------------------------------------

  /** How far a run has come: every action adds exactly one. */
  ghost function Work(s: State): nat {
    |s.running| + 2 * |s.results| + 3 * |s.reported|
  }

  lemma {:induction false} AtMostOnceFits(m: multiset<NodeID>, keys: set<NodeID>)
    requires forall v :: v in m ==> v in keys && m[v] == 1
    ensures |m| <= |keys|
  {
    if m != multiset{} {
      var v :| v in m;
      var rest := m[v := 0];
      assert rest == m - multiset{v};
      AtMostOnceFits(rest, keys - {v});
    }
  }

  lemma {:induction false} ResultNodesSize(results: seq<Report>)
    ensures |ResultNodes(results)| == |results|
  {
    if results != [] {
      ResultNodesSize(results[1..]);
    }
  }

  /** No more nodes are queued, running, waiting or reported than the graph has, so
      neither channel, each of capacity |deps|, ever blocks a sender. */
  lemma ChannelBounds(c: Config, s: State)
    requires Conserved(s.tasks, s.running, s.results, s.reported, s.dispatched)
    requires DispatchedWhenReady(c.deps, DoneIn(c.restored), s.dispatched, s.succeeded)
    ensures |s.tasks| + |s.running| + |s.results| + |s.reported| <= |c.deps|
  {
    forall v | v in s.dispatched ensures v in c.deps.Keys && s.dispatched[v] == 1 {
      DispatchedFacts(c, s, v);
    }
    AtMostOnceFits(s.dispatched, c.deps.Keys);
    ResultNodesSize(s.results);
    assert |c.deps.Keys| == |c.deps|;
  }

  lemma StepWork(c: Config, s: State, a: Action)
    requires Inverts(c.deps, c.dependents) && Shape(c, s) && Enabled(c, s, a)
    ensures Work(Apply(c, s, a)) == Work(s) + 1
  {
    if a.Coordinate? {
      CoordinateWork(c, s, a.saved);
    }
  }

  lemma CoordinateWork(c: Config, s: State, saved: bool)
    requires Inverts(c.deps, c.dependents) && Shape(c, s) && s.results != []
    ensures Work(Spread(c, Receive(c, s, saved), s.results[0])) == Work(s) + 1
  {
  }

  lemma {:induction false} RunWork(c: Config, s: State, acts: seq<Action>)
    requires Inverts(c.deps, c.dependents) && Shape(c, s) && Schedule(c, s, acts)
    ensures Work(After(c, s, acts)) == Work(s) + |acts|
    decreases |acts|
  {
    if acts != [] {
      StepWork(c, s, acts[0]);
      RunWork(c, Apply(c, s, acts[0]), acts[1..]);
    }
  }

  /** Termination: no schedule, fresh or resumed, is longer than three steps a node. */
  lemma RunsAreShort(c: Config, s0: State, acts: seq<Action>)
    requires ValidConfig(c) && Init(c, s0) && Shape(c, s0) && Schedule(c, s0, acts)
    ensures |acts| <= 3 * |c.deps|
  {
    InitInv(c, s0);
    RunInv(c, s0, acts);
    RunWork(c, s0, acts);
    ChannelBounds(c, After(c, s0, acts));
  }

  // ----- Workers and channels -----------------------------------------------------

  lemma StepWorkers(c: Config, s: State, a: Action)
    requires Inverts(c.deps, c.dependents) && Shape(c, s) && Enabled(c, s, a) && |s.running| <= WORKERS
    ensures |Apply(c, s, a).running| <= WORKERS
  {
  }

  lemma {:induction false} RunWorkers(c: Config, s: State, acts: seq<Action>)
    requires Inverts(c.deps, c.dependents) && Shape(c, s) && Schedule(c, s, acts) && |s.running| <= WORKERS
    ensures |After(c, s, acts).running| <= WORKERS
    decreases |acts|
  {
    if acts != [] {
      AfterFirst(c, s, acts);
      StepWorkers(c, s, acts[0]);
      RunWorkers(c, Apply(c, s, acts[0]), acts[1..]);
    }
  }

  /** At most ten steps ever run at the same time, and a queued node waits only for one of ten. */
  lemma TenWorkers(c: Config, s: State)
    requires ValidConfig(c) && Reachable(c, s)
    ensures |s.running| <= 10
    ensures s.tasks != [] ==> (Enabled(c, s, Take) <==> |s.running| < 10)
  {
    var s0, acts :| Init(c, s0) && Shape(c, s0) && Schedule(c, s0, acts) && s == After(c, s0, acts);
    RunWorkers(c, s0, acts);
  }

  function TakeCount(acts: seq<Action>): nat {
    if acts == [] then 0 else (if acts[0].Take? then 1 else 0) + TakeCount(acts[1..])
  }

  function ReadCount(acts: seq<Action>): nat {
    if acts == [] then 0 else (if acts[0].Coordinate? then 1 else 0) + ReadCount(acts[1..])
  }

  /** The reports the workers send, in order. */
  function Sent(acts: seq<Action>): seq<Report> {
    if acts == [] then []
    else ReportOf(acts[0]) + Sent(acts[1..])
  }

  /** What is in a channel: what was in it and what was sent since, in order, without the first
      ones, as many as were received. */
  predicate Fifo<T(==)>(before: seq<T>, sent: seq<T>, received: nat, after: seq<T>) {
    received <= |before + sent| && after == (before + sent)[received..]
  }

  /** One more turn at the front: something is received, or `now` is sent. */
  lemma FifoTurn<T>(receives: bool, before: seq<T>, next: seq<T>, now: seq<T>, later: seq<T>, n: nat, after: seq<T>)
    requires if receives then before != [] && next == before[1..] && now == [] else next == before + now
    requires Fifo(next, later, n, after)
    ensures Fifo(before, now + later, if receives then n + 1 else n, after)
  {
    if receives {
      assert before + (now + later) == [before[0]] + (next + later);
    } else {
      assert before + (now + later) == next + later;
    }
  }

  /** The nodes an action sends to the workers. */
  lemma StepSends(c: Config, s: State, a: Action) returns (now: seq<NodeID>)
    requires Inverts(c.deps, c.dependents) && Shape(c, s) && Enabled(c, s, a)
    ensures var next := Apply(c, s, a).tasks;
            if a.Take? then s.tasks != [] && next == s.tasks[1..] && now == [] else next == s.tasks + now
    ensures Apply(c, s, a).dispatched == s.dispatched + multiset(now)
  {
    now := [];
    if a.Coordinate? {
      now := CoordinateSends(c, s, a.saved);
    }
  }

  function ReportOf(a: Action): seq<Report> {
    if a.Finish? then [Report(a.node, a.status)] else []
  }

  lemma StepReports(c: Config, s: State, a: Action)
    requires Inverts(c.deps, c.dependents) && Shape(c, s) && Enabled(c, s, a)
    ensures var next, now := Apply(c, s, a).results, ReportOf(a);
            if a.Coordinate? then s.results != [] && next == s.results[1..] && now == []
            else next == s.results + now
  {
    if a.Coordinate? {
      var _ := CoordinateSends(c, s, a.saved);
    }
  }

  lemma AfterFirst(c: Config, s: State, acts: seq<Action>)
    requires Inverts(c.deps, c.dependents) && Shape(c, s) && Schedule(c, s, acts) && acts != []
    ensures Enabled(c, s, acts[0]) && Schedule(c, Apply(c, s, acts[0]), acts[1..])
    ensures After(c, s, acts) == After(c, Apply(c, s, acts[0]), acts[1..])
  {
  }

  lemma TasksTurn(c: Config, s: State, a: Action, later: seq<NodeID>, n: nat, end: State) returns (sent: seq<NodeID>)
    requires Inverts(c.deps, c.dependents) && Shape(c, s) && Enabled(c, s, a)
    requires Fifo(Apply(c, s, a).tasks, later, n, end.tasks)
    requires end.dispatched == Apply(c, s, a).dispatched + multiset(later)
    ensures Fifo(s.tasks, sent, if a.Take? then n + 1 else n, end.tasks)
    ensures end.dispatched == s.dispatched + multiset(sent)
  {
    var now := StepSends(c, s, a);
    FifoTurn(a.Take?, s.tasks, Apply(c, s, a).tasks, now, later, n, end.tasks);
    sent := now + later;
  }

  lemma ReportsTurn(c: Config, s: State, a: Action, later: seq<Report>, n: nat, end: seq<Report>)
    requires Inverts(c.deps, c.dependents) && Shape(c, s) && Enabled(c, s, a)
    requires Fifo(Apply(c, s, a).results, later, n, end)
    ensures Fifo(s.results, ReportOf(a) + later, if a.Coordinate? then n + 1 else n, end)
  {
    StepReports(c, s, a);
    FifoTurn(a.Coordinate?, s.results, Apply(c, s, a).results, ReportOf(a), later, n, end);
  }

  /** Both channels are first in, first out: workers take the nodes in the order in which they
      were dispatched ... */
  lemma {:induction false} TasksAreFifo(c: Config, s: State, acts: seq<Action>, end: State) returns (sent: seq<NodeID>)
    requires Inverts(c.deps, c.dependents) && Shape(c, s) && Schedule(c, s, acts) && end == After(c, s, acts)
    ensures Fifo(s.tasks, sent, TakeCount(acts), end.tasks)
    ensures end.dispatched == s.dispatched + multiset(sent)
    decreases |acts|
  {
    if acts == [] {
      sent := [];
      assert s.tasks + sent == s.tasks && s.dispatched + multiset(sent) == s.dispatched;
    } else {
      AfterFirst(c, s, acts);
      var later := TasksAreFifo(c, Apply(c, s, acts[0]), acts[1..], end);
      sent := TasksTurn(c, s, acts[0], later, TakeCount(acts[1..]), end);
    }
  }

  /** ... and the coordinator reads the reports in the order in which they were sent. */
  lemma {:induction false} ReportsAreFifo(c: Config, s: State, acts: seq<Action>, end: State)
    requires Inverts(c.deps, c.dependents) && Shape(c, s) && Schedule(c, s, acts) && end == After(c, s, acts)
    ensures Fifo(s.results, Sent(acts), ReadCount(acts), end.results)
    decreases |acts|
  {
    if acts != [] {
      AfterFirst(c, s, acts);
      ReportsAreFifo(c, Apply(c, s, acts[0]), acts[1..], end);
      ReportsTurn(c, s, acts[0], Sent(acts[1..]), ReadCount(acts[1..]), end.results);
    }
  }

  lemma CoordinateSends(c: Config, s: State, saved: bool) returns (now: seq<NodeID>)
    requires Inverts(c.deps, c.dependents) && Shape(c, s) && Enabled(c, s, Coordinate(saved))
    ensures var t := Apply(c, s, Coordinate(saved));
            t.tasks == s.tasks + now && t.dispatched == s.dispatched + multiset(now) && t.results == s.results[1..]
  {
    var r := s.results[0];
    now := if r.status.Failed? || r.status.Skipped? then [] else Credit(s.inDegree, c.dependents[r.node]).1;
  }

  // ----- Dispatch order -----------------------------------------------------------

  /** Every direct or transitive dependency of a dispatched node has reported
      Success in this run. */
  lemma {:induction false} AncestorsSucceeded(c: Config, s: State, rank: map<NodeID, nat>, v: NodeID, a: NodeID)
    requires Ranks(c.deps, rank) && Closed(c.deps)
    requires DispatchedWhenReady(c.deps, DoneIn(c.restored), s.dispatched, s.succeeded)
    requires forall d :: d in s.succeeded ==> d in s.dispatched
    requires v in s.dispatched && v in c.deps && DependsOn(c.deps, v, a)
    ensures a in s.succeeded
    decreases rank[v]
  {
    var m := DependsOnCases(c.deps, v, a);
    DispatchedFacts(c, s, v);
    if m != a {
      AncestorsSucceeded(c, s, rank, m, a);
    }
  }

  lemma SucceededWereDispatched(c: Config, s: State)
    requires Inv(c, s)
    ensures forall d :: d in s.succeeded ==> d in s.dispatched
  {
  }

  /** Exactly-once, dependency-respecting dispatch. */
  lemma DispatchOnceInOrder(c: Config, s: State, v: NodeID)
    requires ValidConfig(c) && Reachable(c, s) && v in s.dispatched
    ensures s.dispatched[v] == 1 && v in c.deps && v !in DoneIn(c.restored)
    ensures forall a :: DependsOn(c.deps, v, a) ==> a in s.succeeded && a in s.status && s.status[a].Success?
    ensures v !in s.reported && v !in c.restored ==> s.status[v].Pending?
  {
    ReachableInv(c, s);
    DispatchedFacts(c, s, v);
    SucceededWereDispatched(c, s);
    var rank :| Ranks(c.deps, rank);
    forall a | DependsOn(c.deps, v, a) ensures a in s.succeeded {
      AncestorsSucceeded(c, s, rank, v, a);
    }
    NoBadDepWhenReady(c, s, v);
  }

  /** Who waits for a node that failed or was skipped in this run has not reported ... */
  lemma BadIsNotReportedPast(c: Config, s: State, d: NodeID, v: NodeID)
    requires Inv(c, s) && v in c.deps && d in c.deps[v] && Bad(c, s.status, s.reported, d)
    ensures v !in s.reported
  {
    if v in s.reported {
      assert v in s.dispatched;
      DispatchedFacts(c, s, v);
    }
  }

  /** ... and is not restored: a restored node's dependencies were done before. */
  lemma BadIsNotRestoredPast(c: Config, s: State, d: NodeID, v: NodeID)
    requires Justified(c.deps, c.restored) && v in c.deps && d in c.deps[v] && Bad(c, s.status, s.reported, d)
    requires d in s.reported ==> d !in DoneIn(c.restored)
    ensures v !in c.restored
  {
  }

  lemma ReportedIsNew(c: Config, s: State, d: NodeID)
    requires Inv(c, s) && d in s.reported
    ensures d !in DoneIn(c.restored)
  {
    assert d in s.dispatched;
    DispatchedFacts(c, s, d);
  }

  /** The nodes that failed or were skipped in a run, fresh or resumed, are closed under
      dependents. */
  lemma CascadeClosure(c: Config, s: State, d: NodeID, v: NodeID)
    requires ValidConfig(c) && Reachable(c, s)
    requires v in c.deps && d in c.deps[v] && Bad(c, s.status, s.reported, d)
    ensures s.status[v].Skipped?
  {
    ReachableInv(c, s);
    BadIsNotReportedPast(c, s, d, v);
    if d in s.reported {
      ReportedIsNew(c, s, d);
    }
    BadIsNotRestoredPast(c, s, d, v);
    assert HasBadDep(c, s.status, s.reported, v);
  }

  // ----- Quiescence ---------------------------------------------------------------

  /** A node in flight keeps the loop going: it is pending, or it was restored as
      Failed and is missing from the count for good. */
  lemma InFlightUncounted(c: Config, s: State, v: NodeID)
    requires ValidConfig(c) && Inv(c, s)
    requires v in multiset(s.tasks) + s.running + ResultNodes(s.results)
    ensures s.processed < |c.deps|
  {
    InFlightFacts(c, s, v);
    DispatchedFacts(c, s, v);
    NoBadDepWhenReady(c, s, v);
    if v in c.restored {
      assert v in FailedIn(c.restored);
    } else {
      assert v in PendingSet(s.status);
    }
  }

  lemma NothingInFlight(c: Config, s: State)
    requires ValidConfig(c) && Inv(c, s) && s.processed >= |c.deps|
    ensures s.tasks == [] && s.running == multiset{} && ResultNodes(s.results) == multiset{}
  {
    assert s.tasks != [] ==> s.tasks[0] in multiset(s.tasks);
    if v :| v in multiset(s.tasks) + s.running + ResultNodes(s.results) {
      InFlightUncounted(c, s, v);
    }
  }

  /** When the loop exits nothing is queued, running or unreported, so closing the
      channels and waiting for the workers loses nothing. */
  lemma Quiescence(c: Config, s: State)
    requires ValidConfig(c) && Reachable(c, s) && s.processed >= |c.deps|
    ensures s.tasks == [] && s.running == multiset{} && s.results == []
    ensures s.processed == |c.deps|
  {
    ReachableInv(c, s);
    NothingInFlight(c, s);
    ResultNodesSize(s.results);
  }

  // ----- Progress, and exactly when a resumed run completes -------------------------

  /** The condition under which a loaded checkpoint lets the run complete: no node
      is recorded Failed, and whatever depends on a done node is itself done. */
  ghost predicate SafeToResume(deps: Deps, restored: NodeStates) {
    && FailedIn(restored) == {}
    && forall v, d :: v in deps && d in deps[v] && d in DoneIn(restored) ==> v in DoneIn(restored)
  }

  ghost predicate ResumeSafe(c: Config) {
    SafeToResume(c.deps, c.restored)
  }

  /** The coordinator is never left waiting for a report that cannot come. */
  ghost predicate Completes(c: Config)
    requires ValidConfig(c)
  {
    forall s :: Reachable(c, s) && s.processed < |c.deps| ==> CanStep(c, s)
  }

  lemma {:induction false} LowestRank(rank: map<NodeID, nat>, nodes: set<NodeID>) returns (v: NodeID)
    requires nodes != {} && nodes <= rank.Keys
    ensures v in nodes && forall w :: w in nodes ==> rank[v] <= rank[w]
  {
    v :| v in nodes;
    if nodes != {v} {
      var w := LowestRank(rank, nodes - {v});
      if rank[w] < rank[v] {
        v := w;
      }
    }
  }

  lemma PendingIsFresh(c: Config, s: State, v: NodeID)
    requires StatusExact(c, s.status, s.reported) && v in c.deps && s.status[v].Pending?
    requires forall w :: w in c.restored ==> IsReport(c.restored[w])
    ensures v !in c.restored && v !in s.reported && !HasBadDep(c, s.status, s.reported, v)
  {
  }

  /** A node that was never dispatched waits for a node that has not succeeded. */
  lemma UndispatchedWaits(c: Config, s: State, v: NodeID) returns (d: NodeID)
    requires DispatchedWhenReady(c.deps, DoneIn(c.restored), s.dispatched, s.succeeded)
    requires v in c.deps && v !in s.dispatched && v !in DoneIn(c.restored)
    ensures d in c.deps[v] && d !in s.succeeded
  {
    assert Turns(c.deps, DoneIn(c.restored), s.succeeded, v) == 0;
    d :| d in c.deps[v] && d !in s.succeeded;
  }

  /** With nothing in flight, a pending node has a pending dependency. */
  lemma IdleMeansBlocked(c: Config, s: State, v: NodeID) returns (d: NodeID)
    requires Closed(c.deps) && Justified(c.deps, c.restored)
    requires FailedIn(c.restored) == {}
    requires forall v, d :: v in c.deps && d in c.deps[v] && d in DoneIn(c.restored) ==> v in DoneIn(c.restored)
    requires DispatchedWhenReady(c.deps, DoneIn(c.restored), s.dispatched, s.succeeded)
    requires SucceededExact(c, s.status, s.reported, s.succeeded) && StatusExact(c, s.status, s.reported)
    requires s.dispatched == s.reported
    requires v in c.deps && s.status[v].Pending?
    ensures d in c.deps[v] && d in PendingSet(s.status)
  {
    PendingIsFresh(c, s, v);
    d := UndispatchedWaits(c, s, v);
    assert d in c.deps && d !in DoneIn(c.restored);
    assert !Bad(c, s.status, s.reported, d);
    assert d !in FailedIn(c.restored);
    assert HasBadDep(c, s.status, s.reported, d) || s.status[d].Pending? || d in s.reported;
  }

  lemma IdleMeansFinished(c: Config, s: State)
    requires ValidConfig(c) && Inv(c, s) && ResumeSafe(c)
    requires s.dispatched == s.reported
    ensures PendingSet(s.status) == {}
  {
    var pending := PendingSet(s.status);
    if pending != {} {
      var rank :| Ranks(c.deps, rank);
      var v := LowestRank(rank, pending);
      var d := IdleMeansBlocked(c, s, v);
      assert false;
    }
  }

  /** Progress: while nodes are unprocessed, a worker or the coordinator can move. */
  lemma Progress(c: Config, s: State)
    requires ValidConfig(c) && Inv(c, s) && ResumeSafe(c) && s.processed < |c.deps|
    ensures CanStep(c, s)
  {
    if s.results != [] {
      assert Enabled(c, s, Coordinate(true));
    } else if s.running != multiset{} {
      var n :| n in s.running;
      assert Enabled(c, s, Finish(n, Success));
    } else if s.tasks != [] {
      assert Enabled(c, s, Take);
    } else {
      assert s.dispatched == s.reported;
      IdleMeansFinished(c, s);
      assert false;
    }
  }

  // ----- When a resumed run cannot complete -----------------------------------------

  ghost predicate AllSucceed(acts: seq<Action>) {
    forall i :: 0 <= i < |acts| && acts[i].Finish? ==> acts[i].status.Success?
  }

  ghost predicate OnlySuccess(s: State) {
    && (forall i :: 0 <= i < |s.results| ==> s.results[i].status.Success?)
    && (forall v :: v in s.reported ==> v in s.succeeded)
  }

  lemma StepOnlySuccess(c: Config, s: State, a: Action)
    requires Inverts(c.deps, c.dependents) && Shape(c, s) && Enabled(c, s, a)
    requires OnlySuccess(s) && (a.Finish? ==> a.status.Success?)
    ensures OnlySuccess(Apply(c, s, a))
  {
    if a.Coordinate? {
      CoordinateOnlySuccess(c, s, a.saved);
    }
  }

  lemma CoordinateOnlySuccess(c: Config, s: State, saved: bool)
    requires Inverts(c.deps, c.dependents) && Shape(c, s) && s.results != [] && OnlySuccess(s)
    ensures OnlySuccess(Spread(c, Receive(c, s, saved), s.results[0]))
  {
  }

  lemma {:induction false} RunOnlySuccess(c: Config, s: State, acts: seq<Action>)
    requires Inverts(c.deps, c.dependents) && Shape(c, s) && Schedule(c, s, acts)
    requires OnlySuccess(s) && AllSucceed(acts)
    ensures OnlySuccess(After(c, s, acts))
    decreases |acts|
  {
    if acts != [] {
      StepOnlySuccess(c, s, acts[0]);
      assert AllSucceed(acts[1..]);
      RunOnlySuccess(c, Apply(c, s, acts[0]), acts[1..]);
    }
  }

  lemma {:induction false} NothingBad(c: Config, s: State, rank: map<NodeID, nat>, d: NodeID)
    requires Ranks(c.deps, rank)
    requires SucceededExact(c, s.status, s.reported, s.succeeded) && StatusExact(c, s.status, s.reported)
    requires OnlySuccess(s) && d in c.deps
    ensures !Bad(c, s.status, s.reported, d)
    decreases rank[d]
  {
    if HasBadDep(c, s.status, s.reported, d) {
      var e :| e in c.deps[d] && Bad(c, s.status, s.reported, e);
      NothingBad(c, s, rank, e);
    }
  }

  /** A node that waits for a done node is never dispatched in the resumed run. */
  lemma WaitingForDone(c: Config, s: State, v: NodeID, d: NodeID)
    requires DispatchedWhenReady(c.deps, DoneIn(c.restored), s.dispatched, s.succeeded)
    requires forall w :: w in s.succeeded ==> w in s.dispatched
    requires v in c.deps && d in c.deps[v] && d in DoneIn(c.restored)
    ensures v !in s.dispatched
  {
    if v in s.dispatched {
      DispatchedFacts(c, s, v);
      DispatchedFacts(c, s, d);
    }
  }

  /** ... nor skipped while every step succeeds, so it stays pending. */
  lemma WaitingStaysPending(c: Config, s: State, rank: map<NodeID, nat>, v: NodeID)
    requires Ranks(c.deps, rank)
    requires SucceededExact(c, s.status, s.reported, s.succeeded) && StatusExact(c, s.status, s.reported)
    requires OnlySuccess(s) && v in c.deps && v !in c.restored && v !in s.reported
    ensures v in PendingSet(s.status)
  {
    if HasBadDep(c, s.status, s.reported, v) {
      var e :| e in c.deps[v] && Bad(c, s.status, s.reported, e);
      NothingBad(c, s, rank, e);
    }
  }

  lemma NotReportedUnlessDispatched(c: Config, s: State, v: NodeID)
    requires Inv(c, s) && v !in s.dispatched
    ensures v !in s.reported
  {
  }

  lemma SomeoneWaits(c: Config) returns (v: NodeID, d: NodeID)
    requires Justified(c.deps, c.restored) && !ResumeSafe(c) && FailedIn(c.restored) == {}
    ensures v in c.deps && d in c.deps[v] && d in DoneIn(c.restored) && v !in c.restored
  {
    v, d :| v in c.deps && d in c.deps[v] && d in DoneIn(c.restored) && v !in DoneIn(c.restored);
    assert v !in FailedIn(c.restored);
  }

  /** If the condition fails, a run in which every step succeeds never completes. */
  lemma UnsafeNeverCompletes(c: Config, s: State)
    requires ValidConfig(c) && Inv(c, s) && OnlySuccess(s) && !ResumeSafe(c)
    ensures s.processed < |c.deps|
  {
    if FailedIn(c.restored) == {} {
      var v, d := SomeoneWaits(c);
      SucceededWereDispatched(c, s);
      WaitingForDone(c, s, v, d);
      NotReportedUnlessDispatched(c, s, v);
      var rank :| Ranks(c.deps, rank);
      WaitingStaysPending(c, s, rank, v);
    }
  }

  lemma SuccessfulStep(c: Config, s: State) returns (b: Action)
    requires ValidConfig(c) && Inv(c, s) && CanStep(c, s)
    ensures Enabled(c, s, b) && (b.Finish? ==> b.status.Success?)
    ensures Inv(c, Apply(c, s, b))
    ensures Work(s) < Work(Apply(c, s, b)) <= 3 * |c.deps|
  {
    var a :| Enabled(c, s, a);
    b := if a.Finish? then Finish(a.node, Success) else a;
    StepInv(c, s, b);
    StepWork(c, s, b);
    ChannelBounds(c, Apply(c, s, b));
  }

  lemma AllSucceedCons(b: Action, rest: seq<Action>)
    requires AllSucceed(rest) && (b.Finish? ==> b.status.Success?)
    ensures AllSucceed([b] + rest)
  {
  }

  /** Keeps choosing successful steps until none is enabled. */
  lemma {:induction false} RunUntilStuck(c: Config, s: State) returns (acts: seq<Action>, t: State)
    requires ValidConfig(c) && Inv(c, s)
    ensures Schedule(c, s, acts) && t == After(c, s, acts)
    ensures AllSucceed(acts) && !CanStep(c, t)
    decreases 3 * |c.deps| - Work(s)
  {
    if CanStep(c, s) {
      var b := SuccessfulStep(c, s);
      var rest;
      rest, t := RunUntilStuck(c, Apply(c, s, b));
      ScheduleCons(c, s, b, rest);
      AllSucceedCons(b, rest);
      acts := [b] + rest;
    } else {
      acts, t := [], s;
    }
  }

  lemma {:induction false} Enumerate(nodes: set<NodeID>) returns (ids: seq<NodeID>)
    ensures Distinct(ids) && forall v :: v in ids <==> v in nodes
  {
    ids := [];
    if nodes != {} {
      var v :| v in nodes;
      var rest := Enumerate(nodes - {v});
      ids := [v] + rest;
    }
  }

  lemma InitExists(c: Config) returns (s: State)
    requires ValidConfig(c)
    ensures Init(c, s) && Inv(c, s)
  {
    var tasks := Enumerate(set v | v in c.deps && c.deps[v] == [] && v !in DoneIn(c.restored));
    s := State(tasks, multiset{}, [],
               map v | v in c.deps :: |c.deps[v]|,
               map v | v in c.deps :: if v in c.restored then c.restored[v] else Pending,
               |DoneIn(c.restored)|,
               if c.checkpointing then Some(c.restored) else None,
               c.onDisk, multiset(tasks), multiset{}, {});
    InitInv(c, s);
  }

  /** Exactly when a run started from a checkpoint completes under every schedule. */
  lemma ResumeCompletesIff(c: Config)
    requires ValidConfig(c)
    ensures Completes(c) <==> ResumeSafe(c)
  {
    if ResumeSafe(c) {
      forall s | Reachable(c, s) && s.processed < |c.deps| ensures CanStep(c, s) {
        ReachableInv(c, s);
        Progress(c, s);
      }
    } else {
      var s0 := InitExists(c);
      var acts, s := RunUntilStuck(c, s0);
      RunInv(c, s0, acts);
      RunOnlySuccess(c, s0, acts);
      UnsafeNeverCompletes(c, s);
      assert Reachable(c, s);
    }
  }

  /** A fresh run always completes. */
  lemma FreshRunCompletes(c: Config)
    requires ValidConfig(c) && c.restored == map[]
    ensures Completes(c)
  {
    ResumeCompletesIff(c);
  }

  /** The smallest stuck resume: `b` needs `a`, and `a` is already recorded Success. */
  lemma StuckChain(a: NodeID, b: NodeID) returns (c: Config)
    requires a != b
    ensures ValidConfig(c) && c.deps == map[a := [], b := [a]] && c.restored == map[a := Success]
    ensures !Completes(c)
  {
    c := ChainConfig(a, b);
    ChainIsValid(a, b);
    ResumeCompletesIff(c);
    assert b in c.deps && a in c.deps[b] && a in DoneIn(c.restored) && b !in DoneIn(c.restored);
  }

  ghost function ChainConfig(a: NodeID, b: NodeID): Config {
    Config(map[a := [], b := [a]], map[a := [b], b := []], true, map[a := Success], Some(map[a := Success]))
  }

  lemma ChainIsValid(a: NodeID, b: NodeID)
    requires a != b
    ensures ValidConfig(ChainConfig(a, b))
  {
    var deps := ChainConfig(a, b).deps;
    assert Ranks(deps, map[a := 0, b := 1]);
    ChainInverts(a, b);
  }

  lemma ChainInverts(a: NodeID, b: NodeID)
    requires a != b
    ensures Inverts(map[a := [], b := [a]], map[a := [b], b := []])
  {
  }
}
