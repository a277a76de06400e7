/** The invariant is inductive: what each kind of step does to each part of it. */
module SchedulerSteps {
  import opened Wrappers
  import opened Graphs
  import opened Readiness
  import opened PlanResult
  import opened Scheduler
  import opened SchedulerInvariant

  // ----- Workers ----------------------------------------------------------------

  lemma TakeConserved(s: State)
    requires Conserved(s.tasks, s.running, s.results, s.reported, s.dispatched) && s.tasks != []
    ensures Conserved(s.tasks[1..], s.running + multiset{s.tasks[0]}, s.results, s.reported, s.dispatched)
  {
    assert s.tasks == [s.tasks[0]] + s.tasks[1..];
  }

  lemma TakeInv(c: Config, s: State)
    requires Inv(c, s) && s.tasks != []
    ensures Inv(c, TakeTask(c, s))
  {
    TakeConserved(s);
  }

  lemma FinishConserved(s: State, r: Report)
    requires Conserved(s.tasks, s.running, s.results, s.reported, s.dispatched) && r.node in s.running
    ensures Conserved(s.tasks, s.running - multiset{r.node}, s.results + [r], s.reported, s.dispatched)
  {
    ResultNodesAppend(s.results, r);
  }

  lemma FinishReports(results: seq<Report>, r: Report)
    requires ReportsValid(results) && IsReport(r.status)
    ensures ReportsValid(results + [r])
  {
  }

  lemma FinishInv(c: Config, s: State, r: Report)
    requires Inv(c, s) && r.node in s.running && IsReport(r.status)
    ensures Inv(c, FinishTask(c, s, r))
  {
    FinishConserved(s, r);
    FinishReports(s.results, r);
  }

  // ----- Receiving a report -----------------------------------------------------

  /** The reporting node is new to this run, was never done before, and all its
      dependencies succeeded in this run; it is pending unless restored as Failed. */
  ghost predicate Arriving(c: Config, s: State, n: NodeID) {
    && n in c.deps && n in s.status
    && n in s.dispatched && n !in s.reported && n !in s.succeeded
    && n !in DoneIn(c.restored)
    && (forall d :: d in c.deps[n] ==> d in s.succeeded)
    && (n in c.restored || s.status[n].Pending?)
  }

  lemma ReceiveFacts(c: Config, s: State)
    requires Inv(c, s) && s.results != []
    ensures Arriving(c, s, s.results[0].node) && IsReport(s.results[0].status)
  {
    var n := s.results[0].node;
    ResultNodesMember(s.results, 0);
    InFlightFacts(c, s, n);
    DispatchedFacts(c, s, n);
    NoBadDepWhenReady(c, s, n);
  }

  lemma ReceiveConserved(s: State)
    requires Conserved(s.tasks, s.running, s.results, s.reported, s.dispatched) && s.results != []
    ensures Conserved(s.tasks, s.running, s.results[1..], s.reported + multiset{s.results[0].node}, s.dispatched)
  {
    assert ResultNodes(s.results) == multiset{s.results[0].node} + ResultNodes(s.results[1..]);
  }

  lemma ReceiveMemory(c: Config, memory: Option<NodeStates>, status: map<NodeID, Status>,
                      reported: multiset<NodeID>, n: NodeID, st: Status)
    requires MemoryExact(c, memory, status, reported) && n in c.deps
    ensures MemoryExact(c, if memory.Some? then Some(memory.value[n := st]) else None,
                        status[n := st], reported + multiset{n})
  {
  }

  lemma ReceiveCount(c: Config, processed: nat, status: map<NodeID, Status>, n: NodeID, st: Status)
    requires CountExact(c, processed, status) && n in status && IsReport(st)
    ensures CountExact(c, if status[n].Pending? then processed + 1 else processed, status[n := st])
  {
    assert PendingSet(status[n := st]) == PendingSet(status) - {n};
  }

  // ----- A success --------------------------------------------------------------

  /** A done node never waits for a node of this run. */
  lemma DoneWaitsForDone(c: Config, v: NodeID, n: NodeID)
    requires Justified(c.deps, c.restored)
    requires v in DoneIn(c.restored) && n in c.deps[v]
    ensures n in DoneIn(c.restored)
  {
  }

  lemma BadDepCongruence(c: Config, status: map<NodeID, Status>, reported: multiset<NodeID>,
                         status': map<NodeID, Status>, reported': multiset<NodeID>, v: NodeID)
    requires v in c.deps
    requires forall d :: Bad(c, status', reported', d) == Bad(c, status, reported, d)
    ensures HasBadDep(c, status', reported', v) == HasBadDep(c, status, reported, v)
  {
    if HasBadDep(c, status, reported, v) {
      var d :| d in c.deps[v] && Bad(c, status, reported, d);
      assert Bad(c, status', reported', d);
    }
    if HasBadDep(c, status', reported', v) {
      var d :| d in c.deps[v] && Bad(c, status', reported', d);
      assert Bad(c, status, reported, d);
    }
  }

  /** A success changes no other node's standing. */
  lemma SuccessStatus(c: Config, status: map<NodeID, Status>, reported: multiset<NodeID>, n: NodeID)
    requires StatusExact(c, status, reported) && n in c.deps && n !in reported
    requires n in c.restored || status[n].Pending?
    ensures StatusExact(c, status[n := Success], reported + multiset{n})
  {
    var status', reported' := status[n := Success], reported + multiset{n};
    forall d ensures Bad(c, status', reported', d) == Bad(c, status, reported, d) {
    }
    forall v | v in c.deps && v !in reported' && v !in c.restored
      ensures status'[v] == if HasBadDep(c, status', reported', v) then Skipped else Pending
    {
      BadDepCongruence(c, status, reported, status', reported', v);
    }
  }

  lemma SuccessCounted(c: Config, status: map<NodeID, Status>, reported: multiset<NodeID>, succeeded: set<NodeID>,
                       n: NodeID)
    requires SucceededExact(c, status, reported, succeeded) && n in c.deps && n !in reported
    ensures SucceededExact(c, status[n := Success], reported + multiset{n}, succeeded + {n})
  {
  }

  // ----- A failure or skip ------------------------------------------------------

  /** The statuses after node `n` reported `st` and its dependents were skipped. */
  ghost function Skipping(c: Config, status: map<NodeID, Status>, n: NodeID, st: Status)
    : (r: (map<NodeID, Status>, nat))
    requires Inverts(c.deps, c.dependents) && status.Keys == c.deps.Keys && n in c.deps
    ensures r.0.Keys == c.deps.Keys
  {
    Cascade(c.dependents, status[n := st], c.dependents[n])
  }

  /** What the coordinator may assume about the node that failed or was skipped. */
  ghost predicate Failing(c: Config, status: map<NodeID, Status>, reported: multiset<NodeID>, n: NodeID, st: Status) {
    && Inverts(c.deps, c.dependents)
    && (forall v :: v in c.restored ==> IsReport(c.restored[v]))
    && StatusExact(c, status, reported)
    && n in c.deps && n !in reported && (n in c.restored || status[n].Pending?)
    && (st.Failed? || st.Skipped?)
  }

  lemma SettledStays(c: Config, status: map<NodeID, Status>, n: NodeID, st: Status, v: NodeID)
    requires Inverts(c.deps, c.dependents) && status.Keys == c.deps.Keys && n in c.deps && v in c.deps
    requires v == n ==> !st.Pending?
    requires v != n ==> !status[v].Pending?
    ensures Skipping(c, status, n, st).0[v] == status[n := st][v]
  {
    CascadeFrame(c.dependents, status[n := st], c.dependents[n]);
  }

  lemma BadStaysBad(c: Config, status: map<NodeID, Status>, reported: multiset<NodeID>, n: NodeID, st: Status,
                    d: NodeID)
    requires Failing(c, status, reported, n, st) && Bad(c, status, reported, d)
    ensures Bad(c, Skipping(c, status, n, st).0, reported + multiset{n}, d)
  {
    SettledStays(c, status, n, st, d);
  }

  lemma NewlySkippedIsBad(c: Config, status: map<NodeID, Status>, reported: multiset<NodeID>, n: NodeID, st: Status,
                          d: NodeID)
    requires Failing(c, status, reported, n, st) && d in c.deps
    requires d == n || Skipping(c, status, n, st).0[d] != status[d]
    ensures Bad(c, Skipping(c, status, n, st).0, reported + multiset{n}, d)
  {
    CascadeFrame(c.dependents, status[n := st], c.dependents[n]);
  }

  /** A skipped node has a bad dependency ... */
  lemma SkippedHasBadDep(c: Config, status: map<NodeID, Status>, reported: multiset<NodeID>, n: NodeID, st: Status,
                         v: NodeID)
    requires Failing(c, status, reported, n, st)
    requires v in c.deps && v != n && v !in reported && v !in c.restored
    requires Skipping(c, status, n, st).0[v].Skipped?
    ensures HasBadDep(c, Skipping(c, status, n, st).0, reported + multiset{n}, v)
  {
    var status1 := status[n := st];
    if HasBadDep(c, status, reported, v) {
      var d :| d in c.deps[v] && Bad(c, status, reported, d);
      BadStaysBad(c, status, reported, n, st, d);
    } else {
      var u := CascadeJustified(c.dependents, status1, c.dependents[n], v);
      var d := if v in c.dependents[n] then n else u;
      assert Occurs(c.dependents[d], v) == Occurs(c.deps[v], d);
      NewlySkippedIsBad(c, status, reported, n, st, d);
    }
  }

  /** ... and a node with a bad dependency is skipped. */
  lemma BadDepIsSkipped(c: Config, status: map<NodeID, Status>, reported: multiset<NodeID>, n: NodeID, st: Status,
                        v: NodeID, d: NodeID)
    requires Failing(c, status, reported, n, st)
    requires v in c.deps && v != n && v !in reported && v !in c.restored
    requires d in c.deps && d in c.deps[v] && Bad(c, Skipping(c, status, n, st).0, reported + multiset{n}, d)
    ensures !Skipping(c, status, n, st).0[v].Pending?
  {
    var status1 := status[n := st];
    var r := Cascade(c.dependents, status1, c.dependents[n]).0;
    CascadeCloses(c.dependents, status1, c.dependents[n]);
    assert Occurs(c.dependents[d], v) == Occurs(c.deps[v], d);
    assert v in c.dependents[d];
    if d != n {
      if r[d] == status[d] {
        assert Bad(c, status, reported, d);
        assert HasBadDep(c, status, reported, v);
        SettledStays(c, status, n, st, v);
      } else {
        assert d in status1 && status1[d] != r[d];
        assert !r[v].Pending?;
      }
    }
  }

  lemma FailStatus(c: Config, status: map<NodeID, Status>, reported: multiset<NodeID>, n: NodeID, st: Status)
    requires Failing(c, status, reported, n, st)
    requires Closed(c.deps)
    ensures StatusExact(c, Skipping(c, status, n, st).0, reported + multiset{n})
  {
    var after, reported' := Skipping(c, status, n, st).0, reported + multiset{n};
    forall v | v in c.deps && v !in reported' && v !in c.restored
      ensures after[v] == if HasBadDep(c, after, reported', v) then Skipped else Pending
    {
      CascadeFrame(c.dependents, status[n := st], c.dependents[n]);
      assert HasBadDep(c, status, reported, v) || status[v].Pending?;
      if after[v].Skipped? {
        SkippedHasBadDep(c, status, reported, n, st, v);
      } else if HasBadDep(c, after, reported', v) {
        var d :| d in c.deps[v] && Bad(c, after, reported', d);
        BadDepIsSkipped(c, status, reported, n, st, v, d);
      }
    }
    forall v | v in c.deps && (v in reported' || v in c.restored)
      ensures after[v] == status[n := st][v]
    {
      SettledStays(c, status, n, st, v);
    }
  }

  lemma FailCounted(c: Config, status: map<NodeID, Status>, reported: multiset<NodeID>, succeeded: set<NodeID>,
                    n: NodeID, st: Status)
    requires Failing(c, status, reported, n, st) && SucceededExact(c, status, reported, succeeded)
    ensures SucceededExact(c, Skipping(c, status, n, st).0, reported + multiset{n}, succeeded)
  {
    forall v | v in c.deps && (v in reported || v == n)
      ensures Skipping(c, status, n, st).0[v] == status[n := st][v]
    {
      SettledStays(c, status, n, st, v);
    }
  }

  lemma FailMemory(c: Config, memory: Option<NodeStates>, status: map<NodeID, Status>, reported: multiset<NodeID>,
                   n: NodeID, st: Status)
    requires Failing(c, status, reported, n, st)
    requires MemoryExact(c, memory, status[n := st], reported + multiset{n})
    ensures MemoryExact(c, memory, Skipping(c, status, n, st).0, reported + multiset{n})
  {
    forall v | v in c.deps && (v in reported || v == n)
      ensures Skipping(c, status, n, st).0[v] == status[n := st][v]
    {
      SettledStays(c, status, n, st, v);
    }
  }

  lemma FailCount(c: Config, processed: nat, status: map<NodeID, Status>, n: NodeID, st: Status)
    requires Inverts(c.deps, c.dependents) && status.Keys == c.deps.Keys && n in c.deps
    requires CountExact(c, processed, status[n := st])
    ensures CountExact(c, processed + Skipping(c, status, n, st).1, Skipping(c, status, n, st).0)
  {
    CascadeFrame(c.dependents, status[n := st], c.dependents[n]);
  }

  // ----- One iteration of the coordinator loop ------------------------------------

  lemma SendConserved(s: State, sent: seq<NodeID>)
    requires Conserved(s.tasks, s.running, s.results, s.reported, s.dispatched)
    ensures Conserved(s.tasks + sent, s.running, s.results, s.reported, s.dispatched + multiset(sent))
  {
  }

  lemma SuccessFlow(c: Config, s: State, saved: bool)
    requires Inverts(c.deps, c.dependents) && Shape(c, s)
    requires s.results != [] && s.results[0].status.Success?
    requires Conserved(s.tasks, s.running, s.results, s.reported, s.dispatched)
    ensures var s2 := Spread(c, Receive(c, s, saved), s.results[0]);
            Conserved(s2.tasks, s2.running, s2.results, s2.reported, s2.dispatched)
  {
    var n := s.results[0].node;
    assert n in c.deps;
    ReceiveConserved(s);
    SendConserved(Receive(c, s, saved), Credit(s.inDegree, c.dependents[n]).1);
  }

  lemma SuccessReadiness(c: Config, s: State, s2: State, saved: bool)
    requires Inverts(c.deps, c.dependents) && Justified(c.deps, c.restored) && Shape(c, s)
    requires s.results != [] && s.results[0].status.Success? && Arriving(c, s, s.results[0].node)
    requires s2 == Spread(c, Receive(c, s, saved), s.results[0])
    requires DispatchedWhenReady(c.deps, DoneIn(c.restored), s.dispatched, s.succeeded)
    requires DegreesExact(c.deps, s.inDegree, s.succeeded)
    ensures DispatchedWhenReady(c.deps, DoneIn(c.restored), s2.dispatched, s2.succeeded)
    ensures DegreesExact(c.deps, s2.inDegree, s2.succeeded)
  {
    var n := s.results[0].node;
    forall v | v in DoneIn(c.restored) ensures n !in c.deps[v] {
      if n in c.deps[v] {
        DoneWaitsForDone(c, v, n);
      }
    }
    SuccessDegrees(c.deps, c.dependents, s.inDegree, s.succeeded, n);
    SuccessDispatch(c.deps, c.dependents, DoneIn(c.restored), s.inDegree, s.dispatched, s.succeeded, n);
  }

  lemma SuccessRecord(c: Config, s: State, s2: State, saved: bool)
    requires Inverts(c.deps, c.dependents) && Shape(c, s)
    requires s.results != [] && s.results[0].status.Success? && Arriving(c, s, s.results[0].node)
    requires s2 == Spread(c, Receive(c, s, saved), s.results[0])
    requires SucceededExact(c, s.status, s.reported, s.succeeded) && StatusExact(c, s.status, s.reported)
    requires CountExact(c, s.processed, s.status) && MemoryExact(c, s.memory, s.status, s.reported)
    ensures SucceededExact(c, s2.status, s2.reported, s2.succeeded) && StatusExact(c, s2.status, s2.reported)
    ensures CountExact(c, s2.processed, s2.status) && MemoryExact(c, s2.memory, s2.status, s2.reported)
  {
    var n := s.results[0].node;
    ReceiveCount(c, s.processed, s.status, n, Success);
    ReceiveMemory(c, s.memory, s.status, s.reported, n, Success);
    SuccessStatus(c, s.status, s.reported, n);
    SuccessCounted(c, s.status, s.reported, s.succeeded, n);
  }

  lemma FailFlow(c: Config, s: State, s2: State, saved: bool)
    requires Inverts(c.deps, c.dependents) && Shape(c, s)
    requires s.results != [] && (s.results[0].status.Failed? || s.results[0].status.Skipped?)
    requires s2 == Spread(c, Receive(c, s, saved), s.results[0])
    requires Conserved(s.tasks, s.running, s.results, s.reported, s.dispatched)
    ensures Conserved(s2.tasks, s2.running, s2.results, s2.reported, s2.dispatched)
    ensures s2.dispatched == s.dispatched && s2.succeeded == s.succeeded && s2.inDegree == s.inDegree
  {
    ReceiveConserved(s);
  }

  lemma FailRecord(c: Config, s: State, s2: State, saved: bool)
    requires Shape(c, s)
    requires s.results != [] && Failing(c, s.status, s.reported, s.results[0].node, s.results[0].status)
    requires Closed(c.deps) && s2 == Spread(c, Receive(c, s, saved), s.results[0])
    requires SucceededExact(c, s.status, s.reported, s.succeeded)
    requires CountExact(c, s.processed, s.status) && MemoryExact(c, s.memory, s.status, s.reported)
    ensures SucceededExact(c, s2.status, s2.reported, s2.succeeded) && StatusExact(c, s2.status, s2.reported)
    ensures CountExact(c, s2.processed, s2.status) && MemoryExact(c, s2.memory, s2.status, s2.reported)
  {
    var r, s1 := s.results[0], Receive(c, s, saved);
    ReceiveCount(c, s.processed, s.status, r.node, r.status);
    ReceiveMemory(c, s.memory, s.status, s.reported, r.node, r.status);
    FailStatus(c, s.status, s.reported, r.node, r.status);
    FailCounted(c, s.status, s.reported, s.succeeded, r.node, r.status);
    FailMemory(c, s1.memory, s.status, s.reported, r.node, r.status);
    FailCount(c, s1.processed, s.status, r.node, r.status);
  }

  lemma ReceiveReports(c: Config, s: State, saved: bool)
    requires Inverts(c.deps, c.dependents) && Shape(c, s) && ReportsValid(s.results) && s.results != []
    ensures ReportsValid(Spread(c, Receive(c, s, saved), s.results[0]).results)
  {
  }

  lemma SuccessInv(c: Config, s: State, s2: State, saved: bool)
    requires Inverts(c.deps, c.dependents) && Justified(c.deps, c.restored) && Inv(c, s)
    requires s.results != [] && s.results[0].status.Success? && Arriving(c, s, s.results[0].node)
    requires s2 == Spread(c, Receive(c, s, saved), s.results[0])
    ensures Inv(c, s2)
  {
    ReceiveReports(c, s, saved);
    SuccessFlow(c, s, saved);
    SuccessReadiness(c, s, s2, saved);
    SuccessRecord(c, s, s2, saved);
  }

  lemma FailInv(c: Config, s: State, s2: State, saved: bool)
    requires Inverts(c.deps, c.dependents) && Closed(c.deps) && Inv(c, s)
    requires forall v :: v in c.restored ==> IsReport(c.restored[v])
    requires s.results != [] && (s.results[0].status.Failed? || s.results[0].status.Skipped?)
    requires Arriving(c, s, s.results[0].node)
    requires s2 == Spread(c, Receive(c, s, saved), s.results[0])
    ensures Inv(c, s2)
  {
    ReceiveReports(c, s, saved);
    FailFlow(c, s, s2, saved);
    FailRecord(c, s, s2, saved);
  }

  lemma CoordinateInv(c: Config, s: State, saved: bool)
    requires ValidConfig(c) && Inv(c, s) && Enabled(c, s, Coordinate(saved))
    ensures Inv(c, Apply(c, s, Coordinate(saved)))
  {
    ReceiveFacts(c, s);
    HandleInv(c, s, Spread(c, Receive(c, s, saved), s.results[0]), saved);
  }

  lemma HandleInv(c: Config, s: State, s2: State, saved: bool)
    requires Inverts(c.deps, c.dependents) && Closed(c.deps) && Justified(c.deps, c.restored) && Inv(c, s)
    requires s.results != [] && Arriving(c, s, s.results[0].node) && IsReport(s.results[0].status)
    requires s2 == Spread(c, Receive(c, s, saved), s.results[0])
    ensures Inv(c, s2)
  {
    if s.results[0].status.Success? {
      SuccessInv(c, s, s2, saved);
    } else {
      FailInv(c, s, s2, saved);
    }
  }

  /** Every action keeps the invariant. */
  lemma StepInv(c: Config, s: State, a: Action)
    requires ValidConfig(c) && Inv(c, s) && Enabled(c, s, a)
    ensures Inv(c, Apply(c, s, a))
  {
    match a
    case Take => TakeInv(c, s);
    case Finish(n, st) => FinishInv(c, s, Report(n, st));
    case Coordinate(saved) =>
      CoordinateInv(c, s, saved);
  }

  /** Every reachable state satisfies the invariant, under every schedule. */
  lemma {:induction false} RunInv(c: Config, s: State, acts: seq<Action>)
    requires ValidConfig(c) && Inv(c, s) && Schedule(c, s, acts)
    ensures Inv(c, After(c, s, acts))
    decreases |acts|
  {
    if acts != [] {
      StepInv(c, s, acts[0]);
      RunInv(c, Apply(c, s, acts[0]), acts[1..]);
    }
  }
}
