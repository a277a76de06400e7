/** Full confluence: executions of the same graph from the same checkpoint, with the same node
    outcomes, that can go no further are in the same place, whether they finished or are left
    waiting for ever: same statuses, same progress, same checkpoint in memory. */
module Confluence {
  import opened Graphs
  import opened Readiness
  import opened PlanResult
  import opened Scheduler
  import opened SchedulerInvariant
  import opened SchedulerSteps
  import opened SchedulerTheorems
  import opened ScheduleIndependence

  /** `s` is where some schedule that follows `outcome` can go no further. */
  ghost predicate StopsIn(c: Config, outcome: NodeID -> Status, s: State)
    requires ValidConfig(c)
  {
    exists s0, acts ::
      Init(c, s0) && Shape(c, s0) && Schedule(c, s0, acts) && FollowsOutcome(acts, outcome)
      && s == After(c, s0, acts) && !CanStep(c, s)
  }

  lemma StopFacts(c: Config, outcome: NodeID -> Status, s: State)
    requires ValidConfig(c) && StopsIn(c, outcome, s)
    ensures Inv(c, s) && Agrees(s, outcome) && s.dispatched == s.reported
  {
    var s0, acts :| Init(c, s0) && Shape(c, s0) && Schedule(c, s0, acts) && FollowsOutcome(acts, outcome)
                    && s == After(c, s0, acts) && !CanStep(c, s);
    InitInv(c, s0);
    RunInv(c, s0, acts);
    RunAgrees(c, s0, acts, outcome);
    NothingLeft(c, s);
  }

  /** A state without moves has nothing queued, running or waiting. */
  lemma NothingLeft(c: Config, s: State)
    requires ValidConfig(c) && Inv(c, s) && !CanStep(c, s)
    ensures s.dispatched == s.reported
  {
    if s.processed >= |c.deps| {
      NothingInFlight(c, s);
    } else {
      if s.results != [] {
        assert Enabled(c, s, Coordinate(true));
      }
      if s.running != multiset{} {
        var n :| n in s.running;
        assert Enabled(c, s, Finish(n, Success));
      }
      if s.tasks != [] {
        assert Enabled(c, s, Take);
      }
    }
  }

  /** What a stopped state knows of itself. */
  ghost predicate Stopped(c: Config, outcome: NodeID -> Status, s: State) {
    && DispatchedWhenReady(c.deps, DoneIn(c.restored), s.reported, s.succeeded)
    && SucceededExact(c, s.status, s.reported, s.succeeded)
    && StatusExact(c, s.status, s.reported)
    && forall v :: v in s.reported ==> v in s.status && s.status[v] == outcome(v)
  }

  /** Two states that say the same of node `v`. */
  ghost predicate SameAt(c: Config, s: State, t: State, v: NodeID) {
    && v in s.status && v in t.status && s.status[v] == t.status[v]
    && (v in s.reported <==> v in t.reported)
    && (v in s.succeeded <==> v in t.succeeded)
    && (Bad(c, s.status, s.reported, v) <==> Bad(c, t.status, t.reported, v))
  }

  ghost predicate ReportsWhen(c: Config, s: State, v: NodeID)
    requires v in c.deps
  {
    v !in DoneIn(c.restored) && forall d :: d in c.deps[v] ==> d in s.succeeded
  }

  lemma ReportedIff(c: Config, outcome: NodeID -> Status, s: State, v: NodeID)
    requires Stopped(c, outcome, s) && v in c.deps
    ensures v in s.reported <==> ReportsWhen(c, s, v)
  {
    assert s.reported[v] == Turns(c.deps, DoneIn(c.restored), s.succeeded, v);
  }

  lemma BadDepsAgree(c: Config, s: State, t: State, v: NodeID)
    requires v in c.deps && forall d :: d in c.deps[v] ==> SameAt(c, s, t, d)
    ensures HasBadDep(c, s.status, s.reported, v) <==> HasBadDep(c, t.status, t.reported, v)
  {
    if HasBadDep(c, s.status, s.reported, v) {
      var d :| d in c.deps[v] && Bad(c, s.status, s.reported, d);
      assert SameAt(c, s, t, d);
    }
    if HasBadDep(c, t.status, t.reported, v) {
      var d :| d in c.deps[v] && Bad(c, t.status, t.reported, d);
      assert SameAt(c, s, t, d);
    }
  }

  lemma ReportsAgree(c: Config, outcome: NodeID -> Status, s: State, t: State, v: NodeID)
    requires Stopped(c, outcome, s) && Stopped(c, outcome, t) && v in c.deps
    requires forall d :: d in c.deps[v] ==> SameAt(c, s, t, d)
    ensures v in s.reported <==> v in t.reported
  {
    ReportedIff(c, outcome, s, v);
    ReportedIff(c, outcome, t, v);
  }

  lemma StatusAgrees(c: Config, outcome: NodeID -> Status, s: State, t: State, v: NodeID)
    requires Stopped(c, outcome, s) && Stopped(c, outcome, t) && v in c.deps
    requires v in s.reported <==> v in t.reported
    requires HasBadDep(c, s.status, s.reported, v) <==> HasBadDep(c, t.status, t.reported, v)
    ensures SameAt(c, s, t, v)
  {
  }

  lemma {:induction false} AllAgree(c: Config, rank: map<NodeID, nat>, outcome: NodeID -> Status, s: State, t: State,
                                    v: NodeID)
    requires Ranks(c.deps, rank) && Closed(c.deps) && v in c.deps
    requires Stopped(c, outcome, s) && Stopped(c, outcome, t)
    ensures SameAt(c, s, t, v)
    decreases rank[v]
  {
    forall d | d in c.deps[v] ensures SameAt(c, s, t, d) {
      AllAgree(c, rank, outcome, s, t, d);
    }
    ReportsAgree(c, outcome, s, t, v);
    BadDepsAgree(c, s, t, v);
    StatusAgrees(c, outcome, s, t, v);
  }

  lemma MemoriesAgree(c: Config, s: State, t: State)
    requires MemoryExact(c, s.memory, s.status, s.reported) && MemoryExact(c, t.memory, t.status, t.reported)
    requires forall v :: v in c.deps ==> SameAt(c, s, t, v)
    ensures s.memory == t.memory
  {
    if c.checkpointing {
      var a, b := s.memory.value, t.memory.value;
      forall v ensures v in a <==> v in b {
        assert v in c.deps ==> SameAt(c, s, t, v);
      }
      forall v | v in a ensures a[v] == b[v] {
        assert SameAt(c, s, t, v);
      }
      assert a.Keys == b.Keys;
      assert a == b;
    }
  }

  lemma CountsAgree(c: Config, s: State, t: State)
    requires CountExact(c, s.processed, s.status) && CountExact(c, t.processed, t.status) && s.status == t.status
    ensures s.processed == t.processed
  {
  }

  /** What a stopped state amounts to, for comparing it with others. */
  ghost predicate Final(c: Config, outcome: NodeID -> Status, s: State) {
    && Stopped(c, outcome, s) && CountExact(c, s.processed, s.status)
    && MemoryExact(c, s.memory, s.status, s.reported)
  }

  lemma StopsFinal(c: Config, outcome: NodeID -> Status, s: State)
    requires ValidConfig(c) && StopsIn(c, outcome, s)
    ensures Final(c, outcome, s)
  {
    StopFacts(c, outcome, s);
  }

  lemma SharedStatus(c: Config, c': Config, t: State)
    requires c'.deps == c.deps && c'.restored == c.restored && StatusExact(c', t.status, t.reported)
    ensures StatusExact(c, t.status, t.reported)
  {
    forall v | v in c.deps
      ensures HasBadDep(c, t.status, t.reported, v) == HasBadDep(c', t.status, t.reported, v)
    {
      SameBadDeps(c, c', t, v);
    }
  }

  /** Being final depends on the graph and the checkpoint alone. */
  lemma SharedFinal(c: Config, c': Config, outcome: NodeID -> Status, t: State)
    requires c'.deps == c.deps && c'.restored == c.restored && c'.checkpointing == c.checkpointing
    requires Final(c', outcome, t)
    ensures Final(c, outcome, t)
  {
    SharedStatus(c, c', t);
  }

  lemma SameBadDeps(c: Config, c': Config, t: State, v: NodeID)
    requires c'.deps == c.deps && c'.restored == c.restored && v in c.deps
    ensures HasBadDep(c, t.status, t.reported, v) == HasBadDep(c', t.status, t.reported, v)
  {
    if HasBadDep(c, t.status, t.reported, v) {
      var d :| d in c.deps[v] && Bad(c, t.status, t.reported, d);
      assert Bad(c', t.status, t.reported, d);
    }
    if HasBadDep(c', t.status, t.reported, v) {
      var d :| d in c.deps[v] && Bad(c', t.status, t.reported, d);
      assert Bad(c, t.status, t.reported, d);
    }
  }

  lemma FinalsAgree(c: Config, outcome: NodeID -> Status, s: State, t: State)
    requires Acyclic(c.deps) && Closed(c.deps) && Final(c, outcome, s) && Final(c, outcome, t)
    ensures s.status == t.status && s.processed == t.processed && s.memory == t.memory
  {
    var rank :| Ranks(c.deps, rank);
    forall v | v in c.deps ensures SameAt(c, s, t, v) {
      AllAgree(c, rank, outcome, s, t, v);
    }
    MemoriesAgree(c, s, t);
    SameStatuses(c, s, t);
    CountsAgree(c, s, t);
  }

  /** Confluence: wherever two schedules with the same node outcomes stop, they have the same
      statuses, the same progress and the same checkpoint in memory. */
  lemma Confluent(c: Config, c': Config, outcome: NodeID -> Status, s: State, t: State)
    requires ValidConfig(c) && ValidConfig(c')
    requires c'.deps == c.deps && c'.restored == c.restored && c'.checkpointing == c.checkpointing
    requires StopsIn(c, outcome, s) && StopsIn(c', outcome, t)
    ensures s.status == t.status && s.processed == t.processed && s.memory == t.memory
  {
    StopsFinal(c, outcome, s);
    StopsFinal(c', outcome, t);
    SharedFinal(c, c', outcome, t);
    FinalsAgree(c, outcome, s, t);
  }

  lemma SameStatuses(c: Config, s: State, t: State)
    requires s.status.Keys == c.deps.Keys && t.status.Keys == c.deps.Keys
    requires forall v :: v in c.deps ==> SameAt(c, s, t, v)
    ensures s.status == t.status
  {
    forall v | v in s.status ensures s.status[v] == t.status[v] {
      assert SameAt(c, s, t, v);
    }
  }

  /** So whether a resumed run completes or blocks does not depend on the schedule. */
  lemma BlockingIsDetermined(c: Config, c': Config, outcome: NodeID -> Status, s: State, t: State)
    requires ValidConfig(c) && ValidConfig(c')
    requires c'.deps == c.deps && c'.restored == c.restored && c'.checkpointing == c.checkpointing
    requires StopsIn(c, outcome, s) && StopsIn(c', outcome, t)
    ensures s.processed < |c.deps| <==> t.processed < |c.deps|
  {
    Confluent(c, c', outcome, s, t);
  }
}
