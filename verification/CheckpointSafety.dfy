/** Checkpoints over any number of crashes and resumes of the same graph. */
module CheckpointSafety {
  import opened Wrappers
  import opened Graphs
  import opened Readiness
  import opened PlanResult
  import opened Scheduler
  import opened SchedulerInvariant
  import opened SchedulerSteps
  import opened SchedulerTheorems

  // ----- One run ------------------------------------------------------------------

  /** Nothing done in `before` is lost or changed in `after`. */
  ghost predicate KeepsDone(before: NodeStates, after: NodeStates) {
    forall v :: v in DoneIn(before) ==> v in after && after[v] == before[v]
  }

  ghost predicate Acceptable(c: Config, disk: Option<NodeStates>) {
    && (disk.Some? ==> Justified(c.deps, disk.value))
    && (c.onDisk == Some(c.restored) ==> disk.Some? && KeepsDone(c.restored, disk.value))
  }

  lemma ReportedFacts(c: Config, s: State, v: NodeID)
    requires Inv(c, s) && v in s.reported
    ensures v in c.deps && v !in DoneIn(c.restored)
    ensures forall d :: d in c.deps[v] ==> d in s.succeeded
  {
    assert v in s.dispatched;
    DispatchedFacts(c, s, v);
  }

  lemma RecordedDepsSucceeded(c: Config, s: State, v: NodeID, d: NodeID)
    requires Closed(c.deps) && Justified(c.deps, c.restored)
    requires MemoryExact(c, s.memory, s.status, s.reported) && SucceededExact(c, s.status, s.reported, s.succeeded)
    requires s.memory.Some? && v in s.memory.value && d in c.deps[v]
    requires v in s.reported ==> d in s.succeeded
    requires d in s.reported ==> d !in DoneIn(c.restored)
    ensures d in s.memory.value && s.memory.value[d].Success?
  {
    assert d in c.deps;
    if v !in s.reported {
      assert d in DoneIn(c.restored);
    }
  }

  /** Every node the checkpoint in memory records has all its dependencies recorded
      Success. */
  lemma MemoryJustified(c: Config, s: State)
    requires Closed(c.deps) && Justified(c.deps, c.restored) && Inv(c, s) && s.memory.Some?
    ensures Justified(c.deps, s.memory.value)
  {
    var states := s.memory.value;
    MemoryShape(c, states, s.memory, s.status, s.reported);
    forall v | v in states ensures DepsRecorded(c.deps[v], states) {
      MemoryJustifiedAt(c, s, v);
    }
  }

  ghost predicate DepsRecorded(ds: seq<NodeID>, states: NodeStates) {
    forall d :: d in ds ==> d in states && states[d].Success?
  }

  lemma MemoryShape(c: Config, states: NodeStates, memory: Option<NodeStates>, status: map<NodeID, Status>,
                    reported: multiset<NodeID>)
    requires MemoryExact(c, memory, status, reported) && memory == Some(states)
    requires StatusExact(c, status, reported)
    requires forall v :: v in c.restored ==> IsReport(c.restored[v])
    ensures states.Keys <= c.deps.Keys
    ensures forall v :: v in states ==> IsReport(states[v])
  {
  }

  lemma MemoryJustifiedAt(c: Config, s: State, v: NodeID)
    requires Closed(c.deps) && Justified(c.deps, c.restored) && Inv(c, s) && s.memory.Some?
    requires v in c.deps && v in s.memory.value
    ensures DepsRecorded(c.deps[v], s.memory.value)
  {
    if v in s.reported {
      ReportedFacts(c, s, v);
    }
    forall d | d in c.deps[v] ensures d in s.memory.value && s.memory.value[d].Success? {
      if d in s.reported {
        ReportedFacts(c, s, d);
      }
      RecordedDepsSucceeded(c, s, v, d);
    }
  }

  lemma MemoryKeepsDone(c: Config, s: State)
    requires Inv(c, s) && s.memory.Some? && c.restored.Keys <= c.deps.Keys
    ensures KeepsDone(c.restored, s.memory.value)
  {
    forall v | v in s.reported ensures v !in DoneIn(c.restored) {
      ReportedFacts(c, s, v);
    }
  }

  lemma MemoryAcceptable(c: Config, s: State)
    requires Closed(c.deps) && Justified(c.deps, c.restored) && Inv(c, s) && s.memory.Some?
    ensures Acceptable(c, s.memory)
  {
    MemoryJustified(c, s);
    MemoryKeepsDone(c, s);
  }

  /** The file changes only when a report is handled and the save succeeds; it then
      holds the node states in memory. */
  lemma DiskAfterStep(c: Config, s: State, a: Action)
    requires Inverts(c.deps, c.dependents) && Shape(c, s) && Enabled(c, s, a)
    ensures var s' := Apply(c, s, a); s'.disk == s.disk || (s'.memory.Some? && s'.disk == s'.memory)
  {
  }

  lemma {:induction false} RunAcceptable(c: Config, s: State, acts: seq<Action>)
    requires ValidConfig(c) && Inv(c, s) && Schedule(c, s, acts) && Acceptable(c, s.disk)
    ensures Acceptable(c, After(c, s, acts).disk)
    decreases |acts|
  {
    if acts != [] {
      var s' := Apply(c, s, acts[0]);
      StepInv(c, s, acts[0]);
      DiskAfterStep(c, s, acts[0]);
      if s'.disk != s.disk {
        MemoryAcceptable(c, s');
      }
      RunAcceptable(c, s', acts[1..]);
    }
  }

  lemma InitAcceptable(c: Config, s: State)
    requires Justified(c.deps, c.restored) && Init(c, s)
    requires c.onDisk.Some? ==> Justified(c.deps, c.onDisk.value)
    ensures Acceptable(c, s.disk)
  {
  }

  lemma ReachableAcceptable(c: Config, s: State)
    requires ValidConfig(c) && Reachable(c, s)
    requires c.onDisk.Some? ==> Justified(c.deps, c.onDisk.value)
    ensures Acceptable(c, s.disk)
  {
    var s0, acts :| Init(c, s0) && Shape(c, s0) && Schedule(c, s0, acts) && s == After(c, s0, acts);
    InitInv(c, s0);
    InitAcceptable(c, s0);
    RunAcceptable(c, s0, acts);
  }

  // ----- What a completed run has recorded ------------------------------------------

  /** Every dependency of the node ended Success. */
  ghost predicate Cleared(ds: seq<NodeID>, nodes: map<NodeID, Status>) {
    forall d :: d in ds ==> d in nodes && nodes[d].Success?
  }

  /** The restored nodes and those that ran, with the statuses they ended in; a node skipped
      because of another one is not recorded. */
  ghost function Recorded(deps: Deps, restored: NodeStates, nodes: map<NodeID, Status>): NodeStates {
    map v | v in nodes && v in deps && (v in restored || Cleared(deps[v], nodes)) :: nodes[v]
  }

  lemma RanIff(c: Config, s: State, v: NodeID)
    requires Closed(c.deps) && Inv(c, s) && s.status.Keys == c.deps.Keys
    requires PendingSet(s.status) == {} && v in c.deps && v !in c.restored
    ensures v in s.reported <==> Cleared(c.deps[v], s.status)
  {
    if v in s.reported {
      ReportedFacts(c, s, v);
    } else {
      assert v !in PendingSet(s.status);
      assert HasBadDep(c, s.status, s.reported, v);
      var d :| d in c.deps[v] && Bad(c, s.status, s.reported, d);
      assert !s.status[d].Success?;
    }
  }

  /** No node restored from the checkpoint ends with another status in a completed run. */
  lemma RestoredStays(c: Config, s: State, v: NodeID)
    requires Justified(c.deps, c.restored) && Inv(c, s) && FailedIn(c.restored) == {} && v in c.restored
    ensures v in c.deps && s.status[v] == c.restored[v] && v !in s.reported
  {
    assert v in DoneIn(c.restored) || v in FailedIn(c.restored);
    if v in s.reported {
      ReportedFacts(c, s, v);
    }
  }

  lemma MemoryOfCompleted(c: Config, s: State, states: NodeStates)
    requires MemoryExact(c, s.memory, s.status, s.reported) && s.memory == Some(states)
    requires forall v :: v in c.deps && v !in c.restored ==> (v in s.reported <==> Cleared(c.deps[v], s.status))
    requires forall v :: v in c.restored ==> v in c.deps && s.status[v] == c.restored[v] && v !in s.reported
    ensures states == Recorded(c.deps, c.restored, s.status)
  {
    var recorded := Recorded(c.deps, c.restored, s.status);
    forall v ensures v in states <==> v in recorded {
    }
    assert states.Keys == recorded.Keys;
  }

  /** The checkpoint in memory of a completed run. */
  lemma CompletedMemory(c: Config, s: State)
    requires ValidConfig(c) && Inv(c, s) && s.processed >= |c.deps| && c.checkpointing
    ensures s.memory == Some(Recorded(c.deps, c.restored, s.status))
  {
    assert PendingSet(s.status) == {} && FailedIn(c.restored) == {};
    forall v | v in c.deps && v !in c.restored ensures v in s.reported <==> Cleared(c.deps[v], s.status) {
      RanIff(c, s, v);
    }
    forall v | v in c.restored ensures v in c.deps && s.status[v] == c.restored[v] && v !in s.reported {
      RestoredStays(c, s, v);
    }
    MemoryOfCompleted(c, s, s.memory.value);
  }

  // ----- Generations --------------------------------------------------------------

  /** One execution: its configuration, the last state it reached before it crashed
      or finished, and what the checkpoint file holds afterwards. */
  datatype Generation = Generation(c: Config, loaded: bool, s: State, after: Option<NodeStates>)

  /** A run leaves the file as it last was; a run with checkpoints that finished may also
      have deleted it (no node Failed) or saved it once more (some node Failed). */
  ghost predicate Leaves(c: Config, s: State, after: Option<NodeStates>) {
    || after == s.disk
    || (c.checkpointing && s.processed >= |c.deps|
        && if FailedIn(s.status) == {} then after.None? else after == s.memory)
  }

  lemma {:induction false} RunLeavesAlone(c: Config, s: State, acts: seq<Action>)
    requires Inverts(c.deps, c.dependents) && Shape(c, s) && Schedule(c, s, acts) && s.memory.None?
    ensures After(c, s, acts).disk == s.disk && After(c, s, acts).memory.None?
    decreases |acts|
  {
    if acts != [] {
      StepLeavesAlone(c, s, acts[0]);
      RunLeavesAlone(c, Apply(c, s, acts[0]), acts[1..]);
    }
  }

  lemma StepLeavesAlone(c: Config, s: State, a: Action)
    requires Inverts(c.deps, c.dependents) && Shape(c, s) && Enabled(c, s, a) && s.memory.None?
    ensures Apply(c, s, a).disk == s.disk && Apply(c, s, a).memory.None?
  {
  }

  /** Without checkpoints a file that happens to be there is never touched. */
  lemma FileLeftAlone(c: Config, s: State, after: Option<NodeStates>)
    requires Inverts(c.deps, c.dependents) && Reachable(c, s) && !c.checkpointing && Leaves(c, s, after)
    ensures after == c.onDisk && s.disk == c.onDisk
  {
    var s0, acts :| Init(c, s0) && Shape(c, s0) && Schedule(c, s0, acts) && s == After(c, s0, acts);
    RunLeavesAlone(c, s0, acts);
  }

  ghost predicate Follows(deps: Deps, before: Option<NodeStates>, g: Generation) {
    && g.c.deps == deps && Inverts(deps, g.c.dependents)
    && g.c.checkpointing && g.c.onDisk == before
    && g.c.restored == (if g.loaded && before.Some? then before.value else map[])
    && Reachable(g.c, g.s) && Leaves(g.c, g.s, g.after)
  }

  ghost function Before(gens: seq<Generation>, i: nat): Option<NodeStates>
    requires i < |gens|
  {
    if i == 0 then None else gens[i - 1].after
  }

  ghost predicate History(deps: Deps, gens: seq<Generation>) {
    forall i {:trigger Before(gens, i)} :: 0 <= i < |gens| ==> Follows(deps, Before(gens, i), gens[i])
  }

  lemma GenerationJustified(deps: Deps, before: Option<NodeStates>, g: Generation)
    requires Closed(deps) && Acyclic(deps) && Follows(deps, before, g)
    requires before.Some? ==> Justified(deps, before.value)
    ensures ValidConfig(g.c)
    ensures g.after.Some? ==> Justified(deps, g.after.value)
    ensures g.loaded && before.Some? && g.after.Some? ==> KeepsDone(before.value, g.after.value)
  {
    ReachableAcceptable(g.c, g.s);
    FinalMemory(g.c, g.s);
  }

  lemma FinalMemory(c: Config, s: State)
    requires ValidConfig(c) && Reachable(c, s) && c.checkpointing
    ensures s.memory.Some? && Acceptable(c, s.memory)
  {
    ReachableInv(c, s);
    MemoryAcceptable(c, s);
  }

  /** Whatever crashed, whichever saves and loads failed: the file, if there is one,
      records a node only with all its dependencies recorded Success. */
  lemma {:induction false} HistoryJustified(deps: Deps, gens: seq<Generation>, i: nat)
    requires Closed(deps) && Acyclic(deps) && History(deps, gens) && i < |gens|
    ensures ValidConfig(gens[i].c) && FileJustified(deps, gens[i].after)
  {
    if i > 0 {
      HistoryJustified(deps, gens, i - 1);
    }
    NextJustified(deps, gens, i);
  }

  ghost predicate FileJustified(deps: Deps, file: Option<NodeStates>) {
    file.Some? ==> Justified(deps, file.value)
  }

  lemma NextJustified(deps: Deps, gens: seq<Generation>, i: nat)
    requires Closed(deps) && Acyclic(deps) && History(deps, gens) && i < |gens|
    requires i > 0 ==> FileJustified(deps, gens[i - 1].after)
    ensures ValidConfig(gens[i].c) && FileJustified(deps, gens[i].after)
  {
    var before := Before(gens, i);
    assert Follows(deps, before, gens[i]);
    GenerationJustified(deps, before, gens[i]);
  }

  /** While the file survives and is loaded, done nodes stay done with the same record. */
  lemma {:induction false} DoneSurvives(deps: Deps, gens: seq<Generation>, i: nat, j: nat, v: NodeID)
    requires Closed(deps) && Acyclic(deps) && History(deps, gens) && i <= j < |gens|
    requires forall k :: i <= k <= j ==> gens[k].after.Some?
    requires forall k :: i < k <= j ==> gens[k].loaded
    requires v in DoneIn(gens[i].after.value)
    ensures v in DoneIn(gens[j].after.value) && gens[j].after.value[v] == gens[i].after.value[v]
  {
    if i < j {
      DoneSurvives(deps, gens, i, j - 1, v);
      HistoryJustified(deps, gens, j - 1);
      GenerationJustified(deps, Before(gens, j), gens[j]);
    }
  }

  /** A node the file records as done is never dispatched again. */
  lemma DoneNeverRedispatched(deps: Deps, gens: seq<Generation>, i: nat, j: nat, v: NodeID)
    requires Closed(deps) && Acyclic(deps) && History(deps, gens) && i < j < |gens|
    requires forall k :: i <= k < j ==> gens[k].after.Some?
    requires forall k :: i < k <= j ==> gens[k].loaded
    requires v in DoneIn(gens[i].after.value)
    ensures v !in gens[j].s.dispatched
  {
    DoneSurvives(deps, gens, i, j - 1, v);
    HistoryJustified(deps, gens, j);
    GenerationStarts(deps, gens, j);
    DoneIsNotDispatched(gens[j].c, gens[j].s, v);
  }

  lemma GenerationStarts(deps: Deps, gens: seq<Generation>, j: nat)
    requires History(deps, gens) && 0 < j < |gens| && gens[j].loaded && gens[j - 1].after.Some?
    ensures Inverts(gens[j].c.deps, gens[j].c.dependents) && Reachable(gens[j].c, gens[j].s)
    ensures gens[j].c.restored == gens[j - 1].after.value
  {
    assert Follows(deps, Before(gens, j), gens[j]);
  }

  lemma DoneIsNotDispatched(c: Config, s: State, v: NodeID)
    requires ValidConfig(c) && Reachable(c, s) && v in DoneIn(c.restored)
    ensures v !in s.dispatched
  {
    if v in s.dispatched {
      DispatchOnceInOrder(c, s, v);
    }
  }
}
