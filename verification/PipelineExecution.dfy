/** From the planner to the answer: what the executor says of a planned pipeline. */
module PipelineExecution {
  import opened Wrappers
  import opened Graphs
  import opened ExecutionGraphs
  import opened PlanResult
  import opened Scheduler
  import opened SchedulerInvariant
  import opened ScheduleIndependence
  import opened CheckpointSafety
  import opened PhaseBarrier
  import opened PipelinePlanner
  import opened Executor

  lemma RunIsJustified(start: Start, nodes: map<NodeID, Status>, closes: bool, file: Option<NodeStates>)
    requires EndsWith(start, nodes, closes, file)
    ensures Closed(start.deps) && Acyclic(start.deps) && Justified(start.deps, start.restored)
  {
    var c, t :| ReachedFrom(start, c, t) && t.processed == |start.deps| && t.status == nodes
                && Leaves(c, t, file) && ClosesWith(t, closes, file);
  }

  /** In the answer to a pipeline, fresh or resumed, a node that is not Success leaves every
      node of every later fragment Skipped. */
  lemma LaterPhasesSkipped(fs: seq<Fragment>, start: Start, outcome: NodeID -> Status, storage: Storage, status: Status,
                           nodes: map<NodeID, Status>, file: Option<NodeStates>, i: nat, j: nat, x: NodeID, y: NodeID)
    requires Pipeline(fs) && i < j < |fs| && x in fs[i].g && y in fs[j].g && start.deps == Assembled(fs)
    requires Answers(start, outcome, storage, Completed(status, nodes), file)
    requires x in nodes && !nodes[x].Success?
    ensures y in nodes && nodes[y].Skipped?
  {
    RunIsJustified(start, nodes, storage.closes, file);
    AssembledKeys(fs, x);
    AssembledKeys(fs, y);
    PipelineBarrier(fs, i, j, x, y);
    var rank :| Ranks(start.deps, rank);
    FailureReachesAll(Spec(start.deps, start.restored), rank, outcome, nodes, y, x);
  }

  /** If the answer is Success, no node skips itself and none was restored as skipped, then
      every node of every fragment is Success. */
  lemma SuccessMeansAll(fs: seq<Fragment>, start: Start, outcome: NodeID -> Status, storage: Storage,
                        nodes: map<NodeID, Status>, file: Option<NodeStates>, v: NodeID)
    requires Pipeline(fs) && fs != [] && start.deps == Assembled(fs) && v in start.deps
    requires Answers(start, outcome, storage, Completed(Success, nodes), file)
    requires forall w :: IsReport(outcome(w)) && !outcome(w).Skipped?
    requires forall w :: w in start.restored ==> start.restored[w].Success?
    ensures v in nodes && nodes[v].Success?
  {
    RunIsJustified(start, nodes, storage.closes, file);
    var rank :| Ranks(start.deps, rank);
    NothingFailed(start, rank, outcome, nodes, v);
  }

  lemma {:induction false} NothingFailed(start: Start, rank: map<NodeID, nat>, outcome: NodeID -> Status,
                                         nodes: map<NodeID, Status>, v: NodeID)
    requires Ranks(start.deps, rank) && Closed(start.deps) && v in start.deps
    requires Solves(Spec(start.deps, start.restored), outcome, nodes) && FailedIn(nodes) == {}
    requires forall w :: IsReport(outcome(w)) && !outcome(w).Skipped?
    requires forall w :: w in start.restored ==> start.restored[w].Success?
    ensures nodes[v].Success?
    decreases rank[v]
  {
    forall d | d in start.deps[v] ensures nodes[d].Success? {
      NothingFailed(start, rank, outcome, nodes, d);
    }
    assert !Blocked(Spec(start.deps, start.restored), nodes, v);
    assert v !in FailedIn(nodes);
  }

  /** Planning a pipeline and running what was planned: a pipeline whose modules' IDs do not
      clash is never refused by the executor. */
  method PlanAndExecute(ms: seq<ExecutionFragment>, ghost fs: seq<Fragment>, checkpointing: bool,
                        restored: NodeStates, onDisk: Option<NodeStates>, outcome: NodeID -> Status, storage: Storage)
    returns (merged: Outcome, result: GraphResult, file: Option<NodeStates>)
    requires |fs| == |ms| && Untouched(ms, fs, 0) && PairwiseApart(ms, 0)
    requires forall v :: IsReport(outcome(v))
    requires Pipeline(Kept(fs)) ==> Justified(Whole(Kept(fs)), restored)
    modifies Objects(ms)
    ensures merged.Ok? <==> Pipeline(Kept(fs))
    ensures !merged.Ok? || Answered(Kept(fs), checkpointing, restored, onDisk, outcome, storage, result, file)
  {
    var g, valid;
    g, merged, valid := Plan(ms, fs);
    result, file := Rejected(valid), onDisk;
    if !merged.Ok? {
      return;
    }
    if |g.nodes| == 0 {
      assert g.nodes == map[];
      return merged, Completed(Success, map[]), onDisk;
    }
    PlannedRuns(Kept(fs));
    result, file := Execute(g, checkpointing, restored, onDisk, outcome, storage);
  }

  lemma PlannedRuns(kept: seq<Fragment>)
    requires Pipeline(kept)
    ensures Closed(Whole(kept)) && Acyclic(Whole(kept))
  {
    WholeRuns(kept);
  }

  /** An empty pipeline succeeds without the executor; any other has the executor's answer. */
  ghost predicate Answered(kept: seq<Fragment>, checkpointing: bool, restored: NodeStates, onDisk: Option<NodeStates>,
                           outcome: NodeID -> Status, storage: Storage, result: GraphResult,
                           file: Option<NodeStates>)
    requires Pipeline(kept)
  {
    if kept == [] then result == Completed(Success, map[]) && file == onDisk
    else Answers(Start(Whole(kept), checkpointing, restored, onDisk), outcome, storage, result, file)
  }
}
