/** The executor's code: the coordinator updates its counters, statuses and channels
    in place; every update is proved to be a step of the transition system. */
module Executor {
  import opened Sequences
  import opened Wrappers
  import opened Graphs
  import opened Readiness
  import opened PlanGraph
  import opened ExecutionGraphs
  import opened PlanResult
  import opened Scheduler
  import opened SchedulerInvariant
  import opened SchedulerSteps
  import opened SchedulerTheorems
  import opened ScheduleIndependence
  import opened CheckpointSafety

  /** The skip worklist: first in, first out; a node may be appended many times. */
  method CascadeSkips(dependents: map<NodeID, seq<NodeID>>, before: map<NodeID, Status>, first: seq<NodeID>,
                      processed0: nat)
    returns (status: map<NodeID, Status>, processed: nat)
    requires dependents.Keys == before.Keys
    requires forall u, v :: u in dependents && v in dependents[u] ==> v in dependents
    requires forall v :: v in first ==> v in dependents
    ensures status == Cascade(dependents, before, first).0
    ensures processed == processed0 + Cascade(dependents, before, first).1
  {
    status, processed := before, processed0;
    var queue := first;
    while |queue| > 0
      invariant status.Keys == before.Keys
      invariant forall v :: v in queue ==> v in dependents
      invariant Cascade(dependents, status, queue).0 == Cascade(dependents, before, first).0
      invariant processed + Cascade(dependents, status, queue).1 == processed0 + Cascade(dependents, before, first).1
      decreases |PendingSet(status)|, |queue|
    {
      var skipID := queue[0];
      queue := queue[1..];
      if status[skipID].Pending? {
        assert PendingSet(status[skipID := Skipped]) == PendingSet(status) - {skipID};
        status := status[skipID := Skipped];
        processed := processed + 1;
        queue := queue + dependents[skipID];
      }
    }
  }

  /** Which operations on the checkpoint file work: the first save, the save after the report
      of each node, and the deletion or save that closes a run. */
  datatype Storage = Storage(firstSave: bool, saves: NodeID -> bool, closes: bool)

  ghost predicate SavesWork(saves: NodeID -> bool) {
    forall v :: saves(v)
  }

  /** The file, if there is a checkpoint, is the checkpoint in memory. */
  ghost predicate UpToDate(s: State) {
    s.memory.Some? ==> s.disk == s.memory
  }

  class Coordinator {
    const c: Config
    var tasks: seq<NodeID>
    var running: multiset<NodeID>
    var results: seq<Report>
    var inDegree: map<NodeID, int>
    var status: map<NodeID, Status>
    var processed: nat
    var memory: Option<NodeStates>
    var disk: Option<NodeStates>
    ghost var dispatched: multiset<NodeID>
    ghost var reported: multiset<NodeID>
    ghost var succeeded: set<NodeID>

    ghost function View(): State
      reads this
    {
      State(tasks, running, results, inDegree, status, processed, memory, disk, dispatched, reported, succeeded)
    }

    ghost predicate Ready()
      reads this
    {
      Inverts(c.deps, c.dependents) && Shape(c, View())
    }

    /** Restores statuses, counts what is already done, saves the first checkpoint and
        queues the nodes without dependencies that are not done. */
    constructor (c: Config, saved: bool)
      requires Closed(c.deps) && Inverts(c.deps, c.dependents) && Justified(c.deps, c.restored)
      ensures this.c == c && Init(c, View()) && Ready()
      ensures disk == if c.checkpointing && saved then Some(c.restored) else c.onDisk
    {
      this.c := c;
      running, results := multiset{}, [];
      inDegree := map v | v in c.deps :: |c.deps[v]|;
      status := map v | v in c.deps :: if v in c.restored then c.restored[v] else Pending;
      var alreadyDone := DoneIn(c.restored);
      processed := |alreadyDone|;
      memory := if c.checkpointing then Some(c.restored) else None;
      disk := if c.checkpointing && saved then Some(c.restored) else c.onDisk;
      var queue := SeedQueue(c.deps, alreadyDone);
      tasks := queue;
      dispatched, reported, succeeded := multiset(queue), multiset{}, {};
    }

    method TakeNext()
      requires Ready() && tasks != []
      modifies this`tasks, this`running
      ensures View() == TakeTask(c, old(View()))
    {
      running := running + multiset{tasks[0]};
      tasks := tasks[1..];
    }

    method Report(n: NodeID, st: Status)
      requires Ready() && n in running
      modifies this`running, this`results
      ensures View() == FinishTask(c, old(View()), Scheduler.Report(n, st))
    {
      running := running - multiset{n};
      results := results + [Scheduler.Report(n, st)];
    }

    /** Records a report: its count, its status, and the checkpoint. */
    method ReceiveReport(saved: bool) returns (r: Report)
      requires Shape(c, View()) && results != []
      modifies this`results, this`processed, this`status, this`reported, this`memory, this`disk
      ensures View() == Receive(c, old(View()), saved) && r == old(results[0])
    {
      ghost var s := View();
      r := results[0];
      KnownSender(c, s);
      results := results[1..];
      if status[r.node].Pending? {
        processed := processed + 1;
      }
      status := status[r.node := r.status];
      reported := reported + multiset{r.node};
      if memory.Some? {
        memory := Some(memory.value[r.node := r.status]);
        if saved {
          disk := memory;
        }
      }
      ReceiveIs(c, s, saved, View());
    }

    /** A failure or skip cascades. */
    method SkipDependents(r: Report)
      requires Ready() && r.node in c.deps && (r.status.Failed? || r.status.Skipped?)
      modifies this`status, this`processed
      ensures View() == Spread(c, old(View()), r)
    {
      status, processed := CascadeSkips(c.dependents, status, c.dependents[r.node], processed);
    }

    /** Any other outcome releases the dependents it completes. */
    method ReleaseDependents(r: Report)
      requires Ready() && r.node in c.deps && !(r.status.Failed? || r.status.Skipped?)
      modifies this`inDegree, this`tasks, this`dispatched, this`succeeded
      ensures View() == Spread(c, old(View()), r)
    {
      ghost var sent := Credit(inDegree, c.dependents[r.node]).1;
      inDegree, tasks := CreditAll(inDegree, c.dependents[r.node], tasks);
      dispatched, succeeded := dispatched + multiset(sent), succeeded + {r.node};
    }

    /** One iteration of the coordinator loop. */
    method HandleReport(saved: bool)
      requires Ready() && results != []
      modifies this
      ensures View() == Spread(c, Receive(c, old(View()), saved), old(results[0]))
    {
      var r := ReceiveReport(saved);
      if r.status.Failed? || r.status.Skipped? {
        SkipDependents(r);
      } else {
        ReleaseDependents(r);
      }
    }

    /** The loop of Execute with its ten workers, choosing any enabled step each time.  It
        ends in the statuses every other order would have given, or the coordinator is left
        waiting for a report that cannot come; never the latter from a safe checkpoint. */
    method Run(outcome: NodeID -> Status, saves: NodeID -> bool) returns (blocked: bool)
      requires ValidConfig(c) && Init(c, View()) && Ready()
      requires forall v :: IsReport(outcome(v))
      modifies this
      ensures Inv(c, View()) && Reachable(c, View())
      ensures ResumeSafe(c) ==> !blocked
      ensures SavesWork(saves) && UpToDate(old(View())) ==> UpToDate(View())
      ensures blocked ==> processed < |c.deps| && !CanStep(c, View())
      ensures !blocked ==> processed == |c.deps| && Solves(c, outcome, status)
      ensures !blocked ==> tasks == [] && running == multiset{} && results == []
    {
      InitInv(c, View());
      ReachableStart(c, View());
      while processed < |c.deps| && ((tasks != [] && |running| < WORKERS) || running != multiset{} || results != [])
        invariant Inv(c, View()) && Reachable(c, View()) && Agrees(View(), outcome)
        invariant SavesWork(saves) && UpToDate(old(View())) ==> UpToDate(View())
        decreases 3 * |c.deps| - Work(View())
      {
        Step(outcome, saves);
      }
      blocked := processed < |c.deps|;
      if blocked {
        NobodyMoves(c, View());
      } else {
        Finished(c, View());
        CompletedSolves(c, View(), outcome);
      }
    }

    /** One step of a worker or of the coordinator. */
    method Step(outcome: NodeID -> Status, saves: NodeID -> bool)
      requires ValidConfig(c) && Inv(c, View()) && Reachable(c, View()) && Agrees(View(), outcome)
      requires processed < |c.deps|
      requires (tasks != [] && |running| < WORKERS) || running != multiset{} || results != []
      requires forall v :: IsReport(outcome(v))
      modifies this
      ensures Advanced(c, old(View()), View(), outcome)
      ensures SavesWork(saves) && UpToDate(old(View())) ==> UpToDate(View())
    {
      if
      case tasks != [] && |running| < WORKERS =>
        WorkerTakes(outcome);
      case running != multiset{} =>
        WorkerReports(outcome);
      case results != [] =>
        CoordinatorMoves(outcome, saves);
    }

    method WorkerTakes(outcome: NodeID -> Status)
      requires ValidConfig(c) && Inv(c, View()) && Reachable(c, View()) && Agrees(View(), outcome)
      requires tasks != [] && |running| < WORKERS
      modifies this
      ensures Advanced(c, old(View()), View(), outcome)
      ensures UpToDate(old(View())) ==> UpToDate(View())
    {
      AfterStep(c, View(), Take, outcome);
      TakeNext();
    }

    method WorkerReports(outcome: NodeID -> Status)
      requires ValidConfig(c) && Inv(c, View()) && Reachable(c, View()) && Agrees(View(), outcome)
      requires running != multiset{} && forall v :: IsReport(outcome(v))
      modifies this
      ensures Advanced(c, old(View()), View(), outcome)
      ensures UpToDate(old(View())) ==> UpToDate(View())
    {
      var n :| n in running;
      AfterStep(c, View(), Finish(n, outcome(n)), outcome);
      Report(n, outcome(n));
    }

    method CoordinatorMoves(outcome: NodeID -> Status, saves: NodeID -> bool)
      requires ValidConfig(c) && Inv(c, View()) && Reachable(c, View()) && Agrees(View(), outcome)
      requires results != [] && processed < |c.deps|
      modifies this
      ensures Advanced(c, old(View()), View(), outcome)
      ensures SavesWork(saves) ==> UpToDate(View())
      ensures disk == if memory.Some? && saves(old(results[0].node)) then memory else old(disk)
    {
      var saved := saves(results[0].node);
      AfterReport(c, View(), saved, outcome);
      HandleReport(saved);
    }
  }

  /** A step keeps the invariant, stays on a schedule, and brings the run closer to its end. */
  ghost predicate Advanced(c: Config, s: State, s': State, outcome: NodeID -> Status)
    requires Inverts(c.deps, c.dependents)
  {
    Inv(c, s') && Reachable(c, s') && Agrees(s', outcome) && Work(s) < Work(s') <= 3 * |c.deps|
  }

  /** Handling a report saves the checkpoint as it then is, if there is one and the save works. */
  lemma SavedAfter(c: Config, s: State, saved: bool)
    requires Inverts(c.deps, c.dependents) && Shape(c, s) && s.results != []
    ensures saved ==> UpToDate(Spread(c, Receive(c, s, saved), s.results[0]))
    ensures var s' := Spread(c, Receive(c, s, saved), s.results[0]);
            s'.disk == if s'.memory.Some? && saved then s'.memory else s.disk
  {
  }

  lemma AfterReport(c: Config, s: State, saved: bool, outcome: NodeID -> Status)
    requires ValidConfig(c) && Inv(c, s) && Reachable(c, s) && Agrees(s, outcome)
    requires s.results != [] && s.processed < |c.deps|
    ensures var s' := Spread(c, Receive(c, s, saved), s.results[0]);
            && Advanced(c, s, s', outcome) && (saved ==> UpToDate(s'))
            && s'.disk == if s'.memory.Some? && saved then s'.memory else s.disk
  {
    AfterStep(c, s, Coordinate(saved), outcome);
    SavedAfter(c, s, saved);
  }

  lemma KnownSender(c: Config, s: State)
    requires Shape(c, s) && s.results != []
    ensures s.results[0].node in s.status
  {
  }

  lemma ReceiveIs(c: Config, s: State, saved: bool, s': State)
    requires Shape(c, s) && s.results != []
    requires var r := s.results[0];
             && r.node in s.status
             && s'.results == s.results[1..]
             && s'.processed == (if s.status[r.node].Pending? then s.processed + 1 else s.processed)
             && s'.status == s.status[r.node := r.status]
             && s'.reported == s.reported + multiset{r.node}
             && s'.memory == (if s.memory.Some? then Some(s.memory.value[r.node := r.status]) else None)
             && s'.disk == (if saved && s.memory.Some? then s'.memory else s.disk)
    requires s'.tasks == s.tasks && s'.running == s.running && s'.inDegree == s.inDegree
    requires s'.dispatched == s.dispatched && s'.succeeded == s.succeeded
    ensures s' == Receive(c, s, saved)
  {
  }

  /** With nothing queued, running or waiting the coordinator waits for ever, and from a
      safe checkpoint this does not happen. */
  lemma NobodyMoves(c: Config, s: State)
    requires ValidConfig(c) && Inv(c, s) && s.processed < |c.deps|
    requires !(s.tasks != [] && |s.running| < WORKERS) && s.running == multiset{} && s.results == []
    ensures !CanStep(c, s) && !ResumeSafe(c)
  {
    if ResumeSafe(c) {
      Progress(c, s);
    }
  }

  lemma AfterStep(c: Config, s: State, a: Action, outcome: NodeID -> Status)
    requires ValidConfig(c) && Inv(c, s) && Reachable(c, s) && Enabled(c, s, a) && Agrees(s, outcome)
    requires a.Finish? ==> a.status == outcome(a.node)
    ensures Advanced(c, s, Apply(c, s, a), outcome)
  {
    StepInv(c, s, a);
    ReachableStep(c, s, a);
    StepAgrees(c, s, a, outcome);
    StepWork(c, s, a);
    WorkIsBounded(c, Apply(c, s, a));
  }

  lemma WorkIsBounded(c: Config, s: State)
    requires Inv(c, s)
    ensures Work(s) <= 3 * |c.deps|
  {
    ChannelBounds(c, s);
  }

  lemma Finished(c: Config, s: State)
    requires ValidConfig(c) && Inv(c, s) && s.processed >= |c.deps|
    ensures s.tasks == [] && s.running == multiset{} && s.results == [] && s.processed == |c.deps|
  {
    NothingInFlight(c, s);
    ResultNodesSize(s.results);
  }

  method SeedQueue(deps: Deps, alreadyDone: set<NodeID>) returns (queue: seq<NodeID>)
    ensures Distinct(queue)
    ensures forall v :: v in queue <==> v in deps && deps[v] == [] && v !in alreadyDone
  {
    queue := [];
    var unvisited := deps.Keys;
    while unvisited != {}
      invariant unvisited <= deps.Keys && Distinct(queue)
      invariant forall v :: v in queue <==> v in deps && v !in unvisited && deps[v] == [] && v !in alreadyDone
      decreases unvisited
    {
      var id :| id in unvisited;
      unvisited := unvisited - {id};
      if |deps[id]| == 0 && id !in alreadyDone {
        queue := queue + [id];
      }
    }
  }

  /** `Hanging` is a call that never returns. */
  datatype GraphResult =
    | Rejected(reason: Validation)
    | Completed(status: Status, nodes: map<NodeID, Status>)
    | Hanging

  /** The graph fails exactly when some node failed. */
  method GraphStatus(nodes: map<NodeID, Status>) returns (final: Status)
    ensures final == if FailedIn(nodes) == {} then Success else Failed
  {
    final := Success;
    var unvisited := nodes.Keys;
    while unvisited != {}
      invariant unvisited <= nodes.Keys
      invariant forall v :: v in nodes && v !in unvisited ==> !nodes[v].Failed?
      decreases unvisited
    {
      var id :| id in unvisited;
      unvisited := unvisited - {id};
      if nodes[id].Failed? {
        assert id in FailedIn(nodes);
        return Failed;
      }
    }
  }

  /** Deletes the file after a success and saves the checkpoint in memory after a failure;
      `closes` says whether that works.  Without a checkpoint the file is left alone. */
  method CloseCheckpoint(memory: Option<NodeStates>, disk: Option<NodeStates>, final: Status, closes: bool)
    returns (file: Option<NodeStates>)
    ensures memory.None? || !closes ==> file == disk
    ensures memory.Some? && closes ==> file == if final.Success? then None else memory
  {
    file := disk;
    if memory.Some? {
      if final.Success? {
        if closes {
          file := None;
        }
      } else if closes {
        file := memory;
      }
    }
  }

  lemma ConfigValid(c: Config)
    requires Closed(c.deps) && Acyclic(c.deps) && Inverts(c.deps, c.dependents) && Justified(c.deps, c.restored)
    ensures ValidConfig(c)
  {
  }

  /** What the specification of a run needs to know. */
  ghost function Spec(deps: Deps, restored: NodeStates): Config {
    Config(deps, map[], true, restored, None)
  }

  /** What Execute starts from. */
  datatype Start = Start(deps: Deps, checkpointing: bool, restored: NodeStates, onDisk: Option<NodeStates>)

  /** `t` is reached in a run from `start`, in whatever order the maps were visited. */
  ghost predicate ReachedFrom(start: Start, c: Config, t: State) {
    && c.deps == start.deps && c.checkpointing == start.checkpointing
    && c.restored == start.restored && c.onDisk == start.onDisk
    && ValidConfig(c) && Reachable(c, t)
  }

  lemma FileUntouched(start: Start, c: Config, t: State, file: Option<NodeStates>)
    requires ReachedFrom(start, c, t) && Leaves(c, t, file)
    ensures !start.checkpointing ==> file == start.onDisk
  {
    if !start.checkpointing {
      FileLeftAlone(c, t, file);
    }
  }

  /** If there is a checkpoint and the closing operation works, the file is gone after a success
      and the checkpoint in memory after a failure; otherwise it is as the loop left it. */
  ghost predicate ClosesWith(t: State, closes: bool, file: Option<NodeStates>) {
    if t.memory.None? || !closes then file == t.disk
    else if FailedIn(t.status) == {} then file.None? else file == t.memory
  }

  /** A run of the transition system ends with these statuses, leaving this file. */
  ghost predicate EndsWith(start: Start, nodes: map<NodeID, Status>, closes: bool, file: Option<NodeStates>) {
    exists c, t :: ReachedFrom(start, c, t) && t.processed == |start.deps| && t.status == nodes
                   && Leaves(c, t, file) && ClosesWith(t, closes, file)
  }

  /** A run of the transition system gets stuck with this file. */
  ghost predicate SticksWith(start: Start, file: Option<NodeStates>) {
    exists c, t :: ReachedFrom(start, c, t) && t.processed < |start.deps| && !CanStep(c, t) && t.disk == file
  }

  /** What a completed run leaves on disk.  Without checkpoints, whatever was there.  With
      them, nothing after a success, and after a failure exactly the restored nodes and those
      that ran; if the deletion or last save does not work, what the loop saved last, which is
      the same record if its saves worked. */
  ghost predicate FileFits(start: Start, storage: Storage, status: Status, nodes: map<NodeID, Status>,
                           file: Option<NodeStates>) {
    var record := Some(Recorded(start.deps, start.restored, nodes));
    && (!start.checkpointing ==> file == start.onDisk)
    && (start.checkpointing && storage.closes ==> file == if status.Success? then None else record)
    && (start.checkpointing && !storage.closes && storage.firstSave && SavesWork(storage.saves) ==> file == record)
  }

  /** The answer to an accepted graph: its statuses solve the specification and it fails
      exactly if a node does, or it never comes, which takes an unsafe checkpoint; either
      way the run and its checkpoint file are those of the transition system. */
  ghost predicate Answers(start: Start, outcome: NodeID -> Status, storage: Storage, result: GraphResult,
                          file: Option<NodeStates>) {
    match result
    case Rejected(_) => false
    case Completed(status, nodes) =>
      && Solves(Spec(start.deps, start.restored), outcome, nodes)
      && status == (if FailedIn(nodes) == {} then Success else Failed)
      && EndsWith(start, nodes, storage.closes, file) && FileFits(start, storage, status, nodes, file)
    case Hanging =>
      && SticksWith(start, file) && !SafeToResume(start.deps, start.restored)
      && (!start.checkpointing ==> file == start.onDisk)
  }

  lemma FileOfCompleted(start: Start, storage: Storage, c: Config, t: State, status: Status,
                        file: Option<NodeStates>)
    requires ReachedFrom(start, c, t) && Inv(c, t) && t.processed == |start.deps|
    requires status == if FailedIn(t.status) == {} then Success else Failed
    requires start.checkpointing && storage.firstSave && SavesWork(storage.saves) ==> t.disk == t.memory
    requires ClosesWith(t, storage.closes, file)
    ensures Leaves(c, t, file) && FileFits(start, storage, status, t.status, file)
  {
    FileUntouched(start, c, t, t.disk);
    if start.checkpointing {
      CompletedMemory(c, t);
    }
  }

  lemma CompletedAnswers(start: Start, outcome: NodeID -> Status, storage: Storage, c: Config, t: State,
                         status: Status, file: Option<NodeStates>)
    requires ReachedFrom(start, c, t) && t.processed == |start.deps| && Leaves(c, t, file)
    requires ClosesWith(t, storage.closes, file)
    requires Solves(c, outcome, t.status) && status == (if FailedIn(t.status) == {} then Success else Failed)
    requires FileFits(start, storage, status, t.status, file)
    ensures Answers(start, outcome, storage, Completed(status, t.status), file)
  {
    SolvesIgnoresOrder(c, Spec(start.deps, start.restored), outcome, t.status);
  }

  lemma HangingAnswers(start: Start, outcome: NodeID -> Status, storage: Storage, c: Config, t: State)
    requires ReachedFrom(start, c, t) && t.processed < |start.deps| && !CanStep(c, t) && !ResumeSafe(c)
    ensures Answers(start, outcome, storage, Hanging, t.disk)
  {
    FileUntouched(start, c, t, t.disk);
  }

  /** Restores the statuses and runs the loop. */
  method RunLoop(start: Start, outcome: NodeID -> Status, storage: Storage)
    returns (blocked: bool, nodes: map<NodeID, Status>, memory: Option<NodeStates>, disk: Option<NodeStates>,
             ghost c: Config, ghost t: State)
    requires forall v :: IsReport(outcome(v))
    requires Closed(start.deps) && Acyclic(start.deps) && Justified(start.deps, start.restored)
    ensures nodes == t.status && memory == t.memory && disk == t.disk
    ensures ReachedFrom(start, c, t) && Inv(c, t)
    ensures start.checkpointing && storage.firstSave && SavesWork(storage.saves) ==> disk == memory
    ensures blocked ==> t.processed < |start.deps| && !CanStep(c, t) && !ResumeSafe(c)
    ensures !blocked ==> t.processed == |start.deps| && Solves(c, outcome, nodes)
  {
    var _, dependents, _ := InvertEdges(start.deps);
    var config := Config(start.deps, dependents, start.checkpointing, start.restored, start.onDisk);
    ConfigValid(config);
    var co := new Coordinator(config, storage.firstSave);
    blocked := co.Run(outcome, storage.saves);
    nodes, memory, disk, c, t := co.status, co.memory, co.disk, config, co.View();
  }

  /** Execute on an accepted graph: restore, run, aggregate, close the checkpoint. */
  method ExecuteNodes(start: Start, outcome: NodeID -> Status, storage: Storage)
    returns (result: GraphResult, file: Option<NodeStates>)
    requires forall v :: IsReport(outcome(v))
    requires Closed(start.deps) && Acyclic(start.deps) && Justified(start.deps, start.restored)
    ensures Answers(start, outcome, storage, result, file)
  {
    var blocked, nodes, memory, disk;
    ghost var c, t;
    blocked, nodes, memory, disk, c, t := RunLoop(start, outcome, storage);
    if blocked {
      HangingAnswers(start, outcome, storage, c, t);
      return Hanging, disk;
    }
    var final := GraphStatus(nodes);
    file := CloseCheckpoint(memory, disk, final, storage.closes);
    FileOfCompleted(start, storage, c, t, final, file);
    CompletedAnswers(start, outcome, storage, c, t, final, file);
    result := Completed(final, nodes);
  }

  ghost predicate Runnable(g: ExecutionGraph)
    reads g, g.nodes.Values
  {
    g.NonNil() && Closed(g.Deps()) && Acyclic(g.Deps()) && g.EntriesFit() && g.ExitsFit()
  }

  method Check(g: ExecutionGraph) returns (reason: Validation)
    ensures reason.Valid? <==> Runnable(g)
    ensures g.Explains(reason)
  {
    ghost var cycle;
    reason, cycle := g.Validate();
  }

  /** Execute: a graph that Validate rejects is not run; any other is run to its end, unless
      the checkpoint was not safe to resume and the coordinator is left waiting. */
  method Execute(g: ExecutionGraph, checkpointing: bool, restored: NodeStates, onDisk: Option<NodeStates>,
                 outcome: NodeID -> Status, storage: Storage)
    returns (result: GraphResult, file: Option<NodeStates>)
    requires forall v :: IsReport(outcome(v))
    requires g.NonNil() ==> Justified(g.Deps(), restored)
    ensures result.Rejected? <==> !old(Runnable(g))
    ensures result.Rejected? ==> file == onDisk && g.Explains(result.reason) && !result.reason.Valid?
    ensures result.Rejected? ||
              Answers(Start(old(g.Deps()), checkpointing, restored, onDisk), outcome, storage, result, file)
  {
    var reason := Check(g);
    if !reason.Valid? {
      return Rejected(reason), onDisk;
    }
    var deps := g.Deps();
    assert deps == old(g.Deps());
    result, file := ExecuteNodes(Start(deps, checkpointing, restored, onDisk), outcome, storage);
  }
}
