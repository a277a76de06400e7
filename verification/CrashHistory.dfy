/** Checkpoint safety down to the file system: every save of every run is a write and a
    rename, a process may die between any two of their effects, and the next one starts
    from whatever the directory then holds. */
module CrashHistory {
  import opened Wrappers
  import opened Graphs
  import opened Readiness
  import opened Scheduler
  import opened SchedulerInvariant
  import opened SchedulerTheorems
  import opened CheckpointFile
  import opened CheckpointSafety

  /** The directory, the cluster and the pipeline whose file is meant. */
  datatype Place = Place(dir: string, cluster: string, pipeline: string)

  ghost function At(place: Place): (path: Path)
    ensures path.parts != []
  {
    TmpIsNoCheckpoint(place.dir, place.cluster, place.pipeline, place.cluster, place.pipeline);
    CheckpointPath(place.dir, place.cluster, place.pipeline)
  }

  type Disk = Files<NodeStates>

  /** The pipeline's file is missing or whole, and says `states`. */
  ghost predicate Shows(files: Disk, place: Place, states: Option<NodeStates>) {
    Load(files, At(place)) == if states.Some? then Found(states.value) else Absent
  }

  /** A save that got as far as its `k`-th effect; only the last one is the rename. */
  ghost function Saved(files: Disk, place: Place, states: NodeStates, k: nat): Disk
    requires k <= 3
  {
    Stage(files, At(place), states, k)
  }

  lemma SavedShows(files: Disk, place: Place, before: Option<NodeStates>, states: NodeStates, k: nat)
    requires k <= 3 && Shows(files, place, before)
    ensures Shows(Saved(files, place, states, k), place, if k == 3 then Some(states) else before)
  {
    SaveIsAtomic(files, place.dir, place.cluster, place.pipeline, states, k);
  }

  // ----- One run on the file system ---------------------------------------------------

  /** An action, and how far the save it makes, if any, gets. */
  datatype Step = Step(action: Action, effects: nat)

  /** The directory after one step: handling a report saves the checkpoint in memory. */
  ghost function DiskAfter(files: Disk, place: Place, after: State, step: Step): Disk
    requires step.effects <= 3
  {
    if step.action.Coordinate? && after.memory.Some? then Saved(files, place, after.memory.value, step.effects)
    else files
  }

  /** A run from `s` and `files` to `t` and `end`; a save takes effect with its rename. */
  ghost predicate Course(c: Config, place: Place, s: State, files: Disk, steps: seq<Step>, t: State, end: Disk)
    requires Inverts(c.deps, c.dependents) && Shape(c, s)
    decreases |steps|
  {
    if steps == [] then t == s && end == files
    else
      var step := steps[0];
      && Enabled(c, s, step.action) && step.effects <= 3
      && (step.action.Coordinate? ==> step.action.saved == (step.effects == 3))
      && var next := Apply(c, s, step.action);
         Course(c, place, next, DiskAfter(files, place, next, step), steps[1..], t, end)
  }

  lemma StepShows(c: Config, place: Place, s: State, files: Disk, step: Step)
    requires Inverts(c.deps, c.dependents) && Shape(c, s) && Enabled(c, s, step.action) && step.effects <= 3
    requires step.action.Coordinate? ==> step.action.saved == (step.effects == 3)
    requires Shows(files, place, s.disk)
    ensures Shows(DiskAfter(files, place, Apply(c, s, step.action), step), place, Apply(c, s, step.action).disk)
  {
    var next := Apply(c, s, step.action);
    if step.action.Coordinate? && next.memory.Some? {
      SavedShows(files, place, s.disk, next.memory.value, step.effects);
    }
  }

  /** A run on the file system is a run of the executor, and the directory shows what the
      executor's state says is on disk. */
  lemma {:induction false} CourseShows(c: Config, place: Place, s: State, files: Disk, steps: seq<Step>, t: State,
                                       end: Disk)
    requires Inverts(c.deps, c.dependents) && Shape(c, s) && Reachable(c, s)
    requires Shows(files, place, s.disk) && Course(c, place, s, files, steps, t, end)
    ensures Reachable(c, t) && Shows(end, place, t.disk)
    decreases |steps|
  {
    if steps != [] {
      var step := steps[0];
      var next := Apply(c, s, step.action);
      ReachableStep(c, s, step.action);
      StepShows(c, place, s, files, step);
      CourseShows(c, place, next, DiskAfter(files, place, next, step), steps[1..], t, end);
    }
  }

  // ----- One process -------------------------------------------------------------------

  /** How a process ends: it dies in its loop, or it finished and then deletes the file, or
      saves once more and gets as far as the `effects`-th effect, or does neither. */
  datatype Ending = Dies | Deletes | SavesAgain(effects: nat)

  /** A process: what it read, the first save, its run, and its end. */
  datatype Process = Process(
    c: Config,
    loaded: bool,
    before: Disk,
    firstSave: nat,
    start: State,
    steps: seq<Step>,
    last: State,
    end: Disk,
    ending: Ending,
    after: Disk)

  ghost predicate Begins(deps: Deps, place: Place, p: Process) {
    && p.c.deps == deps && Inverts(deps, p.c.dependents) && p.c.checkpointing
    && Shows(p.before, place, p.c.onDisk)
    && p.c.restored == (if p.loaded && p.c.onDisk.Some? then p.c.onDisk.value else map[])
    && p.firstSave <= 3 && Init(p.c, p.start) && Shape(p.c, p.start)
    && p.start.disk == (if p.firstSave == 3 then Some(p.c.restored) else p.c.onDisk)
  }

  ghost predicate Ends(place: Place, p: Process) {
    match p.ending
    case Dies => p.after == p.end
    case Deletes =>
      p.last.processed >= |p.c.deps| && FailedIn(p.last.status) == {} && p.after == p.end - {At(place)}
    case SavesAgain(k) =>
      && p.last.processed >= |p.c.deps| && FailedIn(p.last.status) != {} && k <= 3
      && p.last.memory.Some? && p.after == Saved(p.end, place, p.last.memory.value, k)
  }

  ghost predicate Lives(deps: Deps, place: Place, p: Process) {
    && Begins(deps, place, p)
    && Course(p.c, place, p.start, Saved(p.before, place, p.c.restored, p.firstSave), p.steps, p.last, p.end)
    && Ends(place, p)
  }

  /** What the file says when the process is gone. */
  ghost function Left(place: Place, p: Process): Option<NodeStates> {
    if Load(p.after, At(place)).Found? then Some(Load(p.after, At(place)).value) else None
  }

  ghost function AsGeneration(place: Place, p: Process): Generation {
    Generation(p.c, p.loaded, p.last, Left(place, p))
  }

  lemma ShowsLeft(place: Place, p: Process, states: Option<NodeStates>)
    requires Shows(p.after, place, states)
    ensures Left(place, p) == states
  {
  }

  lemma EndShows(place: Place, p: Process)
    requires Shows(p.end, place, p.last.disk) && Ends(place, p) && p.c.checkpointing
    ensures Shows(p.after, place, Left(place, p)) && Leaves(p.c, p.last, Left(place, p))
  {
    match p.ending
    case Dies =>
      ShowsLeft(place, p, p.last.disk);
    case Deletes =>
      ShowsLeft(place, p, None);
    case SavesAgain(k) =>
      SavedShows(p.end, place, p.last.disk, p.last.memory.value, k);
      ShowsLeft(place, p, if k == 3 then p.last.memory else p.last.disk);
  }

  /** A process on the file system is a generation, and leaves no torn file behind. */
  lemma ProcessFollows(deps: Deps, place: Place, p: Process)
    requires Lives(deps, place, p)
    ensures Shows(p.after, place, Left(place, p))
    ensures Follows(deps, p.c.onDisk, AsGeneration(place, p))
  {
    ReachableStart(p.c, p.start);
    SavedShows(p.before, place, p.c.onDisk, p.c.restored, p.firstSave);
    CourseShows(p.c, place, p.start, Saved(p.before, place, p.c.restored, p.firstSave), p.steps, p.last, p.end);
    EndShows(place, p);
  }

  // ----- Processes one after the other --------------------------------------------------

  /** The first process finds no checkpoint; each later one finds the file as the one
      before left it, whatever happened to other files meanwhile. */
  ghost predicate Lifetimes(deps: Deps, place: Place, ps: seq<Process>) {
    && (forall i :: 0 <= i < |ps| ==> Lives(deps, place, ps[i]))
    && (|ps| > 0 ==> Load(ps[0].before, At(place)) == Absent)
    && (forall i :: 0 < i < |ps| ==> FileKept(place, ps[i - 1], ps[i]))
  }

  ghost predicate FileKept(place: Place, earlier: Process, later: Process) {
    Load(later.before, At(place)) == Load(earlier.after, At(place))
  }

  ghost function Generations(place: Place, ps: seq<Process>): (gens: seq<Generation>)
    ensures |gens| == |ps|
  {
    seq(|ps|, i requires 0 <= i < |ps| => AsGeneration(place, ps[i]))
  }

  lemma FoundBefore(deps: Deps, place: Place, ps: seq<Process>, i: nat)
    requires Lifetimes(deps, place, ps) && i < |ps|
    ensures ps[i].c.onDisk == Before(Generations(place, ps), i)
  {
    assert Lives(deps, place, ps[i]);
    assert Shows(ps[i].before, place, ps[i].c.onDisk);
    if i > 0 {
      assert Lives(deps, place, ps[i - 1]);
      ProcessFollows(deps, place, ps[i - 1]);
      assert FileKept(place, ps[i - 1], ps[i]);
    }
  }

  lemma LifetimesAreHistory(deps: Deps, place: Place, ps: seq<Process>)
    requires Lifetimes(deps, place, ps)
    ensures History(deps, Generations(place, ps))
  {
    var gens := Generations(place, ps);
    forall i | 0 <= i < |gens| ensures Follows(deps, Before(gens, i), gens[i]) {
      assert Lives(deps, place, ps[i]);
      ProcessFollows(deps, place, ps[i]);
      FoundBefore(deps, place, ps, i);
    }
  }

  /** However many processes died, at whichever effect of whichever save: the pipeline's
      file is never torn, and it records a node only with all its dependencies recorded
      Success. */
  lemma FileAlwaysGood(deps: Deps, place: Place, ps: seq<Process>, i: nat)
    requires Closed(deps) && Acyclic(deps) && Lifetimes(deps, place, ps) && i < |ps|
    ensures !Load(ps[i].after, At(place)).Unreadable?
    ensures Load(ps[i].after, At(place)).Found? ==> Justified(deps, Load(ps[i].after, At(place)).value)
  {
    LifetimesAreHistory(deps, place, ps);
    HistoryJustified(deps, Generations(place, ps), i);
    assert Lives(deps, place, ps[i]);
    ProcessFollows(deps, place, ps[i]);
  }

  /** A node that the file of some process records as done is dispatched by no later one,
      as long as the file is there and is read. */
  lemma RecordedNodeStaysDone(deps: Deps, place: Place, ps: seq<Process>, i: nat, j: nat, v: NodeID)
    requires Closed(deps) && Acyclic(deps) && Lifetimes(deps, place, ps) && i < j < |ps|
    requires forall k :: i <= k < j ==> Left(place, ps[k]).Some?
    requires forall k :: i < k <= j ==> ps[k].loaded
    requires v in DoneIn(Left(place, ps[i]).value)
    ensures v !in ps[j].last.dispatched
  {
    LifetimesAreHistory(deps, place, ps);
    var gens := Generations(place, ps);
    forall k | i <= k < j ensures gens[k].after.Some? {
      assert Left(place, ps[k]).Some?;
    }
    forall k | i < k <= j ensures gens[k].loaded {
      assert ps[k].loaded;
    }
    DoneNeverRedispatched(deps, gens, i, j, v);
  }
}
