/** The executor as a transition system: one coordinator, ten workers and two
    buffered channels, under arbitrary interleaving.  A run may start from a
    checkpoint; a fresh run is one whose `restored` map is empty. */
module Scheduler {
  import opened Sequences
  import opened Wrappers
  import opened Graphs
  import opened Readiness
  import opened PlanResult

  const WORKERS: nat := 10

  /** The node states of a checkpoint: one status for every node that reported. */
  type NodeStates = map<NodeID, Status>

  // ----- Cascading a failure or skip --------------------------------------------

  function PendingSet(status: map<NodeID, Status>): set<NodeID> {
    set v | v in status && status[v].Pending?
  }

  /** The breadth-first skip worklist: a pending node is skipped, counted, and
      its dependents are appended; any other node is dropped. */
  function Cascade(dependents: map<NodeID, seq<NodeID>>, status: map<NodeID, Status>, queue: seq<NodeID>)
    : (r: (map<NodeID, Status>, nat))
    requires dependents.Keys == status.Keys
    requires forall u, v :: u in dependents && v in dependents[u] ==> v in dependents
    requires forall v :: v in queue ==> v in dependents
    ensures r.0.Keys == status.Keys
    decreases |PendingSet(status)|, |queue|
  {
    if queue == [] then (status, 0)
    else if status[queue[0]].Pending? then
      var next := status[queue[0] := Skipped];
      assert PendingSet(next) == PendingSet(status) - {queue[0]};
      var rest := Cascade(dependents, next, queue[1..] + dependents[queue[0]]);
      (rest.0, rest.1 + 1)
    else Cascade(dependents, status, queue[1..])
  }

  /** What the worklist leaves behind: only pending nodes change, they become
      Skipped, and the counter grows by their number. */
  lemma {:induction false} CascadeFrame(dependents: map<NodeID, seq<NodeID>>, status: map<NodeID, Status>,
                                        queue: seq<NodeID>)
    requires dependents.Keys == status.Keys
    requires forall u, v :: u in dependents && v in dependents[u] ==> v in dependents
    requires forall v :: v in queue ==> v in dependents
    ensures var r := Cascade(dependents, status, queue);
            && (forall v :: v in status ==> r.0[v] == status[v] || (status[v].Pending? && r.0[v].Skipped?))
            && r.1 + |PendingSet(r.0)| == |PendingSet(status)|
    decreases |PendingSet(status)|, |queue|
  {
    if queue != [] {
      if status[queue[0]].Pending? {
        var next := status[queue[0] := Skipped];
        assert PendingSet(next) == PendingSet(status) - {queue[0]};
        CascadeFrame(dependents, next, queue[1..] + dependents[queue[0]]);
      } else {
        CascadeFrame(dependents, status, queue[1..]);
      }
    }
  }

  /** Nothing downstream of the worklist stays pending. */
  lemma {:induction false} CascadeCloses(dependents: map<NodeID, seq<NodeID>>, status: map<NodeID, Status>,
                                         queue: seq<NodeID>)
    requires dependents.Keys == status.Keys
    requires forall u, v :: u in dependents && v in dependents[u] ==> v in dependents
    requires forall v :: v in queue ==> v in dependents
    ensures var r := Cascade(dependents, status, queue).0;
            && (forall v :: v in queue ==> !r[v].Pending?)
            && (forall u, v :: u in status && status[u] != r[u] && v in dependents[u] ==> !r[v].Pending?)
    decreases |PendingSet(status)|, |queue|
  {
    if queue != [] {
      var x := queue[0];
      assert forall v :: v in queue ==> v == x || v in queue[1..];
      if status[x].Pending? {
        var next := status[x := Skipped];
        assert PendingSet(next) == PendingSet(status) - {x};
        var longer := queue[1..] + dependents[x];
        CascadeCloses(dependents, next, longer);
        CascadeFrame(dependents, next, longer);
        var r := Cascade(dependents, status, queue).0;
        assert r == Cascade(dependents, next, longer).0;
        forall v | v in queue ensures !r[v].Pending? {
          assert v != x ==> v in longer;
        }
        forall u, v | u in status && status[u] != r[u] && v in dependents[u] ensures !r[v].Pending? {
          if u == x {
            assert v in longer;
          } else {
            assert next[u] != r[u];
          }
        }
      } else {
        CascadeCloses(dependents, status, queue[1..]);
        CascadeFrame(dependents, status, queue[1..]);
      }
    }
  }

  /** Every skipped node was on the worklist or hangs below another skipped node. */
  lemma {:induction false} CascadeJustified(dependents: map<NodeID, seq<NodeID>>, status: map<NodeID, Status>,
                                            queue: seq<NodeID>, v: NodeID)
    returns (u: NodeID)
    requires dependents.Keys == status.Keys
    requires forall u, v :: u in dependents && v in dependents[u] ==> v in dependents
    requires forall v :: v in queue ==> v in dependents
    requires v in status && Cascade(dependents, status, queue).0[v] != status[v]
    ensures v in queue ||
            (u in status && v in dependents[u] && status[u].Pending?
             && Cascade(dependents, status, queue).0[u].Skipped?)
    decreases |PendingSet(status)|, |queue|
  {
    var x := queue[0];
    u := x;
    if status[x].Pending? {
      var next := status[x := Skipped];
      assert PendingSet(next) == PendingSet(status) - {x};
      var longer := queue[1..] + dependents[x];
      CascadeFrame(dependents, next, longer);
      if v != x {
        u := CascadeJustified(dependents, next, longer, v);
        if v in longer {
          u := x;
          assert v in queue[1..] || v in dependents[x];
        }
      }
    } else {
      u := CascadeJustified(dependents, status, queue[1..], v);
    }
  }

  // ----- States -----------------------------------------------------------------

  /** What a run is started with.  `dependents` inverts `deps`, in the order the
      map iteration happened to visit the nodes; `restored` holds the node states
      of the loaded checkpoint and `onDisk` what the checkpoint file held. */
  datatype Config = Config(
    deps: Deps,
    dependents: map<NodeID, seq<NodeID>>,
    checkpointing: bool,
    restored: NodeStates,
    onDisk: Option<NodeStates>)

  datatype Report = Report(node: NodeID, status: Status)

  /** `dispatched`, `reported` and `succeeded` are history: the nodes ever sent to
      the workers, ever received back, and received back with Success. */
  datatype State = State(
    tasks: seq<NodeID>,
    running: multiset<NodeID>,
    results: seq<Report>,
    inDegree: map<NodeID, int>,
    status: map<NodeID, Status>,
    processed: nat,
    memory: Option<NodeStates>,
    disk: Option<NodeStates>,
    dispatched: multiset<NodeID>,
    reported: multiset<NodeID>,
    succeeded: set<NodeID>)

  /** Recorded as finished for good: never to be run again. */
  predicate DoneStatus(st: Status) {
    st.Success? || st.Skipped?
  }

  function DoneIn(states: NodeStates): set<NodeID> {
    set v | v in states && DoneStatus(states[v])
  }

  /** A node is recorded only after all its dependencies are recorded Success. */
  ghost predicate Justified(deps: Deps, states: NodeStates) {
    && states.Keys <= deps.Keys
    && (forall v :: v in states ==> IsReport(states[v]))
    && (forall v, d :: v in states && d in deps[v] ==> d in states && states[d].Success?)
  }

  ghost predicate ValidConfig(c: Config) {
    && Closed(c.deps) && Acyclic(c.deps)
    && Inverts(c.deps, c.dependents)
    && Justified(c.deps, c.restored)
  }

  /** Key sets agree and no channel mentions an unknown node. */
  ghost predicate Shape(c: Config, s: State) {
    && s.inDegree.Keys == c.deps.Keys
    && s.status.Keys == c.deps.Keys
    && (forall v :: v in s.tasks ==> v in c.deps)
    && (forall v :: v in s.running ==> v in c.deps)
    && (forall i :: 0 <= i < |s.results| ==> s.results[i].node in c.deps)
  }

  /** The state in which the coordinator enters its loop: the nodes without
      dependencies that are not already done are queued, in any order. */
  ghost predicate Init(c: Config, s: State) {
    && Distinct(s.tasks)
    && (forall v :: v in s.tasks <==> v in c.deps && c.deps[v] == [] && v !in DoneIn(c.restored))
    && s.running == multiset{} && s.results == []
    && s.inDegree == (map v | v in c.deps :: |c.deps[v]|)
    && s.status == (map v | v in c.deps :: if v in c.restored then c.restored[v] else Pending)
    && s.processed == |DoneIn(c.restored)|
    && s.memory == (if c.checkpointing then Some(c.restored) else None)
    && (s.disk == c.onDisk || (c.checkpointing && s.disk == Some(c.restored)))
    && s.dispatched == multiset(s.tasks) && s.reported == multiset{} && s.succeeded == {}
  }

  // ----- Steps ------------------------------------------------------------------

  /** A worker takes a task; a worker reports; the coordinator handles one report
      and saves the checkpoint, which may fail. */
  datatype Action = Take | Finish(node: NodeID, status: Status) | Coordinate(saved: bool)

  ghost predicate Enabled(c: Config, s: State, a: Action) {
    match a
    case Take => s.tasks != [] && |s.running| < WORKERS
    case Finish(n, st) => n in s.running && IsReport(st)
    case Coordinate(_) => s.results != [] && s.processed < |c.deps|
  }

  ghost function Receive(c: Config, s: State, saved: bool): (s': State)
    requires Shape(c, s) && s.results != []
    ensures Shape(c, s')
  {
    var r := s.results[0];
    assert r.node in c.deps;
    var memory := if s.memory.Some? then Some(s.memory.value[r.node := r.status]) else None;
    s.(results := s.results[1..],
       processed := if s.status[r.node].Pending? then s.processed + 1 else s.processed,
       status := s.status[r.node := r.status],
       memory := memory,
       disk := if saved && memory.Some? then memory else s.disk,
       reported := s.reported + multiset{r.node})
  }

  ghost function Spread(c: Config, s: State, r: Report): (s': State)
    requires Inverts(c.deps, c.dependents) && Shape(c, s) && r.node in c.deps
    ensures Shape(c, s')
  {
    if r.status.Failed? || r.status.Skipped? then
      var cascade := Cascade(c.dependents, s.status, c.dependents[r.node]);
      s.(status := cascade.0, processed := s.processed + cascade.1)
    else
      var credit := Credit(s.inDegree, c.dependents[r.node]);
      s.(inDegree := credit.0, tasks := s.tasks + credit.1,
         dispatched := s.dispatched + multiset(credit.1), succeeded := s.succeeded + {r.node})
  }

  ghost function TakeTask(c: Config, s: State): (s': State)
    requires Shape(c, s) && s.tasks != []
    ensures Shape(c, s')
  {
    s.(tasks := s.tasks[1..], running := s.running + multiset{s.tasks[0]})
  }

  ghost function FinishTask(c: Config, s: State, r: Report): (s': State)
    requires Shape(c, s) && r.node in s.running
    ensures Shape(c, s')
  {
    s.(running := s.running - multiset{r.node}, results := s.results + [r])
  }

  ghost function Apply(c: Config, s: State, a: Action): (s': State)
    requires Inverts(c.deps, c.dependents) && Shape(c, s) && Enabled(c, s, a)
    ensures Shape(c, s')
  {
    match a
    case Take => TakeTask(c, s)
    case Finish(n, st) => FinishTask(c, s, Report(n, st))
    case Coordinate(saved) => Spread(c, Receive(c, s, saved), s.results[0])
  }

  /** `acts` is a schedule: every action is enabled when its turn comes. */
  ghost predicate Schedule(c: Config, s: State, acts: seq<Action>)
    requires Inverts(c.deps, c.dependents) && Shape(c, s)
    decreases |acts|
  {
    acts == [] || (Enabled(c, s, acts[0]) && Schedule(c, Apply(c, s, acts[0]), acts[1..]))
  }

  ghost function After(c: Config, s: State, acts: seq<Action>): (s': State)
    requires Inverts(c.deps, c.dependents) && Shape(c, s) && Schedule(c, s, acts)
    ensures Shape(c, s')
    decreases |acts|
  {
    if acts == [] then s else After(c, Apply(c, s, acts[0]), acts[1..])
  }

  ghost predicate CanStep(c: Config, s: State) {
    exists a :: Enabled(c, s, a)
  }
}
