/** From planner to executor: linking the exits of one fragment to the entries of
    the next makes a barrier that the executor cannot cross early. */
module PhaseBarrier {
  import opened Graphs
  import opened NodeOrder
  import opened ExecutionGraphs
  import opened PlanResult
  import opened Scheduler
  import opened SchedulerTheorems
  import opened ScheduleIndependence

  // ----- Every node lies below an exit and above an entry ---------------------------

  lemma {:induction false} BelowAnExit(g: Deps, rank: map<NodeID, nat>, bound: nat, x: NodeID) returns (e: NodeID)
    requires Ranks(g, rank) && x in g
    requires forall v :: v in g.Keys ==> rank[v] < bound
    ensures e in Exits(g) && (e == x || DependsOn(g, e, x))
    decreases bound - rank[x]
  {
    e := x;
    if HasDependent(g, x) {
      var v :| v in g && x in g[v];
      DependsOnStep(g, v, x, x);
      e := BelowAnExit(g, rank, bound, v);
      if e != v {
        DependsOnTrans(g, e, v, x);
      }
    }
  }

  lemma {:induction false} AboveAnEntry(g: Deps, rank: map<NodeID, nat>, y: NodeID) returns (r: NodeID)
    requires Ranks(g, rank) && y in g
    ensures r in InnerRoots(g) && (r == y || DependsOn(g, y, r))
    decreases rank[y]
  {
    r := y;
    if d :| d in g[y] && d in g {
      r := AboveAnEntry(g, rank, d);
      DependsOnStep(g, y, d, r);
    }
  }

  // ----- Two fragments ------------------------------------------------------------

  /** A planned fragment: acyclic, self-contained, not empty, with its entry and exit
      lists calculated. */
  datatype Fragment = Fragment(g: Deps, entries: seq<NodeID>, exits: seq<NodeID>)

  ghost predicate Planned(f: Fragment) {
    && Closed(f.g) && Acyclic(f.g) && f.g != map[]
    && Lists(f.entries, InnerRoots(f.g)) && Lists(f.exits, Exits(f.g))
  }

  /** The graph after merging `b` into `a` and linking `a`'s exits to `b`'s entries. */
  ghost function Joined(a: Deps, exits: seq<NodeID>, b: Fragment): (h: Deps)
    requires Planned(b)
    ensures h.Keys == a.Keys + b.g.Keys
  {
    Linked(a + b.g, exits, b.entries)
  }

  ghost predicate Joinable(a: Deps, exits: seq<NodeID>, b: Fragment) {
    && Closed(a) && Acyclic(a) && Planned(b) && a.Keys !! b.g.Keys
    && forall e :: e in exits <==> e in Exits(a)
  }

  /** The edges of the joined graph. */
  lemma JoinedEdges(a: Deps, exits: seq<NodeID>, b: Fragment, v: NodeID, d: NodeID)
    requires Joinable(a, exits, b) && v in a.Keys + b.g.Keys
    ensures v in a ==> (d in Joined(a, exits, b)[v] <==> d in a[v])
    ensures v in b.g ==> (d in Joined(a, exits, b)[v] <==> d in b.g[v] || (v in InnerRoots(b.g) && d in Exits(a)))
  {
    LinkedMember(a + b.g, exits, b.entries, v, d);
  }

  lemma JoinedClosed(a: Deps, exits: seq<NodeID>, b: Fragment)
    requires Joinable(a, exits, b)
    ensures Closed(Joined(a, exits, b))
  {
    var h := Joined(a, exits, b);
    forall v, d | v in h && d in h[v] ensures d in h {
      JoinedEdges(a, exits, b, v, d);
    }
  }

  lemma JoinedAcyclic(a: Deps, exits: seq<NodeID>, b: Fragment)
    requires Joinable(a, exits, b)
    ensures Acyclic(Joined(a, exits, b))
  {
    var h := Joined(a, exits, b);
    var low :| Ranks(a, low);
    var high :| Ranks(b.g, high);
    var bound := RankBound(low, a.Keys);
    var rank := Stacked(a, low, bound, b.g, high);
    forall v, d | v in h && d in h[v] ensures d in rank && rank[d] < rank[v] {
      JoinedEdges(a, exits, b, v, d);
      StackedRises(a, low, bound, b.g, high, v, d);
    }
    assert Ranks(h, rank);
  }

  /** The ranks of `b` on top of those of `a`. */
  ghost function Stacked(a: Deps, low: map<NodeID, nat>, bound: nat, b: Deps, high: map<NodeID, nat>): map<NodeID, nat>
    requires a.Keys <= low.Keys && b.Keys <= high.Keys
  {
    map v | v in a.Keys + b.Keys :: if v in a then low[v] else bound + high[v]
  }

  lemma StackedRises(a: Deps, low: map<NodeID, nat>, bound: nat, b: Deps, high: map<NodeID, nat>, v: NodeID, d: NodeID)
    requires Closed(a) && Closed(b) && Ranks(a, low) && Ranks(b, high) && a.Keys !! b.Keys
    requires forall x :: x in a.Keys ==> low[x] < bound
    requires (v in a && d in a[v]) || (v in b && (d in b[v] || d in a))
    ensures var rank := Stacked(a, low, bound, b, high); d in rank && v in rank && rank[d] < rank[v]
  {
  }

  lemma JoinedKeepsPaths(a: Deps, exits: seq<NodeID>, b: Fragment, y: NodeID, x: NodeID)
    requires Joinable(a, exits, b)
    ensures DependsOn(a, y, x) ==> DependsOn(Joined(a, exits, b), y, x)
    ensures DependsOn(b.g, y, x) ==> DependsOn(Joined(a, exits, b), y, x)
  {
    var h := Joined(a, exits, b);
    forall v, d | v in a && d in a[v] ensures d in h[v] {
      JoinedEdges(a, exits, b, v, d);
    }
    forall v, d | v in b.g && d in b.g[v] ensures d in h[v] {
      JoinedEdges(a, exits, b, v, d);
    }
    if DependsOn(a, y, x) {
      DependsOnMono(a, h, y, x);
    }
    if DependsOn(b.g, y, x) {
      DependsOnMono(b.g, h, y, x);
    }
  }

  /** The barrier: every node of the first part is a dependency of every node of the
      second. */
  lemma JoinedBarrier(a: Deps, exits: seq<NodeID>, b: Fragment, x: NodeID, y: NodeID)
    requires Joinable(a, exits, b) && x in a && y in b.g
    ensures DependsOn(Joined(a, exits, b), y, x)
  {
    var h := Joined(a, exits, b);
    var low :| Ranks(a, low);
    var high :| Ranks(b.g, high);
    var bound := RankBound(low, a.Keys);
    var e := BelowAnExit(a, low, bound, x);
    var r := AboveAnEntry(b.g, high, y);
    JoinedEdges(a, exits, b, r, e);
    JoinedKeepsPaths(a, exits, b, e, x);
    DependsOnStep(h, r, e, x);
    if y != r {
      JoinedKeepsPaths(a, exits, b, y, r);
      DependsOnTrans(h, y, r, x);
    }
  }

  lemma HasEntry(b: Fragment) returns (r: NodeID)
    requires Planned(b)
    ensures r in InnerRoots(b.g)
  {
    var y :| y in b.g;
    var high :| Ranks(b.g, high);
    r := AboveAnEntry(b.g, high, y);
  }

  /** The exits of the joined graph are those of the fragment joined last. */
  lemma JoinedExits(a: Deps, exits: seq<NodeID>, b: Fragment)
    requires Joinable(a, exits, b)
    ensures Exits(Joined(a, exits, b)) == Exits(b.g)
  {
    var h := Joined(a, exits, b);
    var r := HasEntry(b);
    forall x | x in a ensures HasDependent(h, x) {
      if HasDependent(a, x) {
        var v :| v in a && x in a[v];
        JoinedEdges(a, exits, b, v, x);
      } else {
        JoinedEdges(a, exits, b, r, x);
      }
    }
    forall y | y in b.g ensures HasDependent(h, y) == HasDependent(b.g, y) {
      forall v | v in h ensures y in h[v] <==> v in b.g && y in b.g[v] {
        JoinedEdges(a, exits, b, v, y);
      }
    }
  }

  // ----- A pipeline of fragments --------------------------------------------------

  ghost predicate Pipeline(fs: seq<Fragment>) {
    && (forall i :: 0 <= i < |fs| ==> Planned(fs[i]))
    && (forall i, j :: 0 <= i < j < |fs| ==> fs[i].g.Keys !! fs[j].g.Keys)
  }

  /** Merging the fragments one after the other, each linked below the one before. */
  ghost function Assembled(fs: seq<Fragment>): Deps
    requires Pipeline(fs) && fs != []
    decreases |fs|
  {
    var last := fs[|fs| - 1];
    if |fs| == 1 then last.g
    else
      var init := fs[..|fs| - 1];
      Joined(Assembled(init), init[|init| - 1].exits, last)
  }

  lemma {:induction false} AssembledKeys(fs: seq<Fragment>, v: NodeID)
    requires Pipeline(fs) && fs != []
    ensures v in Assembled(fs) <==> exists i :: 0 <= i < |fs| && v in fs[i].g
    decreases |fs|
  {
    if |fs| > 1 {
      AssembledKeys(fs[..|fs| - 1], v);
      InitPipeline(fs);
    }
    FoundInSplit(fs, v);
  }

  lemma FoundInSplit(fs: seq<Fragment>, v: NodeID)
    requires fs != []
    ensures var init := fs[..|fs| - 1];
            (exists i :: 0 <= i < |fs| && v in fs[i].g)
            <==> (exists i :: 0 <= i < |init| && v in init[i].g) || v in fs[|fs| - 1].g
  {
    var init := fs[..|fs| - 1];
    if i :| 0 <= i < |init| && v in init[i].g {
      assert v in fs[i].g;
    }
    if i :| 0 <= i < |fs| && v in fs[i].g {
      assert i < |init| ==> v in init[i].g;
    }
  }

  /** The assembled graph is one the executor can run: closed and acyclic. */
  lemma {:induction false} AssembledValid(fs: seq<Fragment>)
    requires Pipeline(fs) && fs != []
    ensures Closed(Assembled(fs)) && Acyclic(Assembled(fs))
    ensures Exits(Assembled(fs)) == Exits(fs[|fs| - 1].g)
    ensures |fs| > 1 ==> Joinable(Assembled(fs[..|fs| - 1]), fs[|fs| - 2].exits, fs[|fs| - 1])
    decreases |fs|
  {
    if |fs| > 1 {
      var init, last := fs[..|fs| - 1], fs[|fs| - 1];
      AssembledValid(init);
      assert init[|init| - 1] == fs[|fs| - 2];
      forall v | v in Assembled(init) ensures v !in last.g {
        AssembledKeys(init, v);
      }
      var a, exits := Assembled(init), fs[|fs| - 2].exits;
      assert Joinable(a, exits, last);
      JoinedClosed(a, exits, last);
      JoinedAcyclic(a, exits, last);
      JoinedExits(a, exits, last);
    }
  }

  lemma InitPipeline(fs: seq<Fragment>)
    requires Pipeline(fs) && |fs| > 1
    ensures var init := fs[..|fs| - 1];
            Pipeline(init) && Assembled(fs) == Joined(Assembled(init), fs[|fs| - 2].exits, fs[|fs| - 1])
  {
    InitIsPipeline(fs);
    assert fs[..|fs| - 1][|fs| - 2] == fs[|fs| - 2];
  }

  lemma InitIsPipeline(fs: seq<Fragment>)
    requires Pipeline(fs) && fs != []
    ensures Pipeline(fs[..|fs| - 1])
  {
    var init := fs[..|fs| - 1];
    forall i | 0 <= i < |init| ensures Planned(init[i]) {
      assert init[i] == fs[i];
    }
    forall i, j | 0 <= i < j < |init| ensures init[i].g.Keys !! init[j].g.Keys {
      assert init[i] == fs[i] && init[j] == fs[j];
    }
  }

  lemma EarlierNode(fs: seq<Fragment>, i: nat, x: NodeID)
    requires Pipeline(fs) && i < |fs| && x in fs[i].g
    ensures x in Assembled(fs)
  {
    AssembledKeys(fs, x);
  }

  /** Every node of an earlier fragment is a dependency of every node of a later one. */
  lemma {:induction false} PipelineBarrier(fs: seq<Fragment>, i: nat, j: nat, x: NodeID, y: NodeID)
    requires Pipeline(fs) && i < j < |fs| && x in fs[i].g && y in fs[j].g
    ensures DependsOn(Assembled(fs), y, x)
    decreases |fs|
  {
    var init := fs[..|fs| - 1];
    InitPipeline(fs);
    AssembledValid(fs);
    if j < |fs| - 1 {
      PipelineBarrier(init, i, j, x, y);
      JoinedKeepsPaths(Assembled(init), fs[|fs| - 2].exits, fs[|fs| - 1], y, x);
    } else {
      EarlierNode(init, i, x);
      JoinedBarrier(Assembled(init), fs[|fs| - 2].exits, fs[|fs| - 1], x, y);
    }
  }

  // ----- What the executor makes of it ----------------------------------------------

  /** No node of a later fragment is handed to a worker before every node of every
      earlier fragment has reported Success. */
  lemma NoEarlyDispatch(fs: seq<Fragment>, c: Config, s: State, i: nat, j: nat, x: NodeID, y: NodeID)
    requires Pipeline(fs) && i < j < |fs| && x in fs[i].g && y in fs[j].g
    requires ValidConfig(c) && c.deps == Assembled(fs) && Reachable(c, s) && y in s.dispatched
    ensures x in s.status && s.status[x].Success?
  {
    PipelineBarrier(fs, i, j, x, y);
    DispatchOnceInOrder(c, s, y);
  }

  /** If any node of a fragment ends other than Success, all later fragments are
      skipped entirely. */
  lemma FailureStopsPipeline(fs: seq<Fragment>, c: Config, outcome: NodeID -> Status, s: State, i: nat, j: nat,
                             x: NodeID, y: NodeID)
    requires Pipeline(fs) && i < j < |fs| && x in fs[i].g && y in fs[j].g
    requires ValidConfig(c) && c.deps == Assembled(fs) && EndsIn(c, outcome, s)
    requires x in s.status && !s.status[x].Success?
    ensures y in s.status && s.status[y].Skipped?
  {
    PipelineBarrier(fs, i, j, x, y);
    EndSolves(c, outcome, s);
    AssembledKeys(fs, x);
    AssembledKeys(fs, y);
    var rank :| Ranks(c.deps, rank);
    FailureReachesAll(c, rank, outcome, s.status, y, x);
  }

  // ----- Planning on the heap -------------------------------------------------------

  /** Once the entry and exit lists are calculated, a self-contained graph can be
      rejected for a cycle only. */
  method PlanAndValidate(g: ExecutionGraph) returns (r: Validation)
    requires g.NonNil() && Closed(g.Deps())
    modifies g`entryNodes, g`exitNodes
    ensures g.nodes == old(g.nodes) && g.NonNil() && g.Deps() == old(g.Deps())
    ensures r.Valid? || r.CyclicDependency?
    ensures r.Valid? <==> Acyclic(g.Deps())
    ensures g.EntriesFit() && g.ExitsFit()
  {
    g.CalculateEntryAndExitNodes();
    assert g.EntriesFit() && g.ExitsFit();
    ghost var cycle;
    r, cycle := g.Validate();
  }

  /** No node object appears twice, within the graph, within the fragment or across. */
  ghost predicate Separate(g: ExecutionGraph, f: ExecutionFragment)
    reads g, f
  {
    && g.Unaliased()
    && (forall a, b :: a in f.nodes && b in f.nodes && a != b ==> f.nodes[a] != f.nodes[b])
    && (forall a, b :: a in g.nodes && b in f.nodes ==> g.nodes[a] != f.nodes[b])
  }

  lemma MergedDeps(g: ExecutionGraph, before: map<NodeID, ExecutionNode?>, f: ExecutionFragment)
    requires f.NonNil() && forall id :: id in before ==> before[id] != null
    requires g.nodes == before + f.nodes
    ensures g.NonNil()
    ensures g.Deps() == (map id | id in before :: before[id].dependencies) + f.Deps()
  {
  }

  method MergePlanned(g: ExecutionGraph, f: ExecutionFragment) returns (r: Outcome)
    requires g.NonNil() && f.NonNil() && Separate(g, f)
    modifies g`nodes
    ensures r.Ok? <==> old(g.nodes.Keys) !! f.nodes.Keys
    ensures r.Ok? ==> g.NonNil() && g.Unaliased() && g.nodes == old(g.nodes) + f.nodes
    ensures r.Ok? ==> g.Deps() == old(g.Deps()) + f.Deps()
  {
    r := g.MergeFragment(f);
    if r.Ok? {
      MergedDeps(g, old(g.nodes), f);
    }
  }

  lemma EndsApart(before: set<NodeID>, added: set<NodeID>, exits: seq<NodeID>, entries: seq<NodeID>)
    requires before !! added
    requires (forall e :: e in exits ==> e in before) && (forall t :: t in entries ==> t in added)
    ensures forall e :: e in exits ==> e in before + added
    ensures forall t :: t in entries ==> t in before + added && t !in exits
  {
  }

  /** One turn of the pipeline planner: merge the next fragment, then link it below
      the exits of the one before. */
  method MergeAndLink(g: ExecutionGraph, f: ExecutionFragment, previousExits: seq<NodeID>) returns (r: Outcome)
    requires g.NonNil() && f.NonNil() && Separate(g, f)
    requires forall e :: e in previousExits ==> e in g.nodes
    requires forall t :: t in f.entryNodes ==> t in f.nodes
    modifies g`nodes, g.nodes.Values, f.nodes.Values
    ensures r.Ok? <==> old(g.nodes.Keys) !! f.nodes.Keys
    ensures r.Ok? ==> g.NonNil() && g.Unaliased() && g.nodes == old(g.nodes) + f.nodes
    ensures r.Ok? ==> g.Deps() == Linked(old(g.Deps()) + old(f.Deps()), previousExits, f.entryNodes)
  {
    r := MergePlanned(g, f);
    if r.Ok? {
      assert g.nodes.Keys == old(g.nodes.Keys) + f.nodes.Keys;
      EndsApart(old(g.nodes.Keys), f.nodes.Keys, previousExits, f.entryNodes);
      LinkBelow(g, previousExits, f.entryNodes);
    }
  }

  /** Links the exits of one part to the entries of the next, if there is an exit. */
  method LinkBelow(g: ExecutionGraph, previousExits: seq<NodeID>, entries: seq<NodeID>)
    requires g.NonNil() && g.Unaliased() && forall e :: e in previousExits ==> e in g.nodes
    requires forall t :: t in entries ==> t in g.nodes && t !in previousExits
    modifies g.nodes.Values
    ensures g.nodes == old(g.nodes) && g.Deps() == Linked(old(g.Deps()), previousExits, entries)
  {
    if |previousExits| > 0 {
      var r := g.LinkFragments(previousExits, entries);
    } else {
      LinkedNothing(g.Deps(), entries);
    }
  }
}
