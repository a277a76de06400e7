/** The planner of a whole pipeline: it merges the modules' fragments one by one, links
    each below the one before, and validates what it has built. */
module PipelinePlanner {
  import opened Graphs
  import opened ExecutionGraphs
  import opened PhaseBarrier

  /** A fragment as it stands on the heap. */
  ghost function View(f: ExecutionFragment): Fragment
    requires f.NonNil()
    reads f, f.nodes.Values
  {
    Fragment(f.Deps(), f.entryNodes, f.exitNodes)
  }

  /** A module's fragment: empty, or planned; `f` is what it held when planning began. */
  ghost predicate PlannedAs(m: ExecutionFragment, f: Fragment)
    reads m, m.nodes.Values
  {
    m.NonNil() && View(m) == f && (f.g == map[] || Planned(f))
  }

  /** No node object is stored under two IDs of the fragment. */
  ghost predicate OwnNodes(m: ExecutionFragment)
    reads m
  {
    forall a, b :: a in m.nodes && b in m.nodes && a != b ==> m.nodes[a] != m.nodes[b]
  }

  /** The fragments that contribute nodes. */
  ghost function Kept(fs: seq<Fragment>): seq<Fragment> {
    if fs == [] then []
    else Kept(fs[..|fs| - 1]) + (if fs[|fs| - 1].g == map[] then [] else [fs[|fs| - 1]])
  }

  /** The graph of a pipeline, the empty graph if no module contributes. */
  ghost function Whole(fs: seq<Fragment>): Deps
    requires Pipeline(fs)
  {
    if fs == [] then map[] else Assembled(fs)
  }

  ghost function LastExits(fs: seq<Fragment>): seq<NodeID> {
    if fs == [] then [] else fs[|fs| - 1].exits
  }

  lemma {:induction false} KeptPlanned(fs: seq<Fragment>)
    requires forall i :: 0 <= i < |fs| ==> fs[i].g == map[] || Planned(fs[i])
    ensures forall i :: 0 <= i < |Kept(fs)| ==> Planned(Kept(fs)[i])
  {
    if fs != [] {
      KeptPlanned(fs[..|fs| - 1]);
    }
  }

  /** What is kept of a prefix is a prefix of what is kept. */
  lemma {:induction false} KeptPrefix(fs: seq<Fragment>, k: nat)
    requires k <= |fs|
    ensures Kept(fs[..k]) <= Kept(fs)
  {
    if k < |fs| {
      var init := fs[..|fs| - 1];
      KeptPrefix(init, k);
      assert init[..k] == fs[..k];
    } else {
      assert fs[..k] == fs;
    }
  }

  lemma WholeHas(fs: seq<Fragment>, v: NodeID)
    requires Pipeline(fs)
    ensures v in Whole(fs) <==> exists i :: 0 <= i < |fs| && v in fs[i].g
  {
    if fs != [] {
      AssembledKeys(fs, v);
    }
  }

  /** The pipeline can grow by a fragment exactly when no ID clashes. */
  lemma GrowsIff(fs: seq<Fragment>, f: Fragment)
    requires Pipeline(fs) && Planned(f)
    ensures Pipeline(fs + [f]) <==> Whole(fs).Keys !! f.g.Keys
  {
    var all := fs + [f];
    forall v ensures v in Whole(fs) <==> exists i :: 0 <= i < |fs| && v in fs[i].g {
      WholeHas(fs, v);
    }
    if Pipeline(all) {
      forall v | v in Whole(fs) ensures v !in f.g {
        var i :| 0 <= i < |fs| && v in fs[i].g;
        assert all[i].g.Keys !! all[|fs|].g.Keys;
      }
    }
    if Whole(fs).Keys !! f.g.Keys {
      forall i, j | 0 <= i < j < |all| ensures all[i].g.Keys !! all[j].g.Keys {
        if j == |fs| {
          forall v | v in fs[i].g ensures v !in f.g {
            assert v in Whole(fs);
          }
        }
      }
    }
  }

  /** Merging and linking is what grows the assembled graph. */
  lemma WholeGrows(fs: seq<Fragment>, f: Fragment)
    requires Pipeline(fs) && Planned(f) && Pipeline(fs + [f])
    ensures forall t :: t in f.entries ==> t in f.g
    ensures Whole(fs + [f]) == Linked(Whole(fs) + f.g, LastExits(fs), f.entries)
  {
    if fs == [] {
      LinkedNothing(f.g, f.entries);
      assert Whole(fs) + f.g == f.g && fs + [f] == [f];
    } else {
      AssembledGrows(fs, f);
    }
  }

  lemma AssembledGrows(fs: seq<Fragment>, f: Fragment)
    requires Pipeline(fs) && Planned(f) && Pipeline(fs + [f]) && fs != []
    ensures Assembled(fs + [f]) == Joined(Assembled(fs), LastExits(fs), f)
  {
    var all := fs + [f];
    assert all[..|all| - 1] == fs;
  }

  lemma ExitsAreNodes(fs: seq<Fragment>)
    requires Pipeline(fs)
    ensures forall e :: e in LastExits(fs) ==> e in Whole(fs)
  {
    if fs != [] {
      forall e | e in LastExits(fs) ensures e in Whole(fs) {
        assert Planned(fs[|fs| - 1]);
        WholeHas(fs, e);
      }
    }
  }

  lemma WholeRuns(fs: seq<Fragment>)
    requires Pipeline(fs)
    ensures Closed(Whole(fs)) && Acyclic(Whole(fs))
  {
    if fs == [] {
      assert Ranks(Whole(fs), map[]);
    } else {
      AssembledValid(fs);
    }
  }

  /** The modules from `i` on hold what they held when planning began. */
  ghost predicate Untouched(ms: seq<ExecutionFragment>, fs: seq<Fragment>, i: nat)
    requires |fs| == |ms|
    reads set m | m in ms, set m, n | m in ms && n in m.nodes.Values :: n
  {
    forall k :: i <= k < |ms| ==> PlannedAs(ms[k], fs[k]) && OwnNodes(ms[k])
  }

  /** The modules from `i` on have none of these node objects. */
  ghost predicate FreeOf(objects: set<ExecutionNode?>, ms: seq<ExecutionFragment>, i: nat)
    reads ms
  {
    forall k :: i <= k < |ms| ==> objects !! ms[k].nodes.Values
  }

  /** No two of the modules from `i` on share a node object. */
  ghost predicate PairwiseApart(ms: seq<ExecutionFragment>, i: nat)
    reads ms
  {
    forall k :: i <= k < |ms| ==> FreeOf(ms[k].nodes.Values, ms, k + 1)
  }

  lemma SeparateModule(g: ExecutionGraph, m: ExecutionFragment)
    requires g.Unaliased() && OwnNodes(m) && g.nodes.Values !! m.nodes.Values
    ensures Separate(g, m)
  {
    forall a, b | a in g.nodes && b in m.nodes ensures g.nodes[a] != m.nodes[b] {
      assert g.nodes[a] in g.nodes.Values && m.nodes[b] in m.nodes.Values;
    }
  }

  lemma FreeOfBoth(a: map<NodeID, ExecutionNode?>, b: map<NodeID, ExecutionNode?>, ms: seq<ExecutionFragment>, i: nat)
    requires FreeOf(a.Values, ms, i) && FreeOf(b.Values, ms, i + 1)
    ensures FreeOf((a + b).Values, ms, i + 1)
  {
    assert (a + b).Values <= a.Values + b.Values;
  }

  lemma EntriesAreNodes(f: Fragment)
    requires Planned(f)
    ensures forall t :: t in f.entries ==> t in f.g
  {
  }

  /** The graph assembled from the fragments kept so far, and the exits to link next. */
  ghost predicate Built(g: ExecutionGraph, kept: seq<Fragment>, exits: seq<NodeID>)
    reads g, g.nodes.Values
  {
    && g.NonNil() && g.Unaliased() && Pipeline(kept)
    && g.Deps() == Whole(kept) && exits == LastExits(kept)
  }

  /** Merges and links one module that contributes nodes; only an ID clash stops it. */
  method AddModule(g: ExecutionGraph, m: ExecutionFragment, previousExits: seq<NodeID>,
                   ghost f: Fragment, ghost kept: seq<Fragment>) returns (r: Outcome)
    requires PlannedAs(m, f) && f.g != map[] && Separate(g, m) && Built(g, kept, previousExits)
    modifies g`nodes, g.nodes.Values, m.nodes.Values
    ensures r.Ok? <==> Pipeline(kept + [f])
    ensures r.Ok? ==> g.nodes == old(g.nodes) + m.nodes
    ensures r.Ok? ==> Built(g, kept + [f], m.exitNodes)
  {
    ExitsAreNodes(kept);
    GrowsIff(kept, f);
    EntriesAreNodes(f);
    r := MergeAndLink(g, m, previousExits);
    if r.Ok? {
      WholeGrows(kept, f);
    }
  }

  /** One turn of the planning loop. */
  method Turn(g: ExecutionGraph, ms: seq<ExecutionFragment>, i: nat, previousExits: seq<NodeID>,
              ghost fs: seq<Fragment>, ghost kept: seq<Fragment>) returns (r: Outcome)
    requires |fs| == |ms| && i < |ms| && fs[i].g != map[]
    requires Untouched(ms, fs, i) && PairwiseApart(ms, i) && FreeOf(g.nodes.Values, ms, i)
    requires Built(g, kept, previousExits)
    modifies g`nodes, g.nodes.Values, ms[i].nodes.Values
    ensures r.Ok? <==> Pipeline(kept + [fs[i]])
    ensures r.Ok? ==> Built(g, kept + [fs[i]], ms[i].exitNodes)
    ensures Untouched(ms, fs, i + 1)
    ensures r.Ok? ==> g.nodes.Values <= old(g.nodes).Values + ms[i].nodes.Values
    ensures r.Ok? ==> FreeOf(g.nodes.Values, ms, i + 1)
  {
    var m := ms[i];
    assert PlannedAs(m, fs[i]) && OwnNodes(m);
    assert FreeOf(m.nodes.Values, ms, i + 1) && FreeOf(g.nodes.Values, ms, i + 1);
    assert Untouched(ms, fs, i + 1);
    SeparateModule(g, m);
    FreeOfBoth(g.nodes, m.nodes, ms, i);
    r := AddModule(g, m, previousExits, fs[i], kept);
  }

  ghost function Objects(ms: seq<ExecutionFragment>): set<ExecutionNode?>
    reads ms
  {
    set m, n | m in ms && n in m.nodes.Values :: n
  }

  lemma KeptNext(fs: seq<Fragment>, i: nat)
    requires i < |fs|
    ensures Kept(fs[..i + 1]) == if fs[i].g == map[] then Kept(fs[..i]) else Kept(fs[..i]) + [fs[i]]
  {
    assert fs[..i + 1][..i] == fs[..i];
  }

  lemma PrefixPipeline(fs: seq<Fragment>, gs: seq<Fragment>)
    requires fs <= gs && Pipeline(gs)
    ensures Pipeline(fs)
  {
    forall i, j | 0 <= i < j < |fs| ensures fs[i].g.Keys !! fs[j].g.Keys {
      assert gs[i] == fs[i] && gs[j] == fs[j];
    }
  }

  lemma ClashStays(fs: seq<Fragment>, i: nat)
    requires i < |fs| && fs[i].g != map[] && !Pipeline(Kept(fs[..i]) + [fs[i]])
    ensures !Pipeline(Kept(fs))
  {
    KeptNext(fs, i);
    KeptPrefix(fs, i + 1);
    if Pipeline(Kept(fs)) {
      PrefixPipeline(Kept(fs[..i + 1]), Kept(fs));
    }
  }

  /** One turn of the planning loop: an empty module is passed over. */
  method TurnOrSkip(g: ExecutionGraph, ms: seq<ExecutionFragment>, i: nat, previousExits: seq<NodeID>,
                    ghost fs: seq<Fragment>) returns (r: Outcome, exits: seq<NodeID>)
    requires |fs| == |ms| && i < |ms|
    requires Untouched(ms, fs, i) && PairwiseApart(ms, i) && FreeOf(g.nodes.Values, ms, i)
    requires Built(g, Kept(fs[..i]), previousExits)
    modifies g`nodes, g.nodes.Values, ms[i].nodes.Values
    ensures r.Ok? ==> Built(g, Kept(fs[..i + 1]), exits)
    ensures r.Ok? ==> g.nodes.Values <= old(g.nodes).Values + ms[i].nodes.Values
    ensures Untouched(ms, fs, i + 1) && (r.Ok? ==> FreeOf(g.nodes.Values, ms, i + 1))
    ensures !r.Ok? ==> !Pipeline(Kept(fs))
  {
    assert PlannedAs(ms[i], fs[i]);
    KeptNext(fs, i);
    r, exits := Ok, previousExits;
    if |ms[i].nodes| > 0 {
      ghost var kept := Kept(fs[..i]);
      r := Turn(g, ms, i, previousExits, fs, kept);
      if !r.Ok? {
        ClashStays(fs, i);
      }
      exits := ms[i].exitNodes;
    } else {
      assert ms[i].nodes == map[];
    }
  }

  lemma OwnObjects(ms: seq<ExecutionFragment>, i: nat)
    requires i < |ms|
    ensures ms[i].nodes.Values <= Objects(ms)
  {
    assert ms[i] in ms;
  }

  lemma ApartFrom(ms: seq<ExecutionFragment>, i: nat)
    requires PairwiseApart(ms, 0)
    ensures PairwiseApart(ms, i)
  {
  }

  /** The same turn, seen from the whole loop: it changes node objects of the modules only. */
  method TurnWithin(g: ExecutionGraph, ms: seq<ExecutionFragment>, i: nat, previousExits: seq<NodeID>,
                    ghost fs: seq<Fragment>) returns (r: Outcome, exits: seq<NodeID>)
    requires |fs| == |ms| && i < |ms|
    requires Untouched(ms, fs, i) && PairwiseApart(ms, 0) && FreeOf(g.nodes.Values, ms, i)
    requires Built(g, Kept(fs[..i]), previousExits) && g.nodes.Values <= Objects(ms)
    modifies g`nodes, Objects(ms)
    ensures r.Ok? ==> Built(g, Kept(fs[..i + 1]), exits) && g.nodes.Values <= Objects(ms)
    ensures Untouched(ms, fs, i + 1) && (r.Ok? ==> FreeOf(g.nodes.Values, ms, i + 1))
    ensures !r.Ok? ==> !Pipeline(Kept(fs))
  {
    OwnObjects(ms, i);
    ApartFrom(ms, i);
    r, exits := TurnOrSkip(g, ms, i, previousExits, fs);
  }

  lemma NothingBuilt(g: ExecutionGraph)
    requires g.nodes == map[]
    ensures Built(g, [], [])
  {
  }

  /** The planning loop: succeeds exactly when the modules' IDs do not clash, and then
      has built the assembled graph. */
  method MergeModules(g: ExecutionGraph, ms: seq<ExecutionFragment>, ghost fs: seq<Fragment>)
    returns (r: Outcome, exits: seq<NodeID>)
    requires |fs| == |ms| && Untouched(ms, fs, 0) && PairwiseApart(ms, 0) && g.nodes == map[]
    modifies g`nodes, Objects(ms)
    ensures r.Ok? <==> Pipeline(Kept(fs))
    ensures r.Ok? ==> Built(g, Kept(fs), exits)
  {
    r, exits := Ok, [];
    NothingBuilt(g);
    for i := 0 to |ms|
      invariant r.Ok? && Built(g, Kept(fs[..i]), exits)
      invariant Untouched(ms, fs, i) && FreeOf(g.nodes.Values, ms, i)
      invariant g.nodes.Values <= Objects(ms)
    {
      r, exits := TurnWithin(g, ms, i, exits, fs);
      if !r.Ok? {
        return;
      }
    }
    assert fs[..|ms|] == fs;
  }

  lemma BuiltRuns(g: ExecutionGraph, kept: seq<Fragment>, exits: seq<NodeID>)
    requires Built(g, kept, exits)
    ensures g.NonNil() && Closed(g.Deps()) && Acyclic(g.Deps())
  {
    WholeRuns(kept);
  }

  /** Planning a pipeline: if no ID clashes, the graph handed to the executor passes its
      validation, and is the assembled graph for which the barrier is proved. */
  method Plan(ms: seq<ExecutionFragment>, ghost fs: seq<Fragment>)
    returns (g: ExecutionGraph, merged: Outcome, valid: Validation)
    requires |fs| == |ms| && Untouched(ms, fs, 0) && PairwiseApart(ms, 0)
    modifies Objects(ms)
    ensures merged.Ok? <==> Pipeline(Kept(fs))
    ensures merged.Ok? ==> valid.Valid? && g.NonNil() && g.Deps() == Whole(Kept(fs))
    ensures merged.Ok? ==> g.EntriesFit() && g.ExitsFit()
  {
    g := new ExecutionGraph();
    valid := Valid;
    var exits;
    merged, exits := MergeModules(g, ms, fs);
    if merged.Ok? {
      BuiltRuns(g, Kept(fs), exits);
      valid := PlanAndValidate(g);
    }
  }
}
