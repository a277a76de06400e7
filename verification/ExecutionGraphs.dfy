/** The planner's mutable graphs: nodes are shared objects whose dependency lists
    are appended to in place. */
module ExecutionGraphs {
  import opened Graphs
  import opened NodeOrder
  import opened PlanGraph
  import opened Sequences

  class ExecutionNode {
    var dependencies: seq<NodeID>

    constructor (dependencies: seq<NodeID>)
      ensures this.dependencies == dependencies
    {
      this.dependencies := dependencies;
    }
  }

  // ----- Linking, as functions on values --------------------------------------------

  function AddEdge(ds: seq<NodeID>, from: NodeID): seq<NodeID> {
    if from in ds then ds else ds + [from]
  }

  function AddEdges(ds: seq<NodeID>, froms: seq<NodeID>): seq<NodeID> {
    if froms == [] then ds
    else AddEdge(AddEdges(ds, froms[..|froms| - 1]), froms[|froms| - 1])
  }

  /** Every node of `tos`, in order, receives the missing ones of `froms`, in order. */
  function Linked(g: Deps, froms: seq<NodeID>, tos: seq<NodeID>): (h: Deps)
    requires forall t :: t in tos ==> t in g
    ensures h.Keys == g.Keys
  {
    if tos == [] then g
    else
      var last := tos[|tos| - 1];
      var h := Linked(g, froms, tos[..|tos| - 1]);
      h[last := AddEdges(h[last], froms)]
  }

  lemma {:induction false} AddEdgesMember(ds: seq<NodeID>, froms: seq<NodeID>, d: NodeID)
    ensures d in AddEdges(ds, froms) <==> d in ds || d in froms
  {
    if froms != [] {
      var init, last := froms[..|froms| - 1], froms[|froms| - 1];
      AddEdgesMember(ds, init, d);
      assert froms == init + [last];
    }
  }

  /** Linking appends, and brings no repetition into a list that has none. */
  lemma {:induction false} AddEdgesAppends(ds: seq<NodeID>, froms: seq<NodeID>)
    ensures ds <= AddEdges(ds, froms) && (Distinct(ds) ==> Distinct(AddEdges(ds, froms)))
  {
    if froms != [] {
      AddEdgesAppends(ds, froms[..|froms| - 1]);
    }
  }

  /** What linking means: exactly the edges from every `from` to every `to` are added. */
  lemma {:induction false} LinkedMember(g: Deps, froms: seq<NodeID>, tos: seq<NodeID>, v: NodeID, d: NodeID)
    requires (forall t :: t in tos ==> t in g) && v in g
    ensures d in Linked(g, froms, tos)[v] <==> d in g[v] || (v in tos && d in froms)
  {
    if tos != [] {
      var init, last := tos[..|tos| - 1], tos[|tos| - 1];
      assert tos == init + [last];
      LinkedMember(g, froms, init, v, d);
      AddEdgesMember(Linked(g, froms, init)[last], froms, d);
    }
  }

  lemma LinkedNext(g: Deps, froms: seq<NodeID>, tos: seq<NodeID>, j: nat)
    requires (forall t :: t in tos ==> t in g) && j < |tos|
    ensures forall t :: t in tos[..j + 1] <==> t in tos[..j] || t == tos[j]
    ensures var h := Linked(g, froms, tos[..j]);
            Linked(g, froms, tos[..j + 1]) == h[tos[j] := AddEdges(h[tos[j]], froms)]
  {
    assert tos[..j + 1][..j] == tos[..j];
    assert tos[..j + 1] == tos[..j] + [tos[j]];
  }

  lemma {:induction false} LinkedNothing(g: Deps, tos: seq<NodeID>)
    requires forall t :: t in tos ==> t in g
    ensures Linked(g, [], tos) == g
  {
    if tos != [] {
      LinkedNothing(g, tos[..|tos| - 1]);
    }
  }

  /** The list keeps what it had; anything new comes from `froms`, and only to a target. */
  ghost predicate GrownFrom(before: seq<NodeID>, after: seq<NodeID>, froms: seq<NodeID>, isTarget: bool) {
    && (forall d :: d in before ==> d in after)
    && (forall d :: d in after ==> d in before || (isTarget && d in froms))
  }

  /** `h` has all edges of `g`, and no others than from a source to a target. */
  ghost predicate OnlyLinks(g: Deps, h: Deps, froms: seq<NodeID>, tos: seq<NodeID>) {
    h.Keys == g.Keys && forall v :: v in g ==> GrownFrom(g[v], h[v], froms, v in tos)
  }

  /** `h` has all edges of `g`, and no others than from a source. */
  ghost predicate Grows(g: Deps, h: Deps, froms: seq<NodeID>) {
    h.Keys == g.Keys && forall v :: v in g ==> GrownFrom(g[v], h[v], froms, true)
  }

  lemma GrownFurther(a: seq<NodeID>, b: seq<NodeID>, c: seq<NodeID>, froms: seq<NodeID>, from: NodeID)
    requires GrownFrom(a, b, froms, true) && GrownFrom(b, c, [from], true) && from in froms
    ensures GrownFrom(a, c, froms, true)
  {
  }

  lemma GrowsFurther(g: Deps, h: Deps, i: Deps, froms: seq<NodeID>, from: NodeID)
    requires Grows(g, h, froms) && Grows(h, i, [from]) && from in froms
    ensures Grows(g, i, froms)
  {
    forall v | v in g ensures GrownFrom(g[v], i[v], froms, true) {
      GrownFurther(g[v], h[v], i[v], froms, from);
    }
  }

  lemma LinkToOnlyLinks(g: Deps, h: Deps, froms: seq<NodeID>, tos: seq<NodeID>, to: NodeID, k: nat)
    requires OnlyLinks(g, h, froms, tos) && to in tos && to in g && k <= |froms|
    ensures OnlyLinks(g, h[to := AddEdges(h[to], froms[..k])], froms, tos)
  {
    assert GrownFrom(g[to], h[to], froms, true);
    var after := AddEdges(h[to], froms[..k]);
    forall d ensures d in after <==> d in h[to] || d in froms[..k] {
      AddEdgesMember(h[to], froms[..k], d);
    }
    assert GrownFrom(g[to], after, froms, true);
  }

  datatype Outcome =
    | Ok
    | SelfDependency(id: NodeID)
    | UnknownSource(id: NodeID)
    | UnknownTarget(id: NodeID)
    | Duplicate(id: NodeID)

  datatype Validation =
    | Valid
    | NilNode(id: NodeID)
    | MissingDependency(id: NodeID, dep: NodeID)
    | CyclicDependency(processed: nat, expected: nat)
    | UnknownEntry(id: NodeID)
    | EntryHasDependencies(id: NodeID)
    | UnknownExit(id: NodeID)

  // ----- Entry and exit nodes, as sets -----------------------------------------------

  ghost predicate HasDependent(g: Deps, d: NodeID) {
    exists v :: v in g && d in g[v]
  }

  /** The nodes nothing in the graph depends on. */
  ghost function Exits(g: Deps): set<NodeID> {
    set d | d in g && !HasDependent(g, d)
  }

  /** The nodes without any dependency. */
  ghost function Roots(g: Deps): set<NodeID> {
    set v | v in g && g[v] == []
  }

  /** The nodes without a dependency inside the graph. */
  ghost function InnerRoots(g: Deps): set<NodeID> {
    set v | v in g && forall d :: d in g[v] ==> d !in g
  }

  lemma ClosedRoots(g: Deps)
    requires Closed(g)
    ensures InnerRoots(g) == Roots(g)
  {
    forall v | v in g && g[v] != [] ensures exists d :: d in g[v] && d in g {
      assert g[v][0] in g[v];
    }
  }

  /** Marks the nodes of the graph that some node depends on. */
  method MarkOutgoing(g: Deps) returns (out: set<NodeID>)
    ensures forall d :: d in out <==> d in g && HasDependent(g, d)
  {
    out := {};
    var unvisited := g.Keys;
    while unvisited != {}
      invariant unvisited <= g.Keys
      invariant forall d :: d in out <==> d in g && exists v :: v in g && v !in unvisited && d in g[v]
      decreases unvisited
    {
      var id :| id in unvisited;
      ghost var before := out;
      var i := 0;
      while i < |g[id]|
        invariant 0 <= i <= |g[id]|
        invariant forall d :: d in out <==> d in before || (d in g && d in g[id][..i])
      {
        assert g[id][..i + 1] == g[id][..i] + [g[id][i]];
        if g[id][i] in g {
          out := out + {g[id][i]};
        }
        i := i + 1;
      }
      assert g[id][..i] == g[id];
      unvisited := unvisited - {id};
    }
  }

  /** Lists the nodes of the graph that are not marked. */
  method ListUnmarked(nodes: set<NodeID>, marked: set<NodeID>) returns (ids: seq<NodeID>)
    ensures Lists(ids, nodes - marked)
  {
    ids := [];
    var unvisited := nodes;
    while unvisited != {}
      invariant unvisited <= nodes
      invariant forall x :: x in ids <==> x in nodes && x !in unvisited && x !in marked
      decreases unvisited
    {
      var id :| id in unvisited;
      unvisited := unvisited - {id};
      if id !in marked {
        ids := ids + [id];
      }
    }
    assert (set x | x in ids) == nodes - marked;
    ids := UniqueNodeIDs(ids);
  }

  class ExecutionGraph {
    var nodes: map<NodeID, ExecutionNode?>
    var entryNodes: seq<NodeID>
    var exitNodes: seq<NodeID>

    constructor ()
      ensures nodes == map[] && entryNodes == [] && exitNodes == []
    {
      nodes, entryNodes, exitNodes := map[], [], [];
    }

    predicate NonNil()
      reads this
    {
      forall id :: id in nodes ==> nodes[id] != null
    }

    /** No node object is stored under two IDs. */
    ghost predicate Unaliased()
      reads this
    {
      forall a, b :: a in nodes && b in nodes && a != b ==> nodes[a] != nodes[b]
    }

    function Deps(): (g: Deps)
      requires NonNil()
      reads this, nodes.Values
      ensures g.Keys == nodes.Keys
    {
      map id | id in nodes :: nodes[id].dependencies
    }

    // ----- Building -----------------------------------------------------------------

    method AddDependency(from: NodeID, to: NodeID) returns (r: Outcome)
      requires NonNil()
      modifies if to in nodes then {nodes[to]} else {}
      ensures NonNil()
      ensures r == if from == to then SelfDependency(from)
                   else if from !in nodes then UnknownSource(from)
                   else if to !in nodes then UnknownTarget(to) else Ok
      ensures r.Ok? ==> nodes[to].dependencies == AddEdge(old(nodes[to].dependencies), from)
      ensures r.Ok? ==> var ds := old(nodes[to].dependencies);
                        nodes[to].dependencies == if from in ds then ds else ds + [from]
      ensures r.Ok? && Unaliased() ==> Deps() == old(Deps())[to := AddEdge(old(Deps())[to], from)]
      ensures !r.Ok? ==> Deps() == old(Deps())
      ensures Grows(old(Deps()), Deps(), [from])
    {
      if from == to {
        return SelfDependency(from);
      }
      if from !in nodes {
        return UnknownSource(from);
      }
      if to !in nodes {
        return UnknownTarget(to);
      }
      var target := nodes[to];
      var i := 0;
      while i < |target.dependencies|
        invariant 0 <= i <= |target.dependencies| && from !in target.dependencies[..i]
      {
        if target.dependencies[i] == from {
          return Ok;
        }
        i := i + 1;
      }
      assert target.dependencies[..i] == target.dependencies;
      target.dependencies := target.dependencies + [from];
      return Ok;
    }

    /** One source for one target, after the sources in `done`. */
    method LinkOne(from: NodeID, to: NodeID, ghost g: Deps, ghost h: Deps, ghost done: seq<NodeID>,
                   ghost froms: seq<NodeID>) returns (r: Outcome)
      requires NonNil() && to in nodes && from in nodes && from in froms && to in h
      requires Grows(g, Deps(), froms) && (Unaliased() ==> Deps() == h[to := AddEdges(h[to], done)])
      modifies nodes.Values
      ensures NonNil() && nodes == old(nodes)
      ensures r == if from == to then SelfDependency(from) else Ok
      ensures !r.Ok? ==> Deps() == old(Deps())
      ensures r.Ok? && Unaliased() ==> Deps() == h[to := AddEdges(h[to], done + [from])]
      ensures Grows(g, Deps(), froms)
    {
      ghost var now := Deps();
      r := AddDependency(from, to);
      GrowsFurther(g, now, Deps(), froms, from);
      ghost var more := done + [from];
      assert more[..|more| - 1] == done;
    }

    /** One target node receives the sources in order, up to `k`; `g` is the graph before
        linking began. */
    method LinkTo(froms: seq<NodeID>, to: NodeID, ghost g: Deps) returns (r: Outcome, ghost k: nat)
      requires NonNil() && to in nodes && forall f :: f in froms ==> f in nodes
      requires Grows(g, Deps(), froms)
      modifies nodes.Values
      ensures NonNil() && nodes == old(nodes)
      ensures r.Ok? || r.SelfDependency?
      ensures r.Ok? <==> to !in froms
      ensures k <= |froms| && (r.Ok? ==> k == |froms|)
      ensures Unaliased() ==> Deps() == old(Deps())[to := AddEdges(old(Deps())[to], froms[..k])]
      ensures Grows(g, Deps(), froms)
    {
      r := Ok;
      var i := 0;
      ghost var h := Deps();
      assert h[to := AddEdges(h[to], froms[..0])] == h;
      while i < |froms|
        invariant 0 <= i <= |froms| && to !in froms[..i] && r.Ok?
        invariant nodes == old(nodes)
        invariant Grows(g, Deps(), froms)
        invariant Unaliased() ==> Deps() == h[to := AddEdges(h[to], froms[..i])]
      {
        assert froms[i] in froms;
        r := LinkOne(froms[i], to, g, h, froms[..i], froms);
        if !r.Ok? {
          return r, i;
        }
        assert froms[..i + 1] == froms[..i] + [froms[i]];
        i := i + 1;
      }
      assert froms[..i] == froms;
      k := i;
    }

    /** The next target, after those before position `j`. */
    method LinkNext(froms: seq<NodeID>, tos: seq<NodeID>, j: nat, ghost g: Deps) returns (r: Outcome)
      requires NonNil() && j < |tos| && (forall t :: t in tos ==> t in g) && g.Keys == nodes.Keys
      requires forall f :: f in froms ==> f in nodes
      requires Grows(g, Deps(), froms)
      requires Unaliased() ==> Deps() == Linked(g, froms, tos[..j]) && OnlyLinks(g, Deps(), froms, tos)
      modifies nodes.Values
      ensures NonNil() && nodes == old(nodes)
      ensures r.Ok? || r.SelfDependency?
      ensures r.Ok? <==> tos[j] !in froms
      ensures Grows(g, Deps(), froms)
      ensures Unaliased() ==> OnlyLinks(g, Deps(), froms, tos)
      ensures r.Ok? && Unaliased() ==> Deps() == Linked(g, froms, tos[..j + 1])
    {
      ghost var h := Deps();
      ghost var k;
      assert tos[j] in tos;
      r, k := LinkTo(froms, tos[j], g);
      if Unaliased() {
        LinkToOnlyLinks(g, h, froms, tos, tos[j], k);
        LinkedNext(g, froms, tos, j);
        assert r.Ok? ==> froms[..k] == froms;
      }
    }

    method LinkAll(froms: seq<NodeID>, tos: seq<NodeID>) returns (r: Outcome)
      requires NonNil() && froms != []
      requires (forall f :: f in froms ==> f in nodes) && (forall t :: t in tos ==> t in nodes)
      modifies nodes.Values
      ensures NonNil() && nodes == old(nodes)
      ensures r.Ok? || r.SelfDependency?
      ensures r.Ok? <==> forall t :: t in tos ==> t !in froms
      ensures r.Ok? && Unaliased() ==> Deps() == Linked(old(Deps()), froms, tos)
      ensures Grows(old(Deps()), Deps(), froms)
      ensures Unaliased() ==> OnlyLinks(old(Deps()), Deps(), froms, tos)
    {
      r := Ok;
      var j := 0;
      ghost var g := Deps();
      while j < |tos|
        invariant 0 <= j <= |tos| && nodes == old(nodes) && r.Ok?
        invariant forall t :: t in tos[..j] ==> t !in froms
        invariant Grows(g, Deps(), froms)
        invariant Unaliased() ==> Deps() == Linked(g, froms, tos[..j]) && OnlyLinks(g, Deps(), froms, tos)
      {
        r := LinkNext(froms, tos, j, g);
        if !r.Ok? {
          assert tos[j] in tos;
          return;
        }
        assert tos[..j + 1] == tos[..j] + [tos[j]];
        j := j + 1;
      }
      assert tos[..j] == tos;
    }

    /** Every source precedes every target; unknown IDs change nothing, and a node that
        is both stops the linking half way.  Nodes stored under two IDs receive edges
        under both; edges are never lost, and all new ones come from the sources. */
    method LinkFragments(froms: seq<NodeID>, tos: seq<NodeID>) returns (r: Outcome)
      requires NonNil()
      modifies nodes.Values
      ensures NonNil() && nodes == old(nodes)
      ensures r.Ok? <==> (froms == [] || tos == [] ||
                ((forall f :: f in froms ==> f in nodes) && (forall t :: t in tos ==> t in nodes && t !in froms)))
      ensures r.Ok? && Unaliased() && (forall t :: t in tos ==> t in nodes) ==>
                Deps() == Linked(old(Deps()), froms, tos)
      ensures r.UnknownSource? || r.UnknownTarget? ==> Deps() == old(Deps())
      ensures Grows(old(Deps()), Deps(), froms)
      ensures Unaliased() ==> OnlyLinks(old(Deps()), Deps(), froms, tos)
    {
      if |froms| == 0 || |tos| == 0 {
        if |froms| == 0 && (forall t :: t in tos ==> t in nodes) {
          LinkedNothing(Deps(), tos);
        }
        return Ok;
      }
      r := CheckKnown(froms, tos);
      if r.Ok? {
        r := LinkAll(froms, tos);
      }
    }

    /** Both lists name nodes of the graph. */
    method CheckKnown(froms: seq<NodeID>, tos: seq<NodeID>) returns (r: Outcome)
      ensures r.Ok? || r.UnknownSource? || r.UnknownTarget?
      ensures r.Ok? <==> (forall f :: f in froms ==> f in nodes) && (forall t :: t in tos ==> t in nodes)
      ensures r.UnknownSource? ==> r.id in froms && r.id !in nodes
      ensures r.UnknownTarget? ==> r.id in tos && r.id !in nodes
    {
      for i := 0 to |froms|
        invariant forall f :: f in froms[..i] ==> f in nodes
      {
        assert froms[i] in froms;
        if froms[i] !in nodes {
          return UnknownSource(froms[i]);
        }
      }
      for i := 0 to |tos|
        invariant forall t :: t in tos[..i] ==> t in nodes
      {
        assert tos[i] in tos;
        if tos[i] !in nodes {
          return UnknownTarget(tos[i]);
        }
      }
      assert froms[..|froms|] == froms && tos[..|tos|] == tos;
      return Ok;
    }

    // ----- Merging ------------------------------------------------------------------

    /** Adds the nodes of a fragment; a clash stops the merge, with some of the
        fragment's nodes already added and none of the graph's replaced. */
    method MergeFragment(fragment: ExecutionFragment?) returns (r: Outcome)
      modifies this`nodes
      ensures r.Ok? <==> fragment == null || fragment.nodes.Keys !! old(nodes).Keys
      ensures r.Ok? ==> nodes == if fragment == null then old(nodes) else old(nodes) + fragment.nodes
      ensures !r.Ok? ==> r.Duplicate? && r.id in old(nodes) && r.id in fragment.nodes
      ensures forall id :: id in old(nodes) ==> id in nodes && nodes[id] == old(nodes)[id]
      ensures forall id :: id in nodes && id !in old(nodes) ==>
                fragment != null && id in fragment.nodes && nodes[id] == fragment.nodes[id]
    {
      if fragment == null {
        return Ok;
      }
      var unvisited := fragment.nodes.Keys;
      while unvisited != {}
        invariant unvisited <= fragment.nodes.Keys
        invariant fragment.nodes.Keys - unvisited !! old(nodes).Keys
        invariant nodes.Keys == old(nodes).Keys + (fragment.nodes.Keys - unvisited)
        invariant forall id :: id in old(nodes) ==> nodes[id] == old(nodes)[id]
        invariant forall id :: id in fragment.nodes && id !in unvisited ==> nodes[id] == fragment.nodes[id]
        decreases unvisited
      {
        var id :| id in unvisited;
        unvisited := unvisited - {id};
        if id in nodes {
          return Duplicate(id);
        }
        nodes := nodes[id := fragment.nodes[id]];
      }
      return Ok;
    }

    // ----- Entry and exit nodes -------------------------------------------------------

    method CalculateEntryAndExitNodes()
      requires NonNil()
      modifies this`entryNodes, this`exitNodes
      ensures Lists(entryNodes, Roots(Deps())) && Lists(exitNodes, Exits(Deps()))
    {
      if |nodes| == 0 {
        entryNodes, exitNodes := [], [];
        assert nodes == map[];
        return;
      }
      entryNodes, exitNodes := GraphEnds(Deps());
    }

    // ----- Checking -------------------------------------------------------------------

    ghost predicate EntriesFit()
      requires NonNil()
      reads this, nodes.Values
    {
      forall id :: id in entryNodes ==> id in nodes && nodes[id].dependencies == []
    }

    ghost predicate ExitsFit()
      reads this
    {
      forall id :: id in exitNodes ==> id in nodes
    }

    /** What the verdict says is so. */
    ghost predicate Explains(r: Validation)
      reads this, nodes.Values
    {
      match r
      case Valid => NonNil() && Closed(Deps()) && Acyclic(Deps()) && EntriesFit() && ExitsFit()
      case NilNode(id) => id in nodes && nodes[id] == null
      case MissingDependency(id, dep) => NonNil() && id in nodes && dep in nodes[id].dependencies && dep !in nodes
      case CyclicDependency(processed, expected) =>
        NonNil() && Closed(Deps()) && !Acyclic(Deps()) && processed < expected == |nodes|
      case UnknownEntry(_) => NonNil() && Closed(Deps()) && Acyclic(Deps()) && ListErrorExact(r)
      case EntryHasDependencies(_) => NonNil() && Closed(Deps()) && Acyclic(Deps()) && ListErrorExact(r)
      case UnknownExit(_) => NonNil() && Closed(Deps()) && Acyclic(Deps()) && ListErrorExact(r)
    }

    /** Sound and complete: accepted exactly when every node exists, every dependency
        is a node, no dependency cycle exists, and the entry and exit lists fit. */
    method Validate() returns (r: Validation, ghost cycle: seq<NodeID>)
      ensures r.Valid? <==> NonNil() && Closed(Deps()) && Acyclic(Deps()) && EntriesFit() && ExitsFit()
      ensures r.NilNode? <==> !NonNil()
      ensures r.NilNode? ==> r.id in nodes && nodes[r.id] == null
      ensures r.MissingDependency? <==> NonNil() && !Closed(Deps())
      ensures r.MissingDependency? ==> r.id in nodes && r.dep in nodes[r.id].dependencies && r.dep !in nodes
      ensures r.CyclicDependency? <==> NonNil() && Closed(Deps()) && !Acyclic(Deps())
      ensures r.CyclicDependency? ==> IsCycle(Deps(), cycle) && r.processed < r.expected == |nodes|
      ensures r.UnknownEntry? || r.EntryHasDependencies? ==> !EntriesFit()
      ensures r.UnknownExit? ==> EntriesFit() && !ExitsFit()
      ensures NonNil() ==> ListErrorExact(r)
      ensures Explains(r)
    {
      cycle := [];
      var unvisited := nodes.Keys;
      while unvisited != {}
        invariant unvisited <= nodes.Keys
        invariant forall id :: id in nodes && id !in unvisited ==> nodes[id] != null
        decreases unvisited
      {
        var id :| id in unvisited;
        unvisited := unvisited - {id};
        if nodes[id] == null {
          return NilNode(id), cycle;
        }
      }
      r, cycle := CheckEdges(Deps());
      if r.Valid? {
        r := CheckLists();
      }
    }

    ghost predicate EntryFits(id: NodeID)
      requires NonNil()
      reads this, nodes.Values
    {
      id in nodes && nodes[id].dependencies == []
    }

    /** An error about the lists names the first ID, in sorted order, that does not fit;
        exits are looked at only if all entries fit. */
    ghost predicate ListErrorExact(r: Validation)
      requires NonNil()
      reads this, nodes.Values
    {
      && (r.UnknownEntry? || r.EntryHasDependencies? ==>
            && r.id in entryNodes && !EntryFits(r.id) && (r.UnknownEntry? <==> r.id !in nodes)
            && forall id :: id in entryNodes && Less(id, r.id) ==> EntryFits(id))
      && (r.UnknownExit? ==>
            && EntriesFit() && r.id in exitNodes && r.id !in nodes
            && forall id :: id in exitNodes && Less(id, r.id) ==> id in nodes)
    }

    method CheckLists() returns (r: Validation)
      requires NonNil()
      ensures r.Valid? || r.UnknownEntry? || r.EntryHasDependencies? || r.UnknownExit?
      ensures r.Valid? <==> EntriesFit() && ExitsFit()
      ensures ListErrorExact(r)
    {
      var entries := UniqueNodeIDs(entryNodes);
      for i := 0 to |entries|
        invariant forall id :: id in entries[..i] ==> id in nodes && nodes[id].dependencies == []
      {
        var id := entries[i];
        assert id in entries;
        forall x | x in entryNodes && Less(x, id) ensures x in entries[..i] {
          StandsBefore(entries, i, x);
        }
        if id !in nodes {
          return UnknownEntry(id);
        }
        if |nodes[id].dependencies| > 0 {
          return EntryHasDependencies(id);
        }
      }
      assert entries[..|entries|] == entries;
      var exits := UniqueNodeIDs(exitNodes);
      for i := 0 to |exits|
        invariant forall id :: id in exits[..i] ==> id in nodes
      {
        var id := exits[i];
        assert id in exits;
        forall x | x in exitNodes && Less(x, id) ensures x in exits[..i] {
          StandsBefore(exits, i, x);
        }
        if id !in nodes {
          return UnknownExit(id);
        }
      }
      assert exits[..|exits|] == exits;
      return Valid;
    }
  }

  /** The dependency part of Validate: unknown dependencies first, then cycles. */
  method CheckEdges(g: Deps) returns (r: Validation, ghost cycle: seq<NodeID>)
    ensures r.Valid? || r.MissingDependency? || r.CyclicDependency?
    ensures r.Valid? <==> Closed(g) && Acyclic(g)
    ensures r.MissingDependency? <==> !Closed(g)
    ensures r.MissingDependency? ==> r.id in g && r.dep in g[r.id] && r.dep !in g
    ensures r.CyclicDependency? ==> IsCycle(g, cycle) && r.processed < r.expected == |g|
  {
    cycle := [];
    var missing, adj, inDegree := InvertEdges(g);
    if missing.Missing? {
      return MissingDependency(missing.edge.id, missing.edge.dep), cycle;
    }
    var count;
    count, cycle := CountProcessable(g, adj, inDegree);
    if count != |g| {
      return CyclicDependency(count, |g|), cycle;
    }
    return Valid, cycle;
  }

  /** The entries of a graph have no dependency at all. */
  method GraphEnds(g: Deps) returns (entries: seq<NodeID>, exits: seq<NodeID>)
    ensures Lists(entries, Roots(g)) && Lists(exits, Exits(g))
  {
    var hasIncoming := set id | id in g && |g[id]| > 0;
    var hasOutgoing := MarkOutgoing(g);
    entries := ListUnmarked(g.Keys, hasIncoming);
    exits := ListUnmarked(g.Keys, hasOutgoing);
    assert g.Keys - hasIncoming == Roots(g);
    assert g.Keys - hasOutgoing == Exits(g);
  }

  class ExecutionFragment {
    var nodes: map<NodeID, ExecutionNode?>
    var entryNodes: seq<NodeID>
    var exitNodes: seq<NodeID>

    constructor ()
      ensures nodes == map[] && entryNodes == [] && exitNodes == []
    {
      nodes, entryNodes, exitNodes := map[], [], [];
    }

    predicate NonNil()
      reads this
    {
      forall id :: id in nodes ==> nodes[id] != null
    }

    function Deps(): (g: Deps)
      requires NonNil()
      reads this, nodes.Values
      ensures g.Keys == nodes.Keys
    {
      map id | id in nodes :: nodes[id].dependencies
    }

    method CalculateEntryAndExitNodes()
      requires NonNil()
      modifies this`entryNodes, this`exitNodes
      ensures Lists(entryNodes, InnerRoots(Deps())) && Lists(exitNodes, Exits(Deps()))
    {
      if |nodes| == 0 {
        entryNodes, exitNodes := [], [];
        assert nodes == map[];
        return;
      }
      entryNodes, exitNodes := FragmentEnds(Deps());
    }
  }

  method FragmentEnds(g: Deps) returns (entries: seq<NodeID>, exits: seq<NodeID>)
    ensures Lists(entries, InnerRoots(g)) && Lists(exits, Exits(g))
  {
    var hasOutgoing := MarkOutgoing(g);
    var hasInner := MarkInner(g);
    entries := ListUnmarked(g.Keys, hasInner);
    exits := ListUnmarked(g.Keys, hasOutgoing);
    assert g.Keys - hasInner == InnerRoots(g);
    assert g.Keys - hasOutgoing == Exits(g);
  }

  /** Marks the nodes with a dependency inside the fragment. */
  method MarkInner(g: Deps) returns (inner: set<NodeID>)
    ensures forall v :: v in inner <==> v in g && exists d :: d in g[v] && d in g
  {
    inner := {};
    var unvisited := g.Keys;
    while unvisited != {}
      invariant unvisited <= g.Keys
      invariant forall v :: v in inner <==> v in g && v !in unvisited && exists d :: d in g[v] && d in g
      decreases unvisited
    {
      var id :| id in unvisited;
      unvisited := unvisited - {id};
      var isEntry := true;
      var i := 0;
      while i < |g[id]| && isEntry
        invariant 0 <= i <= |g[id]|
        invariant isEntry <==> forall d :: d in g[id][..i] ==> d !in g
      {
        assert g[id][..i + 1] == g[id][..i] + [g[id][i]];
        if g[id][i] in g {
          isEntry := false;
        }
        i := i + 1;
      }
      assert isEntry ==> g[id][..i] == g[id];
      if !isEntry {
        assert exists d :: d in g[id] && d in g;
        inner := inner + {id};
      }
    }
  }
}
