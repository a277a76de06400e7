/** The cycle check: inverting the edges, and processing the nodes in dependency order. */
module PlanGraph {
  import opened Graphs
  import opened Readiness

  // ----- Inverting the edges -------------------------------------------------------

  lemma {:induction false} OccursAppend(s: seq<NodeID>, x: NodeID, y: NodeID)
    ensures Occurs(s + [x], y) == Occurs(s, y) + if x == y then 1 else 0
  {
    if s == [] {
      assert s + [x] == [x];
    } else {
      assert (s + [x])[1..] == s[1..] + [x];
      OccursAppend(s[1..], x, y);
    }
  }

  lemma AddEdgeCounts(seen: Deps, adj: map<NodeID, seq<NodeID>>, id: NodeID, dep: NodeID, u: NodeID, v: NodeID)
    requires adj.Keys == seen.Keys && id in seen && dep in seen && u in seen && v in seen
    requires Occurs(adj[u], v) == Occurs(seen[v], u)
    ensures Occurs(adj[dep := adj[dep] + [id]][u], v) == Occurs(seen[id := seen[id] + [dep]][v], u)
  {
    OccursAppend(adj[dep], id, v);
    OccursAppend(seen[id], dep, u);
  }

  lemma AddEdgeInverts(seen: Deps, adj: map<NodeID, seq<NodeID>>, id: NodeID, dep: NodeID)
    requires Inverts(seen, adj) && id in seen && dep in seen
    ensures Inverts(seen[id := seen[id] + [dep]], adj[dep := adj[dep] + [id]])
  {
    var seen', adj' := seen[id := seen[id] + [dep]], adj[dep := adj[dep] + [id]];
    forall u, v | u in seen && v in seen ensures Occurs(adj'[u], v) == Occurs(seen'[v], u) {
      assert Occurs(adj[u], v) == Occurs(seen[v], u);
      AddEdgeCounts(seen, adj, id, dep, u, v);
    }
    assert forall u, v :: u in adj' && v in adj'[u] ==> v == id || v in adj[u];
  }

  /** The edges of the nodes visited so far. */
  ghost function SeenEdges(deps: Deps, unvisited: set<NodeID>): Deps {
    map v | v in deps :: if v in unvisited then [] else deps[v]
  }

  /** `adj` and `inDegree` describe exactly the edges of `seen`. */
  ghost predicate Counted(seen: Deps, adj: map<NodeID, seq<NodeID>>, inDegree: map<NodeID, int>) {
    && Inverts(seen, adj)
    && inDegree.Keys == seen.Keys
    && forall v :: v in seen ==> inDegree[v] == |seen[v]|
  }

  lemma AddEdgeCounted(seen: Deps, adj: map<NodeID, seq<NodeID>>, inDegree: map<NodeID, int>, id: NodeID, dep: NodeID)
    requires Counted(seen, adj, inDegree) && id in seen && dep in seen
    ensures Counted(seen[id := seen[id] + [dep]], adj[dep := adj[dep] + [id]], inDegree[id := inDegree[id] + 1])
  {
    AddEdgeInverts(seen, adj, id, dep);
  }

  lemma CountedIsExact(deps: Deps, adj: map<NodeID, seq<NodeID>>, inDegree: map<NodeID, int>)
    requires Counted(deps, adj, inDegree)
    ensures Inverts(deps, adj) && DegreesExact(deps, inDegree, {})
  {
    forall v | v in deps ensures Outstanding(deps[v], {}) == |deps[v]| {
      OutstandingNone(deps[v]);
    }
  }

  datatype Edge = Edge(id: NodeID, dep: NodeID)
  datatype Missing = Nothing | Missing(edge: Edge)

  /** Adds the edges of one node, stopping at a dependency that is no node. */
  method AddNodeEdges(nodes: set<NodeID>, id: NodeID, ds: seq<NodeID>, ghost base: Deps,
                      adj0: map<NodeID, seq<NodeID>>, inDegree0: map<NodeID, int>)
    returns (missing: Missing, adj: map<NodeID, seq<NodeID>>, inDegree: map<NodeID, int>)
    requires Counted(base, adj0, inDegree0) && base.Keys == nodes && id in nodes && base[id] == []
    ensures missing.Nothing? <==> forall d :: d in ds ==> d in nodes
    ensures missing.Missing? ==> missing.edge.id == id && missing.edge.dep in ds && missing.edge.dep !in nodes
    ensures missing.Nothing? ==> Counted(base[id := ds], adj, inDegree)
  {
    missing, adj, inDegree := Nothing, adj0, inDegree0;
    var k := 0;
    assert base[id := ds[..0]] == base;
    while k < |ds|
      invariant 0 <= k <= |ds|
      invariant Counted(base[id := ds[..k]], adj, inDegree)
      invariant forall d :: d in ds[..k] ==> d in nodes
    {
      var dep := ds[k];
      if dep !in nodes {
        missing := Missing(Edge(id, dep));
        return;
      }
      AddEdgeCounted(base[id := ds[..k]], adj, inDegree, id, dep);
      assert ds[..k + 1] == ds[..k] + [dep];
      assert base[id := ds[..k]][id := ds[..k] + [dep]] == base[id := ds[..k + 1]];
      adj := adj[dep := adj[dep] + [id]];
      inDegree := inDegree[id := inDegree[id] + 1];
      k := k + 1;
    }
    assert ds[..k] == ds;
  }

  /** Collects dependents and in-degrees, visiting the nodes in any order. */
  method InvertEdges(deps: Deps) returns (missing: Missing, adj: map<NodeID, seq<NodeID>>, inDegree: map<NodeID, int>)
    ensures missing.Nothing? <==> Closed(deps)
    ensures missing.Missing? ==> var e := missing.edge; e.id in deps && e.dep in deps[e.id] && e.dep !in deps
    ensures missing.Nothing? ==> Inverts(deps, adj) && DegreesExact(deps, inDegree, {})
  {
    missing := Nothing;
    adj := map id | id in deps :: [];
    inDegree := map id | id in deps :: 0;
    var unvisited := deps.Keys;
    while unvisited != {}
      invariant unvisited <= deps.Keys && missing.Nothing?
      invariant Counted(SeenEdges(deps, unvisited), adj, inDegree)
      invariant forall v, d :: v in deps && v !in unvisited && d in deps[v] ==> d in deps
      decreases unvisited
    {
      var id :| id in unvisited;
      missing, adj, inDegree := AddNodeEdges(deps.Keys, id, deps[id], SeenEdges(deps, unvisited), adj, inDegree);
      if missing.Missing? {
        return;
      }
      assert SeenEdges(deps, unvisited)[id := deps[id]] == SeenEdges(deps, unvisited - {id});
      unvisited := unvisited - {id};
    }
    assert SeenEdges(deps, {}) == deps;
    CountedIsExact(deps, adj, inDegree);
  }

  /** The queue loop body: lowers the counter of every dependent of a processed node
      and queues those that reach zero. */
  method CreditAll(degrees: map<NodeID, int>, ds: seq<NodeID>, queue0: seq<NodeID>)
    returns (inDegree: map<NodeID, int>, queue: seq<NodeID>)
    requires forall d :: d in ds ==> d in degrees
    ensures inDegree == Credit(degrees, ds).0 && queue == queue0 + Credit(degrees, ds).1
  {
    inDegree, queue := degrees, queue0;
    var i := 0;
    while i < |ds|
      invariant 0 <= i <= |ds| && inDegree.Keys == degrees.Keys
      invariant Credit(inDegree, ds[i..]).0 == Credit(degrees, ds).0
      invariant queue + Credit(inDegree, ds[i..]).1 == queue0 + Credit(degrees, ds).1
    {
      var v := ds[i];
      ghost var rest := Credit(inDegree[v := inDegree[v] - 1], ds[i..][1..]).1;
      assert ds[i..][1..] == ds[i + 1..];
      inDegree := inDegree[v := inDegree[v] - 1];
      if inDegree[v] == 0 {
        assert queue + ([v] + rest) == (queue + [v]) + rest;
        queue := queue + [v];
      }
      i := i + 1;
    }
    assert ds[i..] == [];
  }

  // ----- Processing in dependency order ---------------------------------------------

  /** The nodes whose counter starts at zero, in any order. */
  method ReadyNodes(deps: Deps, inDegree: map<NodeID, int>) returns (queue: seq<NodeID>)
    requires DegreesExact(deps, inDegree, {})
    ensures DispatchedWhenReady(deps, {}, multiset(queue), {})
  {
    queue := [];
    var unvisited := inDegree.Keys;
    while unvisited != {}
      invariant unvisited <= deps.Keys
      invariant forall v :: v in queue ==> v in deps
      invariant forall v :: v in deps ==>
                  multiset(queue)[v] == if v in unvisited then 0 else Turns(deps, {}, {}, v)
      decreases unvisited
    {
      var id :| id in unvisited;
      unvisited := unvisited - {id};
      if inDegree[id] == 0 {
        queue := queue + [id];
      }
    }
  }

  /** Between two iterations every node released is queued or done. */
  ghost predicate Processing(deps: Deps, inDegree: map<NodeID, int>, queue: seq<NodeID>, done: set<NodeID>) {
    && DegreesExact(deps, inDegree, done)
    && DispatchedWhenReady(deps, {}, multiset(queue) + multiset(done), done)
  }

  lemma HeadIsReady(deps: Deps, inDegree: map<NodeID, int>, queue: seq<NodeID>, done: set<NodeID>)
    requires Processing(deps, inDegree, queue, done) && queue != []
    ensures var u := queue[0]; u in deps && u !in done && Ready(deps, u, done)
  {
    var u := queue[0];
    var dispatched := multiset(queue) + multiset(done);
    assert u in queue && u in dispatched;
    assert dispatched[u] == Turns(deps, {}, done, u);
  }

  lemma ReleaseNext(deps: Deps, adj: map<NodeID, seq<NodeID>>, inDegree: map<NodeID, int>,
                    queue: seq<NodeID>, done: set<NodeID>, u: NodeID)
    requires Inverts(deps, adj) && Processing(deps, inDegree, queue, done)
    requires queue != [] && queue[0] == u && u in deps && u !in done
    ensures Processing(deps, Credit(inDegree, adj[u]).0, queue[1..] + Credit(inDegree, adj[u]).1, done + {u})
  {
    SuccessDegrees(deps, adj, inDegree, done, u);
    SuccessDispatch(deps, adj, {}, inDegree, multiset(queue) + multiset(done), done, u);
    HeadMoves(queue, done, u, Credit(inDegree, adj[u]).1);
  }

  lemma HeadMoves(queue: seq<NodeID>, done: set<NodeID>, u: NodeID, sent: seq<NodeID>)
    requires queue != [] && queue[0] == u && u !in done
    ensures multiset(queue) + multiset(done) + multiset(sent)
            == multiset(queue[1..] + sent) + multiset(done + {u})
  {
    assert queue == [u] + queue[1..];
    assert multiset(done + {u}) == multiset(done) + multiset{u};
  }

  lemma AllProcessed(deps: Deps, rank: map<NodeID, nat>)
    requires PartialRanks(deps, rank) && rank.Keys == deps.Keys
    ensures Acyclic(deps)
  {
    forall v, d | v in deps && d in deps[v] ensures d in rank && rank[d] < rank[v] {
      assert Ready(deps, v, rank.Keys);
    }
    assert Ranks(deps, rank);
  }

  lemma LeftWaiting(deps: Deps, done: set<NodeID>, v: NodeID)
    requires Closed(deps) && v in deps && v !in done
    requires DispatchedWhenReady(deps, {}, multiset([]) + multiset(done), done)
    ensures WaitsIn(deps, v, deps.Keys - done)
  {
    assert (multiset([]) + multiset(done))[v] == 0;
    var d :| d in deps[v] && d !in done;
    assert d in deps.Keys - done;
  }

  /** The nodes left over when the queue runs dry wait for each other. */
  lemma LeftoverCycle(deps: Deps, done: set<NodeID>) returns (cycle: seq<NodeID>)
    requires Closed(deps) && done <= deps.Keys && done != deps.Keys
    requires DispatchedWhenReady(deps, {}, multiset([]) + multiset(done), done)
    ensures IsCycle(deps, cycle) && !Acyclic(deps)
  {
    var rest := deps.Keys - done;
    forall v | v in rest ensures WaitsIn(deps, v, rest) {
      LeftWaiting(deps, done, v);
    }
    assert rest != {} by {
      assert done == deps.Keys - rest;
    }
    cycle := StuckSetHasCycle(deps, rest);
  }

  lemma SameSize(part: set<NodeID>, whole: set<NodeID>)
    requires part <= whole
    ensures |part| <= |whole| && (|part| == |whole| <==> part == whole)
  {
    assert |whole| == |whole - part| + |part|;
    assert whole - part == {} ==> part == whole;
  }

  lemma StartProcessing(deps: Deps, inDegree: map<NodeID, int>, queue: seq<NodeID>)
    requires DegreesExact(deps, inDegree, {}) && DispatchedWhenReady(deps, {}, multiset(queue), {})
    ensures Processing(deps, inDegree, queue, {})
  {
    assert multiset(queue) + multiset({}) == multiset(queue);
  }

  /** The loop invariant of the cycle check, with the processing order as ranks. */
  ghost predicate Underway(deps: Deps, inDegree: map<NodeID, int>, queue: seq<NodeID>, done: set<NodeID>,
                           rank: map<NodeID, nat>) {
    Processing(deps, inDegree, queue, done) && PartialRanks(deps, rank) && rank.Keys == done
  }

  lemma StepUnderway(deps: Deps, adj: map<NodeID, seq<NodeID>>, inDegree: map<NodeID, int>,
                     queue: seq<NodeID>, done: set<NodeID>, rank: map<NodeID, nat>)
    requires Inverts(deps, adj) && Underway(deps, inDegree, queue, done, rank) && queue != []
    ensures var u := queue[0];
            && u in deps && u !in done
            && Underway(deps, Credit(inDegree, adj[u]).0, queue[1..] + Credit(inDegree, adj[u]).1,
                        done + {u}, rank[u := |rank|])
  {
    HeadIsReady(deps, inDegree, queue, done);
    ReleaseNext(deps, adj, inDegree, queue, done, queue[0]);
    ExtendRanks(deps, rank, queue[0]);
  }

  lemma Conclude(deps: Deps, inDegree: map<NodeID, int>, done: set<NodeID>,
                 rank: map<NodeID, nat>) returns (cycle: seq<NodeID>)
    requires Closed(deps) && Underway(deps, inDegree, [], done, rank)
    ensures |done| <= |deps|
    ensures |done| == |deps| <==> Acyclic(deps)
    ensures |done| != |deps| ==> IsCycle(deps, cycle)
  {
    cycle := [];
    SameSize(done, deps.Keys);
    assert |deps| == |deps.Keys|;
    if done == deps.Keys {
      AllProcessed(deps, rank);
    } else {
      cycle := LeftoverCycle(deps, done);
    }
  }

  /** Takes the head of the queue and releases what only waited for it. */
  method ProcessHead(deps: Deps, adj: map<NodeID, seq<NodeID>>, degrees: map<NodeID, int>, waiting: seq<NodeID>,
                     ghost done0: set<NodeID>, ghost rank0: map<NodeID, nat>)
    returns (inDegree: map<NodeID, int>, queue: seq<NodeID>, ghost done: set<NodeID>, ghost rank: map<NodeID, nat>)
    requires Inverts(deps, adj) && Underway(deps, degrees, waiting, done0, rank0) && waiting != []
    ensures Underway(deps, inDegree, queue, done, rank)
    ensures done <= deps.Keys && |done| == |done0| + 1
  {
    var u := waiting[0];
    StepUnderway(deps, adj, degrees, waiting, done0, rank0);
    inDegree, queue := CreditAll(degrees, adj[u], waiting[1..]);
    done, rank := done0 + {u}, rank0[u := |rank0|];
  }

  lemma DoneFits(deps: Deps, done: set<NodeID>)
    requires done <= deps.Keys
    ensures |done| <= |deps|
  {
    SameSize(done, deps.Keys);
  }

  /** Counts the nodes that can be processed in dependency order: all of them exactly
      when the graph has no cycle. */
  method CountProcessable(deps: Deps, adj: map<NodeID, seq<NodeID>>, degrees: map<NodeID, int>)
    returns (count: nat, ghost cycle: seq<NodeID>)
    requires Closed(deps) && Inverts(deps, adj) && DegreesExact(deps, degrees, {})
    ensures count <= |deps|
    ensures count == |deps| <==> Acyclic(deps)
    ensures count != |deps| ==> IsCycle(deps, cycle)
  {
    var inDegree := degrees;
    var queue := ReadyNodes(deps, inDegree);
    count := 0;
    ghost var done: set<NodeID> := {};
    ghost var rank: map<NodeID, nat> := map[];
    StartProcessing(deps, inDegree, queue);
    while queue != []
      invariant Underway(deps, inDegree, queue, done, rank)
      invariant count == |done| <= |deps|
      decreases |deps| - |done|
    {
      inDegree, queue, done, rank := ProcessHead(deps, adj, inDegree, queue, done, rank);
      DoneFits(deps, done);
      count := count + 1;
    }
    cycle := Conclude(deps, inDegree, done, rank);
  }
}
