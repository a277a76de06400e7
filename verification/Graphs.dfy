/** Dependency graphs as values: the mathematics behind the plan package.
    A graph maps every node ID to the list of IDs it depends on; the list may
    hold duplicates, self-loops and IDs outside the graph. */
module Graphs {
  import opened Sequences

  datatype NodeID = NodeID(name: string)

  type Deps = map<NodeID, seq<NodeID>>

  /** Every dependency is itself a node of the graph. */
  ghost predicate Closed(g: Deps) {
    forall v, d :: v in g && d in g[v] ==> d in g
  }

  /** A strict rank function: dependencies rank below their dependents. */
  ghost predicate Ranks(g: Deps, rank: map<NodeID, nat>) {
    && g.Keys <= rank.Keys
    && forall v, d :: v in g && d in g[v] ==> d in rank && rank[d] < rank[v]
  }

  ghost predicate Acyclic(g: Deps) {
    exists rank :: Ranks(g, rank)
  }

  /** A walk follows dependencies: each ID is a dependency of the one before it. */
  ghost predicate IsWalk(g: Deps, p: seq<NodeID>) {
    forall i :: 0 <= i < |p| - 1 ==> p[i] in g && p[i + 1] in g[p[i]]
  }

  ghost predicate IsCycle(g: Deps, p: seq<NodeID>) {
    |p| >= 2 && IsWalk(g, p) && p[0] == p[|p| - 1]
  }

  /** `a` is a direct or transitive dependency of `b`. */
  ghost predicate DependsOn(g: Deps, b: NodeID, a: NodeID) {
    exists p :: |p| >= 2 && IsWalk(g, p) && p[0] == b && p[|p| - 1] == a
  }

  ghost predicate WaitsIn(g: Deps, v: NodeID, nodes: set<NodeID>)
    requires v in g
  {
    exists d :: d in nodes && d in g[v]
  }

  /** A non-empty set of nodes none of which can ever become ready. */
  ghost predicate Stuck(g: Deps, stuck: set<NodeID>) {
    && stuck != {}
    && stuck <= g.Keys
    && forall v {:trigger WaitsIn(g, v, stuck)} :: v in stuck ==> WaitsIn(g, v, stuck)
  }

  lemma {:induction false} RankFallsAlongWalk(g: Deps, rank: map<NodeID, nat>, p: seq<NodeID>)
    requires Ranks(g, rank) && IsWalk(g, p) && |p| >= 2
    ensures p[0] in rank && p[|p| - 1] in rank && rank[p[|p| - 1]] < rank[p[0]]
  {
    assert p[0] in g && p[1] in g[p[0]];
    if |p| > 2 {
      var tail := p[1..];
      forall i | 0 <= i < |tail| - 1 ensures tail[i] in g && tail[i + 1] in g[tail[i]] {
        assert tail[i] == p[i + 1] && tail[i + 1] == p[i + 2];
      }
      RankFallsAlongWalk(g, rank, tail);
    }
  }

  lemma AcyclicHasNoCycle(g: Deps, p: seq<NodeID>)
    requires Acyclic(g)
    ensures !IsCycle(g, p)
  {
    if IsCycle(g, p) {
      var rank :| Ranks(g, rank);
      RankFallsAlongWalk(g, rank, p);
    }
  }

  /** Walking inside a stuck set must revisit a node. */
  lemma {:induction false} WalkUntilRepeat(g: Deps, stuck: set<NodeID>, p: seq<NodeID>)
    returns (cycle: seq<NodeID>)
    requires Stuck(g, stuck)
    requires p != [] && IsWalk(g, p) && Distinct(p)
    requires forall i :: 0 <= i < |p| ==> p[i] in stuck
    ensures IsCycle(g, cycle)
    decreases |stuck| - |p|
  {
    DistinctFits(p, stuck);
    var last := p[|p| - 1];
    assert WaitsIn(g, last, stuck);
    var next :| next in stuck && next in g[last];
    var longer := p + [next];
    forall i | 0 <= i < |longer| - 1 ensures longer[i] in g && longer[i + 1] in g[longer[i]] {
      assert i < |p| - 1 ==> p[i] in g && p[i + 1] in g[p[i]];
    }
    if next in p {
      var start :| 0 <= start < |p| && p[start] == next;
      cycle := longer[start..];
      forall i | 0 <= i < |cycle| - 1 ensures cycle[i] in g && cycle[i + 1] in g[cycle[i]] {
        assert cycle[i] == longer[start + i] && cycle[i + 1] == longer[start + i + 1];
      }
    } else {
      DistinctFits(longer, stuck);
      cycle := WalkUntilRepeat(g, stuck, longer);
    }
  }

  lemma StuckSetHasCycle(g: Deps, stuck: set<NodeID>) returns (cycle: seq<NodeID>)
    requires Stuck(g, stuck)
    ensures IsCycle(g, cycle)
    ensures !Acyclic(g)
  {
    var first :| first in stuck;
    cycle := WalkUntilRepeat(g, stuck, [first]);
    if Acyclic(g) {
      AcyclicHasNoCycle(g, cycle);
    }
  }

  /** Every dependency of `v` is among `done`. */
  ghost predicate Ready(g: Deps, v: NodeID, done: set<NodeID>)
    requires v in g
  {
    forall d :: d in g[v] ==> d in done
  }

  ghost predicate CycleFree(g: Deps) {
    forall p :: !IsCycle(g, p)
  }

  /** Some unranked node is ready, or the unranked nodes are stuck. */
  lemma NextToRank(g: Deps, done: set<NodeID>) returns (v: NodeID)
    requires Closed(g) && CycleFree(g)
    requires done <= g.Keys && done != g.Keys
    ensures v in g && v !in done && Ready(g, v, done)
  {
    var rest := g.Keys - done;
    if forall w {:trigger Ready(g, w, done)} :: w in rest ==> !Ready(g, w, done) {
      forall w | w in rest ensures WaitsIn(g, w, rest) {
        assert !Ready(g, w, done);
        var d :| d in g[w] && d !in done;
        assert d in rest;
      }
      assert rest != {} by {
        assert done == g.Keys - rest;
      }
      var cycle := StuckSetHasCycle(g, rest);
      assert false;
    }
    v :| v in rest && Ready(g, v, done);
  }

  /** A rank function for the part of the graph ranked so far. */
  ghost predicate PartialRanks(g: Deps, rank: map<NodeID, nat>) {
    && rank.Keys <= g.Keys
    && (forall v :: v in rank ==> Ready(g, v, rank.Keys))
    && (forall v, d :: v in rank && d in rank && d in g[v] ==> rank[d] < rank[v])
    && (forall v :: v in rank ==> rank[v] < |rank|)
  }

  lemma ExtendRanks(g: Deps, rank: map<NodeID, nat>, v: NodeID)
    requires PartialRanks(g, rank)
    requires v in g && v !in rank && Ready(g, v, rank.Keys)
    ensures PartialRanks(g, rank[v := |rank|])
  {
    var wider := rank[v := |rank|];
    assert wider.Keys == rank.Keys + {v};
    assert |wider| == |rank| + 1;
    forall w | w in wider ensures Ready(g, w, wider.Keys) {
      assert w != v ==> Ready(g, w, rank.Keys);
    }
    forall w, d | w in wider && d in wider && d in g[w] ensures wider[d] < wider[w] {
      if w != v {
        assert Ready(g, w, rank.Keys);
        assert d in rank;
      }
    }
  }

  /** Ranks the nodes one at a time; only a cycle could stop it. */
  lemma {:induction false} RankTheRest(g: Deps, rank: map<NodeID, nat>)
    requires Closed(g) && CycleFree(g)
    requires PartialRanks(g, rank)
    ensures Acyclic(g)
    decreases |g.Keys - rank.Keys|
  {
    if rank.Keys == g.Keys {
      forall v, d | v in g && d in g[v] ensures d in rank && rank[d] < rank[v] {
        assert Ready(g, v, rank.Keys);
      }
      assert Ranks(g, rank);
    } else {
      var v := NextToRank(g, rank.Keys);
      ExtendRanks(g, rank, v);
      assert g.Keys - rank[v := |rank|].Keys == g.Keys - rank.Keys - {v};
      RankTheRest(g, rank[v := |rank|]);
    }
  }

  /** Rank functions and cycles are the two sides of one coin. */
  lemma AcyclicIffNoCycle(g: Deps)
    requires Closed(g)
    ensures Acyclic(g) <==> CycleFree(g)
  {
    if Acyclic(g) {
      forall p ensures !IsCycle(g, p) {
        AcyclicHasNoCycle(g, p);
      }
    }
    if CycleFree(g) {
      RankTheRest(g, map[]);
    }
  }

  lemma DependsOnStep(g: Deps, b: NodeID, m: NodeID, a: NodeID)
    requires b in g && m in g[b]
    requires m == a || DependsOn(g, m, a)
    ensures DependsOn(g, b, a)
  {
    var rest := [m];
    if m != a {
      rest :| |rest| >= 2 && IsWalk(g, rest) && rest[0] == m && rest[|rest| - 1] == a;
    }
    var p := [b] + rest;
    forall i | 0 <= i < |p| - 1 ensures p[i] in g && p[i + 1] in g[p[i]] {
      assert i > 0 ==> p[i] == rest[i - 1] && p[i + 1] == rest[i];
    }
    assert |p| >= 2 && IsWalk(g, p) && p[0] == b && p[|p| - 1] == a;
  }

  lemma DependsOnTrans(g: Deps, c: NodeID, b: NodeID, a: NodeID)
    requires DependsOn(g, c, b) && DependsOn(g, b, a)
    ensures DependsOn(g, c, a)
  {
    var p :| |p| >= 2 && IsWalk(g, p) && p[0] == c && p[|p| - 1] == b;
    var q :| |q| >= 2 && IsWalk(g, q) && q[0] == b && q[|q| - 1] == a;
    var r := p + q[1..];
    forall i | 0 <= i < |r| - 1 ensures r[i] in g && r[i + 1] in g[r[i]] {
      if i < |p| - 1 {
        assert r[i] == p[i] && r[i + 1] == p[i + 1];
      } else {
        var k := i - (|p| - 1);
        assert r[i] == q[k] && r[i + 1] == q[k + 1];
      }
    }
    assert |r| >= 2 && IsWalk(g, r) && r[0] == c && r[|r| - 1] == a;
  }

  /** The first step of a dependency path. */
  lemma DependsOnCases(g: Deps, b: NodeID, a: NodeID) returns (m: NodeID)
    requires DependsOn(g, b, a)
    ensures b in g && m in g[b] && (m == a || DependsOn(g, m, a))
  {
    var p :| |p| >= 2 && IsWalk(g, p) && p[0] == b && p[|p| - 1] == a;
    m := p[1];
    assert p[0] in g && p[1] in g[p[0]];
    if |p| > 2 {
      var tail := p[1..];
      forall i | 0 <= i < |tail| - 1 ensures tail[i] in g && tail[i + 1] in g[tail[i]] {
        assert tail[i] == p[i + 1] && tail[i + 1] == p[i + 2];
      }
      assert |tail| >= 2 && IsWalk(g, tail) && tail[0] == m && tail[|tail| - 1] == a;
    }
  }

  /** Adding edges keeps every dependency path. */
  lemma DependsOnMono(g: Deps, h: Deps, b: NodeID, a: NodeID)
    requires DependsOn(g, b, a)
    requires g.Keys <= h.Keys
    requires forall v, d :: v in g && d in g[v] ==> d in h[v]
    ensures DependsOn(h, b, a)
  {
    var p :| |p| >= 2 && IsWalk(g, p) && p[0] == b && p[|p| - 1] == a;
    assert IsWalk(h, p);
  }

  lemma {:induction false} RankBound(rank: map<NodeID, nat>, keys: set<NodeID>) returns (bound: nat)
    requires keys <= rank.Keys
    ensures forall v :: v in keys ==> rank[v] < bound
  {
    if keys == {} {
      bound := 0;
    } else {
      var v :| v in keys;
      var rest := RankBound(rank, keys - {v});
      bound := if rank[v] < rest then rest else rank[v] + 1;
    }
  }
}
