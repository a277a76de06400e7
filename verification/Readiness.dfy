/** Counting edges: the in-degree bookkeeping shared by the graph's cycle check
    and by the executor, which both release a node when its last dependency is met. */
module Readiness {
  import opened Graphs

  function Occurs(s: seq<NodeID>, x: NodeID): (n: nat)
    ensures n > 0 <==> x in s
  {
    if s == [] then 0 else (if s[0] == x then 1 else 0) + Occurs(s[1..], x)
  }

  /** The number of entries of a dependency list that have not reported Success. */
  function Outstanding(ds: seq<NodeID>, succeeded: set<NodeID>): (n: nat)
    ensures n == 0 <==> forall d :: d in ds ==> d in succeeded
    ensures n <= |ds|
  {
    if ds == [] then 0
    else
      assert forall d :: d in ds <==> d == ds[0] || d in ds[1..];
      (if ds[0] in succeeded then 0 else 1) + Outstanding(ds[1..], succeeded)
  }

  lemma {:induction false} OutstandingAfter(ds: seq<NodeID>, succeeded: set<NodeID>, n: NodeID)
    requires n !in succeeded
    ensures Outstanding(ds, succeeded + {n}) == Outstanding(ds, succeeded) - Occurs(ds, n)
  {
    if ds != [] {
      OutstandingAfter(ds[1..], succeeded, n);
    }
  }

  lemma {:induction false} OutstandingNone(ds: seq<NodeID>)
    ensures Outstanding(ds, {}) == |ds|
  {
    if ds != [] {
      OutstandingNone(ds[1..]);
    }
  }

  // ----- Crediting a success ----------------------------------------------------

  /** Decrements the in-degree once per listed dependent; a counter that reaches
      zero puts its node on the task channel. */
  function Credit(inDegree: map<NodeID, int>, ds: seq<NodeID>): (r: (map<NodeID, int>, seq<NodeID>))
    requires forall d :: d in ds ==> d in inDegree
    ensures r.0.Keys == inDegree.Keys
    ensures forall d :: d in r.1 ==> d in ds
  {
    if ds == [] then (inDegree, [])
    else
      var left := inDegree[ds[0]] - 1;
      var rest := Credit(inDegree[ds[0] := left], ds[1..]);
      (rest.0, (if left == 0 then [ds[0]] else []) + rest.1)
  }

  lemma {:induction false} CreditDegrees(inDegree: map<NodeID, int>, ds: seq<NodeID>, v: NodeID)
    requires forall d :: d in ds ==> d in inDegree
    requires v in inDegree
    ensures Credit(inDegree, ds).0[v] == inDegree[v] - Occurs(ds, v)
  {
    if ds != [] {
      CreditDegrees(inDegree[ds[0] := inDegree[ds[0]] - 1], ds[1..], v);
    }
  }

  /** Each node made ready by a success is dispatched exactly once. */
  lemma {:induction false} CreditDispatches(inDegree: map<NodeID, int>, ds: seq<NodeID>, v: NodeID)
    requires forall d :: d in ds ==> d in inDegree
    requires v in inDegree && Occurs(ds, v) <= inDegree[v]
    ensures Occurs(Credit(inDegree, ds).1, v)
            == if v in ds && inDegree[v] == Occurs(ds, v) then 1 else 0
  {
    if ds != [] {
      var left := inDegree[ds[0]] - 1;
      var next := inDegree[ds[0] := left];
      CreditDispatches(next, ds[1..], v);
      var tail := Credit(next, ds[1..]).1;
      assert ([ds[0]] + tail)[1..] == tail;
      assert [] + tail == tail;
      assert v in ds <==> v == ds[0] || v in ds[1..];
    }
  }

  // ----- The inverted edges ------------------------------------------------------

  ghost predicate Inverts(deps: Deps, dependents: map<NodeID, seq<NodeID>>) {
    && dependents.Keys == deps.Keys
    && (forall u, v :: u in dependents && v in dependents[u] ==> v in deps)
    && (forall u, v {:trigger Occurs(dependents[u], v)} {:trigger Occurs(deps[v], u)} ::
          u in deps && v in deps ==> Occurs(dependents[u], v) == Occurs(deps[v], u))
  }

  // ----- What the counters mean --------------------------------------------------

  /** How often a node is due on the queue: once when every dependency is met,
      never before, and never at all for the nodes in `skip`. */
  function Turns(deps: Deps, skip: set<NodeID>, met: set<NodeID>, v: NodeID): nat
    requires v in deps
  {
    if v !in skip && Outstanding(deps[v], met) == 0 then 1 else 0
  }

  /** Exactly-once dispatch: `dispatched` holds each node as often as it is due. */
  ghost predicate DispatchedWhenReady(deps: Deps, skip: set<NodeID>, dispatched: multiset<NodeID>, met: set<NodeID>) {
    && (forall v :: v in dispatched ==> v in deps)
    && (forall v :: v in deps ==> dispatched[v] == Turns(deps, skip, met, v))
  }

  /** The in-degree counters count the dependency edges not yet met. */
  ghost predicate DegreesExact(deps: Deps, inDegree: map<NodeID, int>, met: set<NodeID>) {
    && inDegree.Keys == deps.Keys
    && forall v :: v in deps ==> inDegree[v] == Outstanding(deps[v], met)
  }

  lemma {:induction false} OccursMultiset(t: seq<NodeID>, v: NodeID)
    ensures multiset(t)[v] == Occurs(t, v)
  {
    if t != [] {
      assert t == [t[0]] + t[1..];
      OccursMultiset(t[1..], v);
    }
  }

  lemma SuccessDegrees(deps: Deps, dependents: map<NodeID, seq<NodeID>>, inDegree: map<NodeID, int>, met: set<NodeID>,
                       n: NodeID)
    requires Inverts(deps, dependents) && DegreesExact(deps, inDegree, met)
    requires n in deps && n !in met
    ensures DegreesExact(deps, Credit(inDegree, dependents[n]).0, met + {n})
  {
    forall v | v in deps
      ensures Credit(inDegree, dependents[n]).0[v] == Outstanding(deps[v], met + {n})
    {
      CreditDegrees(inDegree, dependents[n], v);
      OutstandingAfter(deps[v], met, n);
      assert Occurs(dependents[n], v) == Occurs(deps[v], n);
    }
  }

  lemma SuccessTurns(deps: Deps, dependents: map<NodeID, seq<NodeID>>, skip: set<NodeID>,
                     inDegree: map<NodeID, int>, met: set<NodeID>, n: NodeID, v: NodeID)
    requires Inverts(deps, dependents) && DegreesExact(deps, inDegree, met)
    requires n in deps && n !in met && v in deps
    requires v in skip ==> n !in deps[v]
    ensures Turns(deps, skip, met + {n}, v)
            == Turns(deps, skip, met, v) + Occurs(Credit(inDegree, dependents[n]).1, v)
  {
    OutstandingAfter(deps[v], met, n);
    assert Occurs(dependents[n], v) == Occurs(deps[v], n);
    CreditDispatches(inDegree, dependents[n], v);
  }

  /** Crediting a node that was just met releases exactly the nodes now due. */
  lemma SuccessDispatch(deps: Deps, dependents: map<NodeID, seq<NodeID>>, skip: set<NodeID>,
                        inDegree: map<NodeID, int>, dispatched: multiset<NodeID>, met: set<NodeID>, n: NodeID)
    requires Inverts(deps, dependents)
    requires DegreesExact(deps, inDegree, met) && DispatchedWhenReady(deps, skip, dispatched, met)
    requires n in deps && n !in met
    requires forall v :: v in deps && v in skip ==> n !in deps[v]
    ensures DispatchedWhenReady(deps, skip, dispatched + multiset(Credit(inDegree, dependents[n]).1), met + {n})
  {
    var sent := Credit(inDegree, dependents[n]).1;
    forall v | v in deps ensures (dispatched + multiset(sent))[v] == Turns(deps, skip, met + {n}, v) {
      SuccessTurns(deps, dependents, skip, inDegree, met, n, v);
      OccursMultiset(sent, v);
    }
  }
}
