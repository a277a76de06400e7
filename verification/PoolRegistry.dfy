/** Creating the pool of a key with double-checked locking: a read under the read
    lock, then a second look and a write under the write lock. */
module PoolRegistry {

  /** A caller of getOrCreateHostPool: about to look, having looked in vain, or done. */
  datatype Caller = Looking(key: string) | Missed(key: string) | Returned(key: string, pool: nat)

  /** `pools` maps keys to pool objects; `made` counts the objects created so far. */
  datatype Registry = Registry(pools: map<string, nat>, made: nat, callers: map<nat, Caller>)

  datatype Move = FastPath(who: nat) | SlowPath(who: nat)

  predicate Possible(r: Registry, m: Move) {
    m.who in r.callers &&
    match m
    case FastPath(who) => r.callers[who].Looking?
    case SlowPath(who) => r.callers[who].Missed?
  }

  function Apply(r: Registry, m: Move): Registry
    requires Possible(r, m)
  {
    var key := r.callers[m.who].key;
    match m
    case FastPath(who) =>
      r.(callers := r.callers[who := if key in r.pools then Returned(key, r.pools[key]) else Missed(key)])
    case SlowPath(who) =>
      if key in r.pools then r.(callers := r.callers[who := Returned(key, r.pools[key])])
      else Registry(r.pools[key := r.made], r.made + 1, r.callers[who := Returned(key, r.made)])
  }

  /** Pools are distinct objects, and whoever returned holds the registered one. */
  ghost predicate Inv(r: Registry) {
    && r.made == |r.pools|
    && (forall k :: k in r.pools ==> r.pools[k] < r.made)
    && (forall k, l :: k in r.pools && l in r.pools && k != l ==> r.pools[k] != r.pools[l])
    && (forall w :: w in r.callers && r.callers[w].Returned? ==>
          r.callers[w].key in r.pools && r.pools[r.callers[w].key] == r.callers[w].pool)
  }

  /** Once registered, a key's pool is never replaced. */
  ghost predicate Extends(before: Registry, after: Registry) {
    forall k :: k in before.pools ==> k in after.pools && after.pools[k] == before.pools[k]
  }

  lemma StepInv(r: Registry, m: Move)
    requires Inv(r) && Possible(r, m)
    ensures Inv(Apply(r, m)) && Extends(r, Apply(r, m))
  {
  }

  /** A caller whose key is registered has its pool after the look under the read lock, and makes
      none; any other has one after the look under the write lock that follows. */
  lemma TwoLooksSuffice(r: Registry, who: nat)
    requires Possible(r, FastPath(who))
    ensures var key, first := r.callers[who].key, Apply(r, FastPath(who));
            && first.pools == r.pools && first.made == r.made
            && if key in r.pools then first.callers[who] == Returned(key, r.pools[key]) else
               && Possible(first, SlowPath(who))
               && var second := Apply(first, SlowPath(who));
                  key in second.pools && second.callers[who] == Returned(key, second.pools[key])
  {
  }

  ghost predicate Course(r: Registry, ms: seq<Move>, end: Registry)
    decreases |ms|
  {
    if ms == [] then r == end
    else Possible(r, ms[0]) && Course(Apply(r, ms[0]), ms[1..], end)
  }

  lemma {:induction false} CourseInv(r: Registry, ms: seq<Move>, end: Registry)
    requires Inv(r) && Course(r, ms, end)
    ensures Inv(end) && Extends(r, end)
    decreases |ms|
  {
    if ms != [] {
      StepInv(r, ms[0]);
      CourseInv(Apply(r, ms[0]), ms[1..], end);
    }
  }

  /** Whatever the interleaving, all callers for one key get the same pool object, and
      callers for different keys get different ones. */
  lemma OnePoolPerKey(callers: map<nat, Caller>, ms: seq<Move>, end: Registry, a: nat, b: nat)
    requires forall w :: w in callers ==> callers[w].Looking?
    requires Course(Registry(map[], 0, callers), ms, end)
    requires a in end.callers && b in end.callers && end.callers[a].Returned? && end.callers[b].Returned?
    ensures end.callers[a].pool == end.callers[b].pool <==> end.callers[a].key == end.callers[b].key
  {
    CourseInv(Registry(map[], 0, callers), ms, end);
  }

  /** ... also across time: a caller that returned earlier and one that returns later. */
  lemma PoolNeverReplaced(r: Registry, ms: seq<Move>, end: Registry, a: nat, b: nat)
    requires Inv(r) && Course(r, ms, end)
    requires a in r.callers && r.callers[a].Returned? && b in end.callers && end.callers[b].Returned?
    requires r.callers[a].key == end.callers[b].key
    ensures r.callers[a].pool == end.callers[b].pool
  {
    CourseInv(r, ms, end);
  }
}
