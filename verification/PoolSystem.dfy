/** Any number of users of one key's pool, interleaving at the critical sections;
    the lock is not held while a user dials. */
module PoolSystem {
  import opened ConnectionPools

  /** `held` are the connections checked out, `dialing` counts users that released the
      lock to dial, `closed` the connections the pool or their holder gave up. */
  datatype System = System(pool: HostPool, held: map<nat, Conn>, dialing: nat, closed: set<nat>, nextId: nat)

  datatype Action =
    | Get(now: int, healthy: set<nat>)
    | DialOk(now: int)
    | DialFails
    | Put(id: nat, isHealthy: bool, now: int)
    | CloseConnection(id: nat)
    | Scrub(now: int)

  const START := System(HostPool([], 0), map[], 0, {}, 0)

  function Ids(idle: seq<Conn>): set<nat> {
    set i | 0 <= i < |idle| :: idle[i].id
  }

  /** Each taken connection is returned once, by whoever holds it. */
  predicate Enabled(s: System, a: Action) {
    match a
    case DialOk(_) => s.dialing > 0
    case DialFails => s.dialing > 0
    case Put(id, _, _) => id in s.held
    case CloseConnection(id) => id in s.held
    case _ => true
  }

  function AfterGet(cfg: PoolConfig, s: System, now: int, healthy: set<nat>): System {
    var r := BeginGet(cfg, s.pool, now, healthy);
    var s1 := s.(pool := r.0, closed := s.closed + Ids(s.pool.idle[..Discarded(cfg, s.pool.idle, now, healthy)]));
    match r.1
    case Reused(mc) => s1.(held := s1.held[mc.id := mc])
    case Exhausted => s1
    case MustDial => s1.(dialing := s1.dialing + 1)
  }

  function AfterPut(cfg: PoolConfig, s: System, id: nat, isHealthy: bool, now: int): System
    requires id in s.held
  {
    var pool := PutBack(cfg, s.pool, s.held[id], isHealthy, now);
    s.(pool := pool, held := s.held - {id},
       closed := if id in Ids(pool.idle) then s.closed else s.closed + {id})
  }

  function Apply(cfg: PoolConfig, s: System, a: Action): System
    requires Enabled(s, a)
  {
    match a
    case Get(now, healthy) => AfterGet(cfg, s, now, healthy)
    case DialOk(now) =>
      s.(dialing := s.dialing - 1, held := s.held[s.nextId := Conn(s.nextId, now, now)], nextId := s.nextId + 1)
    case DialFails =>
      s.(dialing := s.dialing - 1, pool := HostPool(s.pool.idle, s.pool.numActive - 1))
    case Put(id, isHealthy, now) => AfterPut(cfg, s, id, isHealthy, now)
    case CloseConnection(id) =>
      s.(pool := GiveUp(s.pool, id), held := s.held - {id}, closed := s.closed + {id})
    case Scrub(now) =>
      var pool := Scrubbed(cfg, s.pool, now);
      s.(pool := pool, closed := s.closed + (Ids(s.pool.idle) - Ids(pool.idle)))
  }

  // ----- The conservation invariant -----------------------------------------------------

  ghost predicate DistinctIds(idle: seq<Conn>) {
    forall i, j :: 0 <= i < j < |idle| ==> idle[i].id != idle[j].id
  }

  /** The counter accounts for every connection, within its bounds. */
  ghost predicate Accounted(cfg: PoolConfig, pool: HostPool, held: nat, dialing: nat) {
    && pool.numActive == |pool.idle| + held + dialing
    && pool.numActive <= Clamped(cfg.maxPerKey)
    && |pool.idle| <= Clamped(cfg.maxIdlePerKey)
  }

  ghost predicate Below(ids: set<nat>, bound: nat) {
    forall id :: id in ids ==> id < bound
  }

  /** A connection is in one place only, and new identities are really new. */
  ghost predicate Apart(idle: set<nat>, held: set<nat>, closed: set<nat>, nextId: nat) {
    && idle !! held && idle !! closed && held !! closed
    && Below(idle, nextId) && Below(held, nextId) && Below(closed, nextId)
  }

  ghost predicate Placed(idle: seq<Conn>, held: set<nat>, closed: set<nat>, nextId: nat) {
    DistinctIds(idle) && Apart(Ids(idle), held, closed, nextId)
  }

  ghost predicate Inv(cfg: PoolConfig, s: System) {
    && Accounted(cfg, s.pool, |s.held|, s.dialing)
    && Placed(s.pool.idle, s.held.Keys, s.closed, s.nextId)
    && forall id :: id in s.held ==> s.held[id].id == id
  }

  lemma StartInv(cfg: PoolConfig)
    ensures Inv(cfg, START)
  {
    assert Ids(START.pool.idle) == {};
  }

  lemma SplitIds(idle: seq<Conn>, k: nat)
    requires k <= |idle|
    ensures Ids(idle) == Ids(idle[..k]) + Ids(idle[k..])
  {
    forall id | id in Ids(idle) ensures id in Ids(idle[..k]) + Ids(idle[k..]) {
      var i :| 0 <= i < |idle| && idle[i].id == id;
      if i < k {
        assert idle[..k][i].id == id;
      } else {
        assert idle[k..][i - k].id == id;
      }
    }
  }

  lemma AppendIds(idle: seq<Conn>, mc: Conn)
    ensures Ids(idle + [mc]) == Ids(idle) + {mc.id}
  {
    SplitIds(idle + [mc], |idle|);
    assert (idle + [mc])[..|idle|] == idle && (idle + [mc])[|idle|..] == [mc];
    assert [mc][0].id in Ids([mc]);
  }

  lemma {:induction false} FreshIds(cfg: PoolConfig, idle: seq<Conn>, now: int)
    requires DistinctIds(idle)
    ensures DistinctIds(Fresh(cfg, idle, now)) && Ids(Fresh(cfg, idle, now)) <= Ids(idle)
  {
    if idle != [] {
      var rest, kept := idle[1..], Fresh(cfg, idle[1..], now);
      FreshIds(cfg, rest, now);
      SplitIds(idle, 1);
      if !Stale(cfg, idle[0], now) {
        SplitIds([idle[0]] + kept, 1);
        assert ([idle[0]] + kept)[1..] == kept && ([idle[0]] + kept)[..1] == idle[..1];
        assert idle[0].id !in Ids(rest);
        forall i, j | 0 <= i < j < |kept| + 1 ensures ([idle[0]] + kept)[i].id != ([idle[0]] + kept)[j].id {
          assert kept[j - 1].id in Ids(kept);
        }
      }
    }
  }

  lemma {:induction false} WithoutAbsent(idle: seq<Conn>, id: nat)
    requires id !in Ids(idle)
    ensures WithoutFirst(idle, id) == idle
  {
    if idle != [] {
      SplitIds(idle, 1);
      assert idle[..1][0].id in Ids(idle[..1]);
      WithoutAbsent(idle[1..], id);
    }
  }

  // ----- Every action keeps it --------------------------------------------------------

  lemma DistinctParts(idle: seq<Conn>, k: nat)
    requires DistinctIds(idle) && k < |idle|
    ensures DistinctIds(idle[k + 1..])
    ensures Ids(idle) == Ids(idle[..k]) + {idle[k].id} + Ids(idle[k + 1..])
    ensures Ids(idle[..k]) !! Ids(idle[k + 1..]) && idle[k].id !in Ids(idle[..k]) + Ids(idle[k + 1..])
  {
    SplitIds(idle, k);
    SplitIds(idle[k..], 1);
    assert idle[k..][1..] == idle[k + 1..] && idle[k..][..1] == [idle[k]];
    assert [idle[k]][0].id in Ids([idle[k]]);
  }

  lemma GetReusesPlaced(idle: seq<Conn>, held: set<nat>, closed: set<nat>, nextId: nat, k: nat)
    requires Placed(idle, held, closed, nextId) && k < |idle|
    ensures Placed(idle[k + 1..], held + {idle[k].id}, closed + Ids(idle[..k]), nextId)
    ensures idle[k].id !in held
  {
    DistinctParts(idle, k);
  }

  lemma GetEmptiesPlaced(idle: seq<Conn>, held: set<nat>, closed: set<nat>, nextId: nat)
    requires Placed(idle, held, closed, nextId)
    ensures Placed([], held, closed + Ids(idle), nextId)
  {
    assert Ids([]) == {};
  }

  lemma HeldGrows(held: map<nat, Conn>, mc: Conn)
    requires mc.id !in held
    ensures held[mc.id := mc].Keys == held.Keys + {mc.id} && |held[mc.id := mc]| == |held| + 1
  {
  }

  lemma HeldShrinks(held: map<nat, Conn>, id: nat)
    requires id in held
    ensures (held - {id}).Keys == held.Keys - {id} && |held - {id}| == |held| - 1
  {
  }

  lemma GetReusesInv(cfg: PoolConfig, s: System, now: int, healthy: set<nat>)
    requires Inv(cfg, s) && Discarded(cfg, s.pool.idle, now, healthy) < |s.pool.idle|
    ensures Inv(cfg, AfterGet(cfg, s, now, healthy))
  {
    var k := Discarded(cfg, s.pool.idle, now, healthy);
    GetReusesPlaced(s.pool.idle, s.held.Keys, s.closed, s.nextId, k);
    HeldGrows(s.held, s.pool.idle[k].(lastUsed := now));
  }

  lemma GetEmptiesInv(cfg: PoolConfig, s: System, now: int, healthy: set<nat>)
    requires Inv(cfg, s) && Discarded(cfg, s.pool.idle, now, healthy) == |s.pool.idle|
    ensures Inv(cfg, AfterGet(cfg, s, now, healthy))
  {
    GetEmptiesPlaced(s.pool.idle, s.held.Keys, s.closed, s.nextId);
    assert s.pool.idle[..|s.pool.idle|] == s.pool.idle;
  }

  lemma PutKeepsPlaced(idle: seq<Conn>, held: set<nat>, closed: set<nat>, nextId: nat, mc: Conn)
    requires Placed(idle, held, closed, nextId) && mc.id in held
    ensures Placed(idle + [mc], held - {mc.id}, closed, nextId)
    ensures Placed(idle, held - {mc.id}, closed + {mc.id}, nextId)
    ensures mc.id !in Ids(idle) && mc.id in Ids(idle + [mc])
  {
    AppendIds(idle, mc);
    forall i | 0 <= i < |idle| ensures idle[i].id != mc.id {
      assert idle[i].id in Ids(idle);
    }
  }

  /** Putting back the idle, or closing it: the counter moves only in the second case. */
  lemma PutInv(cfg: PoolConfig, s: System, id: nat, isHealthy: bool, now: int)
    requires Inv(cfg, s) && id in s.held
    ensures Inv(cfg, AfterPut(cfg, s, id, isHealthy, now))
    ensures PutBack(cfg, s.pool, s.held[id], isHealthy, now).numActive
            == s.pool.numActive - if !isHealthy || |s.pool.idle| >= cfg.maxIdlePerKey then 1 else 0
  {
    PutKeepsPlaced(s.pool.idle, s.held.Keys, s.closed, s.nextId, s.held[id].(lastUsed := now));
    HeldShrinks(s.held, id);
  }

  lemma CloseInv(cfg: PoolConfig, s: System, id: nat)
    requires Inv(cfg, s) && id in s.held
    ensures Inv(cfg, Apply(cfg, s, CloseConnection(id)))
    ensures GiveUp(s.pool, id) == HostPool(s.pool.idle, s.pool.numActive - 1)
  {
    PutKeepsPlaced(s.pool.idle, s.held.Keys, s.closed, s.nextId, s.held[id]);
    WithoutAbsent(s.pool.idle, id);
    HeldShrinks(s.held, id);
  }

  lemma ScrubPlaced(cfg: PoolConfig, idle: seq<Conn>, held: set<nat>, closed: set<nat>, nextId: nat, now: int)
    requires Placed(idle, held, closed, nextId)
    ensures var kept := Fresh(cfg, idle, now); Placed(kept, held, closed + (Ids(idle) - Ids(kept)), nextId)
  {
    FreshIds(cfg, idle, now);
  }

  lemma ScrubInv(cfg: PoolConfig, s: System, now: int)
    requires Inv(cfg, s)
    ensures Inv(cfg, Apply(cfg, s, Scrub(now)))
    ensures Scrubbed(cfg, s.pool, now).numActive == s.pool.numActive - (|s.pool.idle| - |Fresh(cfg, s.pool.idle, now)|)
  {
    ScrubPlaced(cfg, s.pool.idle, s.held.Keys, s.closed, s.nextId, now);
  }

  lemma DialedPlaced(idle: seq<Conn>, held: set<nat>, closed: set<nat>, nextId: nat)
    requires Placed(idle, held, closed, nextId)
    ensures Placed(idle, held + {nextId}, closed, nextId + 1)
  {
  }

  lemma DialOkInv(cfg: PoolConfig, s: System, now: int)
    requires Inv(cfg, s) && s.dialing > 0
    ensures Inv(cfg, Apply(cfg, s, DialOk(now)))
  {
    DialedPlaced(s.pool.idle, s.held.Keys, s.closed, s.nextId);
    HeldGrows(s.held, Conn(s.nextId, now, now));
  }

  /** Conservation: whatever the users, the scrubber, the clock and the network do. */
  lemma StepInv(cfg: PoolConfig, s: System, a: Action)
    requires Inv(cfg, s) && Enabled(s, a)
    ensures Inv(cfg, Apply(cfg, s, a))
  {
    match a
    case Get(now, healthy) =>
      if Discarded(cfg, s.pool.idle, now, healthy) < |s.pool.idle| {
        GetReusesInv(cfg, s, now, healthy);
      } else {
        GetEmptiesInv(cfg, s, now, healthy);
      }
    case DialOk(now) => DialOkInv(cfg, s, now);
    case DialFails =>
    case Put(id, isHealthy, now) => PutInv(cfg, s, id, isHealthy, now);
    case CloseConnection(id) => CloseInv(cfg, s, id);
    case Scrub(now) => ScrubInv(cfg, s, now);
  }

  predicate Schedule(cfg: PoolConfig, s: System, acts: seq<Action>)
    decreases |acts|
  {
    acts == [] || (Enabled(s, acts[0]) && Schedule(cfg, Apply(cfg, s, acts[0]), acts[1..]))
  }

  function After(cfg: PoolConfig, s: System, acts: seq<Action>): System
    requires Schedule(cfg, s, acts)
    decreases |acts|
  {
    if acts == [] then s else After(cfg, Apply(cfg, s, acts[0]), acts[1..])
  }

  lemma {:induction false} RunInv(cfg: PoolConfig, s: System, acts: seq<Action>)
    requires Inv(cfg, s) && Schedule(cfg, s, acts)
    ensures Inv(cfg, After(cfg, s, acts))
    decreases |acts|
  {
    if acts != [] {
      StepInv(cfg, s, acts[0]);
      RunInv(cfg, Apply(cfg, s, acts[0]), acts[1..]);
    }
  }

  /** Conservation over every interleaving from an empty pool: the counter is the
      number of idle, checked-out and dialing connections, never negative and never
      above the limit; idle connections stay within theirs; and no connection is idle
      twice, idle while held, or idle after being closed. */
  lemma PoolConservation(cfg: PoolConfig, acts: seq<Action>)
    requires cfg.maxPerKey >= 0 && cfg.maxIdlePerKey >= 0
    requires Schedule(cfg, START, acts)
    ensures var s := After(cfg, START, acts);
            && s.pool.numActive == |s.pool.idle| + |s.held| + s.dialing
            && 0 <= s.pool.numActive <= cfg.maxPerKey && |s.pool.idle| <= cfg.maxIdlePerKey
            && DistinctIds(s.pool.idle) && Ids(s.pool.idle) !! s.held.Keys
            && Ids(s.pool.idle) !! s.closed && s.held.Keys !! s.closed
  {
    StartInv(cfg);
    RunInv(cfg, START, acts);
  }

  /** In a consistent pool Get reuses an idle connection exactly if one is healthy and within its
      idle time and age; if none is, it dials exactly if the connections checked out or being
      dialed are fewer than the limit, and is refused otherwise. */
  lemma GetAnswers(cfg: PoolConfig, s: System, now: int, healthy: set<nat>)
    requires Inv(cfg, s)
    ensures var r := BeginGet(cfg, s.pool, now, healthy).1;
            && (r.Reused? <==>
                exists i :: 0 <= i < |s.pool.idle| && s.pool.idle[i].id in healthy
                  && (cfg.idleTimeout <= 0 || now <= s.pool.idle[i].lastUsed + cfg.idleTimeout)
                  && (cfg.maxAge <= 0 || now <= s.pool.idle[i].createdAt + cfg.maxAge))
            && (!r.Reused? ==> (r.MustDial? <==> |s.held| + s.dialing < cfg.maxPerKey))
  {
    var k := Discarded(cfg, s.pool.idle, now, healthy);
    assert k < |s.pool.idle| ==> Usable(cfg, s.pool.idle[k], now, healthy);
  }

  /** A connection and its age stay together: whatever is idle or checked out after an action was
      so before, made at the same time, or has just been dialed. */
  lemma AgeIsKept(cfg: PoolConfig, s: System, a: Action, mc: Conn)
    requires Inv(cfg, s) && Enabled(s, a)
    requires var t := Apply(cfg, s, a); mc in t.pool.idle || mc in t.held.Values
    ensures (a.DialOk? && mc == Conn(s.nextId, a.now, a.now))
            || exists was: Conn :: (was in s.pool.idle || was in s.held.Values)
                                   && was.id == mc.id && was.createdAt == mc.createdAt
  {
    var t := Apply(cfg, s, a);
    if mc !in s.pool.idle && mc !in s.held.Values {
      match a
      case Get(now, healthy) =>
        var k := Discarded(cfg, s.pool.idle, now, healthy);
        assert k < |s.pool.idle| && s.pool.idle[k] in s.pool.idle;
      case DialOk(now) =>
      case DialFails =>
      case Put(id, isHealthy, now) =>
        assert s.held[id] in s.held.Values;
      case CloseConnection(id) =>
        CloseInv(cfg, s, id);
      case Scrub(now) =>
        FreshOfIdle(cfg, s.pool.idle, now);
    }
  }

  lemma {:induction false} FreshOfIdle(cfg: PoolConfig, idle: seq<Conn>, now: int)
    ensures forall mc :: mc in Fresh(cfg, idle, now) ==> mc in idle
  {
    if idle != [] {
      FreshOfIdle(cfg, idle[1..], now);
    }
  }

  /** The protective clamps at zero never change the counter. */
  lemma ClampsNeverFire(cfg: PoolConfig, s: System, id: nat, isHealthy: bool, now: int)
    requires Inv(cfg, s)
    ensures id in s.held ==> s.pool.numActive >= 1
    ensures id in s.held && (!isHealthy || |s.pool.idle| >= cfg.maxIdlePerKey) ==>
              PutBack(cfg, s.pool, s.held[id], isHealthy, now).numActive == s.pool.numActive - 1
    ensures id in s.held ==> GiveUp(s.pool, id).numActive == s.pool.numActive - 1
    ensures Scrubbed(cfg, s.pool, now).numActive == s.pool.numActive - (|s.pool.idle| - |Fresh(cfg, s.pool.idle, now)|)
  {
    if id in s.held {
      PutInv(cfg, s, id, isHealthy, now);
      CloseInv(cfg, s, id);
    }
    ScrubInv(cfg, s, now);
  }

  // ----- Giving a connection up again -----------------------------------------------------

  lemma {:induction false} WithoutPresent(idle: seq<Conn>, id: nat)
    requires id in Ids(idle)
    ensures |WithoutFirst(idle, id)| == |idle| - 1
  {
    if idle[0].id != id {
      SplitIds(idle, 1);
      assert id !in Ids(idle[..1]);
      WithoutPresent(idle[1..], id);
    }
  }

  /** Whoever gives up connection `id`: the counter still stands for the connections that
      are left exactly when `id` was checked out or idle, or the counter was zero anyway. */
  lemma GiveUpKeepsAccountIff(cfg: PoolConfig, s: System, id: nat)
    requires Inv(cfg, s)
    ensures var p := GiveUp(s.pool, id);
            p.numActive == |p.idle| + |s.held - {id}| + s.dialing
            <==> id in s.held || id in Ids(s.pool.idle) || s.pool.numActive == 0
  {
    if id in Ids(s.pool.idle) {
      WithoutPresent(s.pool.idle, id);
    } else {
      WithoutAbsent(s.pool.idle, id);
    }
    if id in s.held {
      HeldShrinks(s.held, id);
    } else {
      assert s.held - {id} == s.held;
    }
  }

  /** Whoever puts back connection `mc`: exactly when it was checked out, or it is closed
      and the counter was zero anyway.  A stray healthy Put is kept without being counted. */
  lemma PutBackKeepsAccountIff(cfg: PoolConfig, s: System, mc: Conn, isHealthy: bool, now: int)
    requires Inv(cfg, s)
    ensures var p := PutBack(cfg, s.pool, mc, isHealthy, now);
            p.numActive == |p.idle| + |s.held - {mc.id}| + s.dialing
            <==> mc.id in s.held
                 || ((!isHealthy || |s.pool.idle| >= cfg.maxIdlePerKey) && s.pool.numActive == 0)
  {
    if mc.id in s.held {
      HeldShrinks(s.held, mc.id);
    } else {
      assert s.held - {mc.id} == s.held;
    }
  }

  /** In particular, whenever another connection is checked out, the second CloseConnection
      of one client frees a slot that is still occupied. */
  lemma DoubleCloseUndercounts(cfg: PoolConfig, s: System, id: nat, other: nat)
    requires Inv(cfg, s) && id in s.held && other in s.held && id != other
    ensures var once := Apply(cfg, s, CloseConnection(id));
            var twice := GiveUp(once.pool, id);
            other in once.held && twice.numActive == |once.pool.idle| + |once.held| + once.dialing - 1
  {
    CloseInv(cfg, s, id);
    var once := Apply(cfg, s, CloseConnection(id));
    assert once.held.Keys == s.held.Keys - {id};
    assert other in once.held && once.held - {id} == once.held;
    assert |once.held| >= 1 by {
      assert |once.held| == |once.held - {other}| + 1;
    }
    assert id !in Ids(once.pool.idle);
    WithoutAbsent(once.pool.idle, id);
  }

  lemma ApplyThen(cfg: PoolConfig, s: System, a: Action, rest: seq<Action>)
    requires Enabled(s, a) && Schedule(cfg, Apply(cfg, s, a), rest)
    ensures Schedule(cfg, s, [a] + rest)
    ensures After(cfg, s, [a] + rest) == After(cfg, Apply(cfg, s, a), rest)
  {
    assert ([a] + rest)[1..] == rest;
  }

  /** The pool after two connections were dialed and the first of them given up. */
  const ONE_LEFT := System(HostPool([], 1), map[1 := Conn(1, 0, 0)], 0, {0}, 2)

  lemma DialTwo(cfg: PoolConfig) returns (acts: seq<Action>)
    requires cfg.maxPerKey >= 2
    ensures Schedule(cfg, START, acts) && After(cfg, START, acts) == ONE_LEFT
  {
    var one := System(HostPool([], 1), map[0 := Conn(0, 0, 0)], 0, {}, 1);
    var two := System(HostPool([], 2), map[0 := Conn(0, 0, 0), 1 := Conn(1, 0, 0)], 0, {}, 2);
    assert Ids([]) == {};
    assert Apply(cfg, START, Get(0, {})) == System(HostPool([], 1), map[], 1, {}, 0);
    assert Apply(cfg, System(HostPool([], 1), map[], 1, {}, 0), DialOk(0)) == one;
    assert Apply(cfg, one, Get(0, {})) == one.(pool := HostPool([], 2), dialing := 1);
    assert Apply(cfg, one.(pool := HostPool([], 2), dialing := 1), DialOk(0)) == two;
    assert Apply(cfg, two, CloseConnection(0)) == ONE_LEFT;
    assert Schedule(cfg, ONE_LEFT, []) && After(cfg, ONE_LEFT, []) == ONE_LEFT;
    ApplyThen(cfg, two, CloseConnection(0), []);
    acts := [CloseConnection(0)] + [];
    ApplyThen(cfg, one.(pool := HostPool([], 2), dialing := 1), DialOk(0), acts);
    acts := [DialOk(0)] + acts;
    ApplyThen(cfg, one, Get(0, {}), acts);
    acts := [Get(0, {})] + acts;
    ApplyThen(cfg, System(HostPool([], 1), map[], 1, {}, 0), DialOk(0), acts);
    acts := [DialOk(0)] + acts;
    ApplyThen(cfg, START, Get(0, {}), acts);
    acts := [Get(0, {})] + acts;
  }

  /** It happens: two connections are dialed and the first is given up; giving it up a
      second time leaves the counter at zero while the other is still checked out. */
  lemma DoubleCloseHappens(cfg: PoolConfig) returns (acts: seq<Action>)
    requires cfg.maxPerKey >= 2
    ensures Schedule(cfg, START, acts)
    ensures var s := After(cfg, START, acts);
            var twice := GiveUp(s.pool, 0);
            0 in s.closed && 1 in s.held && |s.held| == 1 && twice.numActive == 0
  {
    acts := DialTwo(cfg);
  }
}
