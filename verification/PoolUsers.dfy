/** Connectors sharing one pool: their calls, interleaved at the pool's critical
    sections, meet the pool's demand that each taken connection is returned once. */
module PoolUsers {
  import opened ConnectionPools
  import opened PoolSystem
  import C = Connectors

  /** Where a connector is: without a client, in a Connect call that dials, or with a client
      from the pool or a direct one.  A dialing connector may still have the client it had
      before the call, and is left with it if the dial fails. */
  datatype Phase = Off | PoolDialing(keeps: bool) | DirectDialing(keeps: bool) | Pooled(id: nat) | Direct

  /** `lost` are the connections that a connector held when it connected again; nobody will
      ever return them. */
  datatype World = World(sys: System, users: map<nat, Phase>, lost: set<nat>)

  datatype Move =
    | Connect(user: nat, now: int, healthy: set<nat>, bastion: bool)
    | PoolDialed(user: nat, ok: bool, now: int)
    | DirectDialed(user: nat, ok: bool)
    | Close(user: nat, isHealthy: bool, now: int)
    | Sweep(now: int)

  /** A connector makes one call at a time. */
  predicate Idle(phase: Phase) {
    !phase.PoolDialing? && !phase.DirectDialing?
  }

  predicate Possible(w: World, m: Move) {
    match m
    case Connect(u, _, _, _) => u in w.users && Idle(w.users[u])
    case PoolDialed(u, _, _) => u in w.users && w.users[u].PoolDialing?
    case DirectDialed(u, _) => u in w.users && w.users[u].DirectDialing?
    case Close(u, _, _) => u in w.users && Idle(w.users[u])
    case Sweep(_) => true
  }

  /** The critical section of the pool that a move runs, if any. */
  function PoolPart(w: World, m: Move): seq<Action>
    requires Possible(w, m)
  {
    match m
    case Connect(_, now, healthy, bastion) => if bastion then [] else [Get(now, healthy)]
    case PoolDialed(_, ok, now) => if ok then [DialOk(now)] else [DialFails]
    case DirectDialed(_, _) => []
    case Close(u, isHealthy, now) => if w.users[u].Pooled? then [Put(w.users[u].id, isHealthy, now)] else []
    case Sweep(now) => [Scrub(now)]
  }

  /** Where the moving connector goes. A connector the pool refused dials directly. */
  function UserPart(cfg: PoolConfig, w: World, m: Move): map<nat, Phase>
    requires Possible(w, m)
  {
    match m
    case Connect(u, now, healthy, bastion) =>
      var keeps := !w.users[u].Off?;
      if bastion then w.users[u := DirectDialing(keeps)]
      else (match BeginGet(cfg, w.sys.pool, now, healthy).1
            case Reused(mc) => w.users[u := Pooled(mc.id)]
            case Exhausted => w.users[u := DirectDialing(keeps)]
            case MustDial => w.users[u := PoolDialing(keeps)])
    case PoolDialed(u, ok, _) =>
      w.users[u := if ok then Pooled(w.sys.nextId) else DirectDialing(w.users[u].keeps)]
    case DirectDialed(u, ok) => w.users[u := if ok || w.users[u].keeps then Direct else Off]
    case Close(u, _, _) => w.users[u := Off]
    case Sweep(_) => w.users
  }

  /** Connecting over a pooled connection. */
  predicate Reconnects(w: World, m: Move)
    requires Possible(w, m)
  {
    m.Connect? && w.users[m.user].Pooled?
  }

  function LostPart(w: World, m: Move): set<nat>
    requires Possible(w, m)
  {
    if Reconnects(w, m) then w.lost + {w.users[m.user].id} else w.lost
  }

  function DialingUsers(users: map<nat, Phase>): set<nat> {
    set u | u in users && users[u].PoolDialing?
  }

  function PooledUsers(users: map<nat, Phase>): set<nat> {
    set u | u in users && users[u].Pooled?
  }

  /** Connections and connectors holding them correspond one to one. */
  ghost predicate Matched(users: map<nat, Phase>, held: set<nat>, dialing: nat) {
    && (forall u :: u in users && users[u].Pooled? ==> users[u].id in held)
    && (forall u, v :: u in users && v in users && u != v && users[u].Pooled? && users[v].Pooled? ==>
          users[u].id != users[v].id)
    && (forall id :: id in held ==> HolderExists(users, id))
    && |DialingUsers(users)| == dialing
  }

  ghost predicate HolderExists(users: map<nat, Phase>, id: nat) {
    exists u :: u in users && users[u] == Pooled(id)
  }

  /** The connections checked out are those held and those lost. */
  ghost predicate Inv(cfg: PoolConfig, w: World) {
    && PoolSystem.Inv(cfg, w.sys)
    && w.lost <= w.sys.held.Keys
    && Matched(w.users, w.sys.held.Keys - w.lost, w.sys.dialing)
  }

  /** The pool's precondition is met: the section a connector runs is one the pool
      system allows, so a Put always names a connection that is checked out. */
  lemma PoolPartAllowed(cfg: PoolConfig, w: World, m: Move)
    requires Inv(cfg, w) && Possible(w, m)
    ensures Schedule(cfg, w.sys, PoolPart(w, m))
  {
    if m.PoolDialed? {
      assert m.user in DialingUsers(w.users);
    }
    if PoolPart(w, m) != [] {
      assert Schedule(cfg, PoolSystem.Apply(cfg, w.sys, PoolPart(w, m)[0]), PoolPart(w, m)[1..]);
    }
  }

  function Apply(cfg: PoolConfig, w: World, m: Move): World
    requires Possible(w, m) && Schedule(cfg, w.sys, PoolPart(w, m))
  {
    World(After(cfg, w.sys, PoolPart(w, m)), UserPart(cfg, w, m), LostPart(w, m))
  }

  // ----- Changing one connector ------------------------------------------------------

  lemma OtherHolders(users: map<nat, Phase>, u: nat, phase: Phase, id: nat)
    requires u in users && HolderExists(users, id) && users[u] != Pooled(id)
    ensures HolderExists(users[u := phase], id)
  {
    var v :| v in users && users[v] == Pooled(id);
    assert users[u := phase][v] == Pooled(id);
  }

  lemma DialingChanges(users: map<nat, Phase>, u: nat, phase: Phase)
    requires u in users
    ensures DialingUsers(users[u := phase])
            == if phase.PoolDialing? then DialingUsers(users) + {u} else DialingUsers(users) - {u}
  {
  }

  /** A connector that holds nothing takes `id`, or nothing. */
  lemma Takes(users: map<nat, Phase>, held: set<nat>, dialing: nat, u: nat, phase: Phase)
    requires Matched(users, held, dialing) && u in users && !users[u].Pooled?
    requires phase.Pooled? ==> phase.id !in held
    ensures Matched(users[u := phase], if phase.Pooled? then held + {phase.id} else held,
                    |DialingUsers(users[u := phase])|)
  {
    forall id | id in held ensures HolderExists(users[u := phase], id) {
      OtherHolders(users, u, phase, id);
    }
    if phase.Pooled? {
      assert users[u := phase][u] == Pooled(phase.id);
    }
  }

  lemma Drops(users: map<nat, Phase>, held: set<nat>, dialing: nat, u: nat)
    requires Matched(users, held, dialing) && u in users && users[u].Pooled?
    ensures Matched(users[u := Off], held - {users[u].id}, dialing)
  {
    forall id | id in held - {users[u].id} ensures HolderExists(users[u := Off], id) {
      OtherHolders(users, u, Off, id);
    }
    DialingChanges(users, u, Off);
    assert u !in DialingUsers(users);
  }

  lemma OneSection(cfg: PoolConfig, s: System, a: Action)
    requires Enabled(s, a)
    ensures Schedule(cfg, s, [a]) && After(cfg, s, [a]) == PoolSystem.Apply(cfg, s, a)
  {
    var t := PoolSystem.Apply(cfg, s, a);
    assert [a][1..] == [];
    assert Schedule(cfg, t, []) && After(cfg, t, []) == t;
  }

  /** A connector that connects forgets what it held. */
  lemma Forgets(users: map<nat, Phase>, held: set<nat>, dialing: nat, u: nat)
    requires Matched(users, held, dialing) && u in users && Idle(users[u])
    ensures Matched(users[u := Off], if users[u].Pooled? then held - {users[u].id} else held, dialing)
  {
    if users[u].Pooled? {
      Drops(users, held, dialing, u);
    } else {
      Takes(users, held, dialing, u, Off);
      DialingChanges(users, u, Off);
      assert DialingUsers(users) - {u} == DialingUsers(users);
    }
  }

  lemma ReusedIsFree(cfg: PoolConfig, s: System, now: int, healthy: set<nat>)
    requires PoolSystem.Inv(cfg, s) && BeginGet(cfg, s.pool, now, healthy).1.Reused?
    ensures var mc := BeginGet(cfg, s.pool, now, healthy).1.mc;
            mc.id !in s.held && AfterGet(cfg, s, now, healthy).held.Keys == s.held.Keys + {mc.id}
  {
    GetReusesPlaced(s.pool.idle, s.held.Keys, s.closed, s.nextId, Discarded(cfg, s.pool.idle, now, healthy));
    HeldGrows(s.held, BeginGet(cfg, s.pool, now, healthy).1.mc);
  }

  /** The connectors and connections once `u` has forgotten what it held. */
  lemma ConnectForgets(cfg: PoolConfig, w: World, m: Move)
    requires Inv(cfg, w) && Possible(w, m) && m.Connect?
    ensures LostPart(w, m) <= w.sys.held.Keys
    ensures Matched(w.users[m.user := Off], w.sys.held.Keys - LostPart(w, m), w.sys.dialing)
  {
    Forgets(w.users, w.sys.held.Keys - w.lost, w.sys.dialing, m.user);
    assert Reconnects(w, m) ==>
      w.sys.held.Keys - w.lost - {w.users[m.user].id} == w.sys.held.Keys - LostPart(w, m);
  }

  /** A connector without a client takes a connection, or starts to dial. */
  lemma Starts(users: map<nat, Phase>, held: set<nat>, dialing: nat, u: nat, phase: Phase)
    requires Matched(users, held, dialing) && u in users && users[u].Off?
    requires phase.Pooled? ==> phase.id !in held
    ensures Matched(users[u := phase], if phase.Pooled? then held + {phase.id} else held,
                    if phase.PoolDialing? then dialing + 1 else dialing)
  {
    Takes(users, held, dialing, u, phase);
    DialingChanges(users, u, phase);
    assert u !in DialingUsers(users);
    assert DialingUsers(users) - {u} == DialingUsers(users);
  }

  /** What Get does to the connections checked out and being dialed. */
  lemma GetMoves(cfg: PoolConfig, s: System, now: int, healthy: set<nat>)
    requires PoolSystem.Inv(cfg, s)
    ensures var r, after := BeginGet(cfg, s.pool, now, healthy).1, AfterGet(cfg, s, now, healthy);
            && (r.Reused? ==> r.mc.id !in s.held)
            && after.held.Keys == (if r.Reused? then s.held.Keys + {r.mc.id} else s.held.Keys)
            && after.dialing == if r.MustDial? then s.dialing + 1 else s.dialing
  {
    if BeginGet(cfg, s.pool, now, healthy).1.Reused? {
      ReusedIsFree(cfg, s, now, healthy);
    }
  }

  /** The same with the lost connections set aside. */
  lemma StartsBeside(users: map<nat, Phase>, held: set<nat>, lost: set<nat>, dialing: nat, u: nat, phase: Phase)
    requires u in users && Matched(users[u := Off], held - lost, dialing) && lost <= held
    requires phase.Pooled? ==> phase.id !in held
    ensures Matched(users[u := phase], (if phase.Pooled? then held + {phase.id} else held) - lost,
                    if phase.PoolDialing? then dialing + 1 else dialing)
  {
    Starts(users[u := Off], held - lost, dialing, u, phase);
    assert users[u := Off][u := phase] == users[u := phase];
    assert phase.Pooled? ==> held + {phase.id} - lost == held - lost + {phase.id};
  }

  /** Where Get sends a connector, and what it checks out. */
  lemma GetSends(cfg: PoolConfig, w: World, m: Move) returns (phase: Phase)
    requires PoolSystem.Inv(cfg, w.sys) && Possible(w, m) && m.Connect? && !m.bastion
    ensures UserPart(cfg, w, m) == w.users[m.user := phase] && !phase.Off?
    ensures phase.Pooled? ==> phase.id !in w.sys.held
    ensures var after := AfterGet(cfg, w.sys, m.now, m.healthy);
            && after.held.Keys == (if phase.Pooled? then w.sys.held.Keys + {phase.id} else w.sys.held.Keys)
            && after.dialing == if phase.PoolDialing? then w.sys.dialing + 1 else w.sys.dialing
  {
    GetMoves(cfg, w.sys, m.now, m.healthy);
    phase := UserPart(cfg, w, m)[m.user];
  }

  lemma ConnectMatched(cfg: PoolConfig, w: World, m: Move)
    requires Inv(cfg, w) && Possible(w, m) && m.Connect? && !m.bastion
    ensures var sys := AfterGet(cfg, w.sys, m.now, m.healthy);
            LostPart(w, m) <= sys.held.Keys
            && Matched(UserPart(cfg, w, m), sys.held.Keys - LostPart(w, m), sys.dialing)
  {
    ConnectForgets(cfg, w, m);
    var phase := GetSends(cfg, w, m);
    StartsBeside(w.users, w.sys.held.Keys, LostPart(w, m), w.sys.dialing, m.user, phase);
  }

  lemma DirectConnectMatched(cfg: PoolConfig, w: World, m: Move)
    requires Inv(cfg, w) && Possible(w, m) && m.Connect? && m.bastion
    ensures LostPart(w, m) <= w.sys.held.Keys
    ensures Matched(UserPart(cfg, w, m), w.sys.held.Keys - LostPart(w, m), w.sys.dialing)
  {
    ConnectForgets(cfg, w, m);
    var off, phase := w.users[m.user := Off], UserPart(cfg, w, m)[m.user];
    Starts(off, w.sys.held.Keys - LostPart(w, m), w.sys.dialing, m.user, phase);
    assert off[m.user := phase] == UserPart(cfg, w, m);
  }

  lemma DialedMatched(cfg: PoolConfig, w: World, u: nat, ok: bool, now: int)
    requires Inv(cfg, w) && u in w.users && w.users[u].PoolDialing? && w.sys.dialing > 0
    ensures var sys := PoolSystem.Apply(cfg, w.sys, if ok then DialOk(now) else DialFails);
            w.lost <= sys.held.Keys
            && Matched(UserPart(cfg, w, PoolDialed(u, ok, now)), sys.held.Keys - w.lost, sys.dialing)
  {
    var users := UserPart(cfg, w, PoolDialed(u, ok, now));
    assert w.sys.nextId !in w.sys.held;
    HeldGrows(w.sys.held, Conn(w.sys.nextId, now, now));
    assert w.sys.held.Keys + {w.sys.nextId} - w.lost == w.sys.held.Keys - w.lost + {w.sys.nextId};
    Takes(w.users, w.sys.held.Keys - w.lost, w.sys.dialing, u, users[u]);
    DialingChanges(w.users, u, users[u]);
    assert u in DialingUsers(w.users);
  }

  lemma CloseMatched(cfg: PoolConfig, w: World, u: nat, isHealthy: bool, now: int)
    requires Inv(cfg, w) && u in w.users && w.users[u].Pooled? && w.users[u].id in w.sys.held
    ensures var sys := AfterPut(cfg, w.sys, w.users[u].id, isHealthy, now);
            w.lost <= sys.held.Keys && Matched(w.users[u := Off], sys.held.Keys - w.lost, sys.dialing)
  {
    HeldShrinks(w.sys.held, w.users[u].id);
    Drops(w.users, w.sys.held.Keys - w.lost, w.sys.dialing, u);
    assert w.sys.held.Keys - w.lost - {w.users[u].id} == w.sys.held.Keys - {w.users[u].id} - w.lost;
  }

  lemma QuietMatched(cfg: PoolConfig, w: World, u: nat, phase: Phase)
    requires Inv(cfg, w) && u in w.users && !w.users[u].Pooled? && !w.users[u].PoolDialing?
    requires !phase.Pooled? && !phase.PoolDialing?
    ensures Matched(w.users[u := phase], w.sys.held.Keys - w.lost, w.sys.dialing)
  {
    Takes(w.users, w.sys.held.Keys - w.lost, w.sys.dialing, u, phase);
    DialingChanges(w.users, u, phase);
    assert DialingUsers(w.users) - {u} == DialingUsers(w.users);
  }

  /** Every move of every connector keeps the pool's account and the one-to-one match. */
  lemma MoveInv(cfg: PoolConfig, w: World, m: Move)
    requires Inv(cfg, w) && Possible(w, m)
    ensures Schedule(cfg, w.sys, PoolPart(w, m)) && Inv(cfg, Apply(cfg, w, m))
  {
    PoolPartAllowed(cfg, w, m);
    RunInv(cfg, w.sys, PoolPart(w, m));
    match m
    case Connect(u, now, healthy, bastion) =>
      if bastion {
        DirectConnectMatched(cfg, w, m);
      } else {
        OneSection(cfg, w.sys, Get(now, healthy));
        ConnectMatched(cfg, w, m);
      }
    case PoolDialed(u, ok, now) =>
      assert u in DialingUsers(w.users);
      OneSection(cfg, w.sys, if ok then DialOk(now) else DialFails);
      DialedMatched(cfg, w, u, ok, now);
    case DirectDialed(u, ok) =>
      QuietMatched(cfg, w, u, UserPart(cfg, w, m)[u]);
    case Close(u, isHealthy, now) =>
      if w.users[u].Pooled? {
        OneSection(cfg, w.sys, Put(w.users[u].id, isHealthy, now));
        CloseMatched(cfg, w, u, isHealthy, now);
      } else {
        QuietMatched(cfg, w, u, Off);
      }
    case Sweep(now) =>
      OneSection(cfg, w.sys, Scrub(now));
  }

  // ----- Whole runs -----------------------------------------------------------------

  /** A run of the world: each move is possible when it is made. */
  ghost predicate Course(cfg: PoolConfig, w: World, ms: seq<Move>, end: World)
    decreases |ms|
  {
    if ms == [] then w == end
    else
      && Possible(w, ms[0]) && Schedule(cfg, w.sys, PoolPart(w, ms[0]))
      && Course(cfg, Apply(cfg, w, ms[0]), ms[1..], end)
  }

  /** How often a run connects over a pooled connection. */
  ghost function ReconnectCount(cfg: PoolConfig, w: World, ms: seq<Move>, end: World): nat
    requires Course(cfg, w, ms, end)
    decreases |ms|
  {
    if ms == [] then 0
    else (if Reconnects(w, ms[0]) then 1 else 0) + ReconnectCount(cfg, Apply(cfg, w, ms[0]), ms[1..], end)
  }

  /** A reconnect loses a connection that was not lost before. */
  lemma MoveLoses(cfg: PoolConfig, w: World, m: Move)
    requires Inv(cfg, w) && Possible(w, m)
    ensures |LostPart(w, m)| == |w.lost| + if Reconnects(w, m) then 1 else 0
  {
  }

  lemma {:induction false} CourseInv(cfg: PoolConfig, w: World, ms: seq<Move>, end: World)
    requires Inv(cfg, w) && Course(cfg, w, ms, end)
    ensures Inv(cfg, end)
    ensures w.lost <= end.lost && |end.lost| == |w.lost| + ReconnectCount(cfg, w, ms, end)
    decreases |ms|
  {
    if ms != [] {
      MoveInv(cfg, w, ms[0]);
      MoveLoses(cfg, w, ms[0]);
      CourseInv(cfg, Apply(cfg, w, ms[0]), ms[1..], end);
    }
  }

  lemma SomeHolder(users: map<nat, Phase>, held: set<nat>, dialing: nat, id: nat) returns (u: nat)
    requires Matched(users, held, dialing) && id in held
    ensures u in users && users[u] == Pooled(id)
  {
    assert HolderExists(users, id);
    u :| u in users && users[u] == Pooled(id);
  }

  lemma PooledShrinks(users: map<nat, Phase>, u: nat)
    requires u in users && users[u].Pooled?
    ensures |PooledUsers(users)| == |PooledUsers(users[u := Off])| + 1
  {
    assert PooledUsers(users[u := Off]) == PooledUsers(users) - {u};
  }

  lemma {:induction false} HoldersCount(users: map<nat, Phase>, held: set<nat>, dialing: nat)
    requires Matched(users, held, dialing)
    ensures |held| == |PooledUsers(users)|
    decreases |held|
  {
    if held == {} {
      assert PooledUsers(users) == {};
    } else {
      var id :| id in held;
      var u := SomeHolder(users, held, dialing, id);
      Drops(users, held, dialing, u);
      PooledShrinks(users, u);
      HoldersCount(users[u := Off], held - {id}, dialing);
    }
  }

  /** However many connectors share the pool, connecting again as they please: no two hold
      the same connection; and what the pool counts is idle, held by a connector, being
      dialed by one, or lost, one for every reconnect so far. */
  lemma ConnectorsShareSafely(cfg: PoolConfig, users: map<nat, Phase>, ms: seq<Move>, end: World)
    requires forall u :: u in users ==> users[u].Off?
    requires Course(cfg, World(START, users, {}), ms, end)
    ensures forall u, v :: u in end.users && v in end.users && u != v && end.users[u].Pooled? ==>
              end.users[v] != end.users[u]
    ensures end.sys.pool.numActive
            == |end.sys.pool.idle| + |PooledUsers(end.users)| + |DialingUsers(end.users)|
               + ReconnectCount(cfg, World(START, users, {}), ms, end)
    ensures end.sys.pool.numActive <= Clamped(cfg.maxPerKey)
  {
    StartInv(cfg);
    assert DialingUsers(users) == {};
    CourseInv(cfg, World(START, users, {}), ms, end);
    HoldersCount(end.users, end.sys.held.Keys - end.lost, end.sys.dialing);
    assert |end.sys.held| == |end.sys.held.Keys| == |end.sys.held.Keys - end.lost| + |end.lost|;
  }

  /** Every reconnect costs the key one slot for good: once there were as many as the key
      has slots, the pool refuses every later Connect. */
  lemma ReconnectsExhaust(cfg: PoolConfig, users: map<nat, Phase>, ms: seq<Move>, end: World, now: int,
                          healthy: set<nat>)
    requires forall u :: u in users ==> users[u].Off?
    requires Course(cfg, World(START, users, {}), ms, end)
    requires ReconnectCount(cfg, World(START, users, {}), ms, end) >= cfg.maxPerKey
    ensures BeginGet(cfg, end.sys.pool, now, healthy).1.Exhausted?
  {
    ConnectorsShareSafely(cfg, users, ms, end);
    assert end.sys.pool.idle == [];
  }

  // ----- A connector's fields and its phase ---------------------------------------------

  /** The fields of a connector that is in this phase; while it dials, those it had when its
      call began. */
  ghost predicate Mirrors(l: C.Link, phase: Phase) {
    match phase
    case Off => !l.client
    case Pooled(id) => C.Returned(l).Some? && C.Returned(l).value.id == id
    case Direct => l.client && C.Returned(l).None?
    case PoolDialing(keeps) => l.client == keeps
    case DirectDialing(keeps) => l.client == keeps
  }

  /** What a move answers to the Connect call it ends, if it ends one. */
  ghost predicate Answers(cfg: PoolConfig, w: World, m: Move, reply: C.PoolReply, dial: C.DialReply)
    requires Possible(w, m)
  {
    match m
    case Connect(_, now, healthy, bastion) =>
      !bastion && BeginGet(cfg, w.sys.pool, now, healthy).1.Reused?
      && reply == C.Got(BeginGet(cfg, w.sys.pool, now, healthy).1.mc)
    case PoolDialed(_, ok, now) => ok && reply == C.Got(Conn(w.sys.nextId, now, now))
    case DirectDialed(_, ok) => !reply.Got? && (dial.Dialed? <==> ok)
    case _ => false
  }

  /** The two descriptions of a connector agree: a Connect call ends in the phase that the
      move answering it leads to, whatever the connector held before ... */
  lemma ConnectIsMoves(cfg: PoolConfig, w: World, m: Move, l: C.Link, reply: C.PoolReply, dial: C.DialReply)
    requires Possible(w, m) && !m.Sweep? && Answers(cfg, w, m, reply, dial) && Mirrors(l, w.users[m.user])
    ensures Mirrors(C.Connected(l, reply, dial), UserPart(cfg, w, m)[m.user])
  {
  }

  /** ... and while no move has answered it, the phase says what the call began with. */
  lemma ConnectGoesOn(cfg: PoolConfig, w: World, m: Move, l: C.Link)
    requires Possible(w, m) && (m.Connect? || m.PoolDialed?) && Mirrors(l, w.users[m.user])
    requires UserPart(cfg, w, m)[m.user].PoolDialing? || UserPart(cfg, w, m)[m.user].DirectDialing?
    ensures Mirrors(l, UserPart(cfg, w, m)[m.user])
  {
  }

  /** A Close call hands back what the move puts, and ends in the phase Off. */
  lemma CloseIsMove(cfg: PoolConfig, w: World, m: Move, l: C.Link)
    requires Possible(w, m) && m.Close? && Mirrors(l, w.users[m.user])
    ensures C.Returned(l).Some? <==> PoolPart(w, m) != []
    ensures C.Returned(l).Some? ==> PoolPart(w, m) == [Put(C.Returned(l).value.id, m.isHealthy, m.now)]
    ensures Mirrors(C.UNLINKED, UserPart(cfg, w, m)[m.user])
  {
  }

  /** A move loses a connection exactly when its Connect call is made on a connector that
      would hand that connection back. */
  lemma LosesWhatIsHeld(w: World, m: Move, l: C.Link)
    requires Possible(w, m) && m.Connect? && Mirrors(l, w.users[m.user])
    ensures LostPart(w, m) == w.lost + if C.Returned(l).Some? then {C.Returned(l).value.id} else {}
  {
  }
}
