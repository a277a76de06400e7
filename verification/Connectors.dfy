/** How an SSH connector takes connections from the pool and returns them. */
module Connectors {
  import opened Wrappers
  import opened ConnectionPools

  /** What the pool's Get answered, if it was asked: the pool is bypassed behind a bastion. */
  datatype PoolReply = NotAsked | Got(mc: Conn) | Refused

  datatype DialReply = Dialed(bastion: bool) | DialFails

  /** The connector's fields that Connect and Close touch. */
  datatype Link = Link(client: bool, bastion: bool, managed: Option<Conn>, isFromPool: bool, isConnected: bool)

  const UNLINKED := Link(false, false, None, false, false)

  datatype Op = Connect(reply: PoolReply, dial: DialReply) | Close(isHealthy: bool)

  function Connected(l: Link, reply: PoolReply, dial: DialReply): Link {
    match reply
    case Got(mc) => l.(managed := Some(mc), client := true, isFromPool := true, isConnected := true)
    case _ =>
      var direct := l.(isFromPool := false, managed := None);
      match dial
      case Dialed(bastion) => direct.(client := true, bastion := bastion, isConnected := true)
      case DialFails => direct
  }

  /** The connection that Close hands to Put, if any. */
  function Returned(l: Link): Option<Conn> {
    if l.client && l.isFromPool then l.managed else None
  }

  class SSHConnector {
    var client: bool
    var bastionClient: bool
    var managedConn: Option<Conn>
    var isFromPool: bool
    var isConnected: bool

    constructor ()
      ensures View() == UNLINKED
    {
      client, bastionClient, managedConn, isFromPool, isConnected := false, false, None, false, false;
    }

    ghost function View(): Link
      reads this
    {
      Link(client, bastionClient, managedConn, isFromPool, isConnected)
    }

    method Connect(reply: PoolReply, dial: DialReply) returns (ok: bool)
      modifies this
      ensures View() == Connected(old(View()), reply, dial)
      ensures ok <==> reply.Got? || dial.Dialed?
      ensures if ok then client && isConnected else client == old(client) && isConnected == old(isConnected)
      ensures isFromPool == reply.Got? && managedConn == if reply.Got? then Some(reply.mc) else None
      ensures bastionClient == if !reply.Got? && dial.Dialed? then dial.bastion else old(bastionClient)
    {
      isFromPool := false;
      if reply.Got? {
        managedConn := Some(reply.mc);
        client := true;
        isFromPool := true;
        isConnected := true;
        return true;
      }
      isFromPool := false;
      managedConn := None;
      if dial.DialFails? {
        return false;
      }
      client := true;
      bastionClient := dial.bastion;
      isConnected := true;
      return true;
    }

    /** `put` is the call made on the pool; a second Close makes none. */
    method Close() returns (put: Option<Conn>)
      modifies this
      ensures put == Returned(old(View()))
      ensures put == if old(client) && old(isFromPool) then old(managedConn) else None
      ensures !client && !bastionClient && managedConn.None? && !isFromPool && !isConnected
      ensures View() == UNLINKED
    {
      isConnected := false;
      put := None;
      if client {
        if isFromPool && managedConn.Some? {
          put := managedConn;
        }
      }
      client := false;
      bastionClient := false;
      managedConn := None;
      isFromPool := false;
    }
  }

  predicate Succeeds(op: Op) {
    op.Connect? && (op.reply.Got? || op.dial.Dialed?)
  }

  // ----- Sequences of calls -------------------------------------------------------------

  function Next(l: Link, op: Op): Link {
    match op
    case Connect(reply, dial) => Connected(l, reply, dial)
    case Close(_) => UNLINKED
  }

  function Final(l: Link, ops: seq<Op>): Link
    decreases |ops|
  {
    if ops == [] then l else Final(Next(l, ops[0]), ops[1..])
  }

  /** A successful Connect that no Close follows. */
  ghost predicate Stands(ops: seq<Op>, i: nat) {
    i < |ops| && Succeeds(ops[i]) && forall j :: i <= j < |ops| ==> !ops[j].Close?
  }

  lemma {:induction false} StaysConnected(l: Link, ops: seq<Op>)
    ensures Final(l, ops).isConnected <==>
            (exists i :: Stands(ops, i)) || (l.isConnected && forall j :: 0 <= j < |ops| ==> !ops[j].Close?)
    decreases |ops|
  {
    if ops != [] {
      var rest := ops[1..];
      StaysConnected(Next(l, ops[0]), rest);
      if i: nat :| Stands(rest, i) {
        assert Stands(ops, i + 1);
      }
      if i: nat :| Stands(ops, i) {
        assert i > 0 ==> Stands(rest, i - 1);
      }
      assert forall j :: 0 <= j < |rest| ==> rest[j] == ops[j + 1];
      assert Stands(ops, 0) <==> Succeeds(ops[0]) && !ops[0].Close? && forall j :: 0 <= j < |rest| ==> !rest[j].Close?;
    }
  }

  /** A connector says that it is connected exactly if some Connect has succeeded since the last
      Close; a later failed Connect does not change that. */
  lemma ConnectedIff(ops: seq<Op>)
    ensures Final(UNLINKED, ops).isConnected <==> exists i :: Stands(ops, i)
  {
    StaysConnected(UNLINKED, ops);
  }

  /** The connections obtained from Get, in order. */
  function Taken(ops: seq<Op>): seq<Conn> {
    if ops == [] then []
    else (if ops[0].Connect? && ops[0].reply.Got? then [ops[0].reply.mc] else []) + Taken(ops[1..])
  }

  /** The connections handed to Put, in order. */
  function GivenBack(l: Link, ops: seq<Op>): seq<Conn>
    decreases |ops|
  {
    if ops == [] then []
    else
      (if ops[0].Close? && Returned(l).Some? then [Returned(l).value] else []) + GivenBack(Next(l, ops[0]), ops[1..])
  }

  function Holding(l: Link): seq<Conn> {
    if Returned(l).Some? then [Returned(l).value] else []
  }

  /** How often Connect is called on a connector that holds a pooled connection. */
  function Abandoned(l: Link, ops: seq<Op>): nat
    decreases |ops|
  {
    if ops == [] then 0
    else (if ops[0].Connect? && Returned(l).Some? then 1 else 0) + Abandoned(Next(l, ops[0]), ops[1..])
  }

  /** A link is consistent: a managed connection is only kept while it is in use. */
  predicate Consistent(l: Link) {
    l.managed.Some? <==> l.isFromPool && l.client
  }

  lemma NextConsistent(l: Link, op: Op)
    requires Consistent(l) || l == UNLINKED
    ensures Consistent(Next(l, op))
  {
  }

  /** Linearity: if no Connect is made while a pooled connection is held, the
      connections returned are exactly those taken, in the same order, except the one
      still held; closing again returns nothing. */
  lemma {:induction false} TakenAndReturned(l: Link, ops: seq<Op>)
    requires Consistent(l) && Abandoned(l, ops) == 0
    ensures Holding(l) + Taken(ops) == GivenBack(l, ops) + Holding(Final(l, ops))
    decreases |ops|
  {
    if ops != [] {
      var next := Next(l, ops[0]);
      NextConsistent(l, ops[0]);
      TakenAndReturned(next, ops[1..]);
      var taken := if ops[0].Connect? && ops[0].reply.Got? then [ops[0].reply.mc] else [];
      var back := if ops[0].Close? && Returned(l).Some? then [Returned(l).value] else [];
      OneCall(l, ops[0]);
      var restBack := GivenBack(next, ops[1..]);
      Regroup(Holding(l), taken, Taken(ops[1..]), back, Holding(next), restBack, Holding(Final(l, ops)));
    }
  }

  lemma OneCall(l: Link, op: Op)
    requires Consistent(l) && (op.Connect? ==> Returned(l).None?)
    ensures Holding(l) + (if op.Connect? && op.reply.Got? then [op.reply.mc] else [])
            == (if op.Close? && Returned(l).Some? then [Returned(l).value] else []) + Holding(Next(l, op))
  {
  }

  lemma Regroup<T>(a: seq<T>, t: seq<T>, ts: seq<T>, b: seq<T>, n: seq<T>, bs: seq<T>, f: seq<T>)
    requires a + t == b + n && n + ts == bs + f
    ensures a + (t + ts) == (b + bs) + f
  {
    assert a + (t + ts) == (a + t) + ts;
    assert (b + n) + ts == b + (n + ts);
    assert b + (bs + f) == (b + bs) + f;
  }

  /** The count in general: every Connect over a held pooled connection loses one. */
  lemma {:induction false} Balance(l: Link, ops: seq<Op>)
    requires Consistent(l)
    ensures |Holding(l)| + |Taken(ops)| == |GivenBack(l, ops)| + |Holding(Final(l, ops))| + Abandoned(l, ops)
    decreases |ops|
  {
    if ops != [] {
      NextConsistent(l, ops[0]);
      Balance(Next(l, ops[0]), ops[1..]);
    }
  }

  /** Exactly when every connection taken is returned once the connector is closed. */
  lemma AllReturnedIff(ops: seq<Op>)
    ensures |Taken(ops)| == |GivenBack(UNLINKED, ops + [Close(true)])| <==> Abandoned(UNLINKED, ops) == 0
  {
    Balance(UNLINKED, ops);
    CloseLast(UNLINKED, ops);
  }

  lemma {:induction false} CloseLast(l: Link, ops: seq<Op>)
    ensures GivenBack(l, ops + [Close(true)]) == GivenBack(l, ops) + Holding(Final(l, ops))
    decreases |ops|
  {
    if ops == [] {
      assert ops + [Close(true)] == [Close(true)];
    } else {
      assert (ops + [Close(true)])[1..] == ops[1..] + [Close(true)];
      CloseLast(Next(l, ops[0]), ops[1..]);
    }
  }

  /** It happens: connecting twice takes two connections, and closing returns the second. */
  lemma ReconnectForgets(a: Conn, b: Conn)
    ensures var ops := [Connect(Got(a), DialFails), Connect(Got(b), DialFails)];
            && Abandoned(UNLINKED, ops) == 1 && Taken(ops) == [a, b]
            && GivenBack(UNLINKED, ops + [Close(true)]) == [b]
  {
    var first, second := Connect(Got(a), DialFails), Connect(Got(b), DialFails);
    var ops := [first, second];
    assert ops[1..] == [second] && [second][1..] == [];
    assert Taken([second]) == [b] + Taken([]);
    var l := Next(UNLINKED, first);
    var m := Next(l, second);
    assert Abandoned(l, [second]) == 1 + Abandoned(m, []);
    CloseLast(UNLINKED, ops);
    assert Final(UNLINKED, ops) == Final(l, [second]) == Final(m, []) == m;
    assert GivenBack(l, [second]) == [] + GivenBack(m, []);
  }
}
