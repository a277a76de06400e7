/** The SSH connection pool of one key: its critical sections, as functions on values and
    as code. */
module ConnectionPools {
  import opened Wrappers

  /** A managed connection, identified by its client. */
  datatype Conn = Conn(id: nat, lastUsed: int, createdAt: int)

  datatype PoolConfig = PoolConfig(maxPerKey: int, maxIdlePerKey: int, maxAge: int, idleTimeout: int)

  datatype HostPool = HostPool(idle: seq<Conn>, numActive: int)

  predicate Stale(cfg: PoolConfig, mc: Conn, now: int) {
    || (cfg.idleTimeout > 0 && mc.lastUsed + cfg.idleTimeout < now)
    || (cfg.maxAge > 0 && mc.createdAt + cfg.maxAge < now)
  }

  /** `healthy` answers the keepalive request of each connection. */
  predicate Usable(cfg: PoolConfig, mc: Conn, now: int, healthy: set<nat>) {
    !Stale(cfg, mc, now) && mc.id in healthy
  }

  // ----- The critical sections, on values ---------------------------------------------

  datatype GetResult = Reused(mc: Conn) | Exhausted | MustDial

  /** How many idle connections Get discards before it finds a usable one. */
  function Discarded(cfg: PoolConfig, idle: seq<Conn>, now: int, healthy: set<nat>): (k: nat)
    ensures k <= |idle|
    ensures forall i :: 0 <= i < k ==> !Usable(cfg, idle[i], now, healthy)
    ensures k < |idle| ==> Usable(cfg, idle[k], now, healthy)
  {
    if idle == [] || Usable(cfg, idle[0], now, healthy) then 0
    else 1 + Discarded(cfg, idle[1..], now, healthy)
  }

  function BeginGet(cfg: PoolConfig, p: HostPool, now: int, healthy: set<nat>): (HostPool, GetResult) {
    var k := Discarded(cfg, p.idle, now, healthy);
    if k < |p.idle| then (HostPool(p.idle[k + 1..], p.numActive - k), Reused(p.idle[k].(lastUsed := now)))
    else if p.numActive - k >= cfg.maxPerKey then (HostPool([], p.numActive - k), Exhausted)
    else (HostPool([], p.numActive - k + 1), MustDial)
  }

  function Clamped(n: int): int {
    if n < 0 then 0 else n
  }

  function PutBack(cfg: PoolConfig, p: HostPool, mc: Conn, isHealthy: bool, now: int): HostPool {
    if !isHealthy || |p.idle| >= cfg.maxIdlePerKey then HostPool(p.idle, Clamped(p.numActive - 1))
    else HostPool(p.idle + [mc.(lastUsed := now)], p.numActive)
  }

  function WithoutFirst(idle: seq<Conn>, id: nat): seq<Conn> {
    if idle == [] then []
    else if idle[0].id == id then idle[1..]
    else [idle[0]] + WithoutFirst(idle[1..], id)
  }

  function GiveUp(p: HostPool, id: nat): HostPool {
    HostPool(WithoutFirst(p.idle, id), Clamped(p.numActive - 1))
  }

  function Fresh(cfg: PoolConfig, idle: seq<Conn>, now: int): (r: seq<Conn>)
    ensures |r| <= |idle|
  {
    if idle == [] then []
    else if Stale(cfg, idle[0], now) then Fresh(cfg, idle[1..], now)
    else [idle[0]] + Fresh(cfg, idle[1..], now)
  }

  /** What stays: the connections one by one, each exactly if it was used within the idle time
      and made within the age allowed; a time that is not positive means no limit. */
  lemma {:induction false} FreshAt(cfg: PoolConfig, idle: seq<Conn>, now: int, i: nat)
    requires i < |idle|
    ensures var stays := (cfg.idleTimeout <= 0 || now <= idle[i].lastUsed + cfg.idleTimeout)
                         && (cfg.maxAge <= 0 || now <= idle[i].createdAt + cfg.maxAge);
            Fresh(cfg, idle, now) ==
            Fresh(cfg, idle[..i], now) + (if stays then [idle[i]] else []) + Fresh(cfg, idle[i + 1..], now)
  {
    if i > 0 {
      FreshAt(cfg, idle[1..], now, i - 1);
      assert idle[1..][i..] == idle[i + 1..] && idle[1..][..i - 1] == idle[..i][1..];
    }
  }

  /** What CloseConnection drops: the first entry with the client, if there is one. */
  lemma {:induction false} WithoutFirstAt(idle: seq<Conn>, id: nat, i: nat)
    requires i <= |idle| && (forall j :: 0 <= j < i ==> idle[j].id != id) && (i < |idle| ==> idle[i].id == id)
    ensures WithoutFirst(idle, id) == if i < |idle| then idle[..i] + idle[i + 1..] else idle
  {
    if i > 0 {
      var rest := idle[1..];
      WithoutFirstAt(rest, id, i - 1);
      if i < |idle| {
        assert [idle[0]] + rest[..i - 1] == idle[..i] && rest[i..] == idle[i + 1..];
        assert [idle[0]] + (rest[..i - 1] + rest[i..]) == idle[..i] + idle[i + 1..];
      } else {
        assert [idle[0]] + rest == idle;
      }
    }
  }

  /** A connection put back healthy where there is room goes behind the others, and once it is
      first in line it is what the next Get answers exactly as long as it is healthy and neither
      its idle time, counted from the Put, nor its age is over. */
  lemma PutThenGet(cfg: PoolConfig, p: HostPool, mc: Conn, now: int, later: int, healthy: set<nat>)
    requires |p.idle| < cfg.maxIdlePerKey
    ensures var kept := PutBack(cfg, p, mc, true, now);
            && kept.numActive == p.numActive && p.idle < kept.idle && |kept.idle| == |p.idle| + 1
            && (p.idle == [] ==>
                  var got := BeginGet(cfg, kept, later, healthy);
                  got.0.idle == [] &&
                  if mc.id in healthy && (cfg.idleTimeout <= 0 || later <= now + cfg.idleTimeout)
                     && (cfg.maxAge <= 0 || later <= mc.createdAt + cfg.maxAge)
                  then got.1 == Reused(mc.(lastUsed := later)) && got.0.numActive == p.numActive
                  else !got.1.Reused?)
  {
    var kept := PutBack(cfg, p, mc, true, now);
    if p.idle == [] {
      var put := mc.(lastUsed := now);
      assert kept.idle == [put] && kept.idle[1..] == [];
    }
  }

  function Scrubbed(cfg: PoolConfig, p: HostPool, now: int): HostPool {
    var kept := Fresh(cfg, p.idle, now);
    HostPool(kept, Clamped(p.numActive - (|p.idle| - |kept|)))
  }

  // ----- The critical sections, as code -----------------------------------------------

  class HostConnectionPool {
    var idle: seq<Conn>
    var numActive: int

    constructor ()
      ensures View() == HostPool([], 0)
    {
      idle, numActive := [], 0;
    }

    ghost function View(): HostPool
      reads this
    {
      HostPool(idle, numActive)
    }

    /** Get up to the point where it returns or releases the lock to dial. */
    method Get(cfg: PoolConfig, now: int, healthy: set<nat>) returns (r: GetResult, ghost closed: seq<Conn>)
      modifies this
      ensures (View(), r) == BeginGet(cfg, old(View()), now, healthy)
      ensures closed == old(idle)[..Discarded(cfg, old(idle), now, healthy)]
    {
      ghost var all := idle;
      ghost var k := 0;
      closed := [];
      while |idle| > 0
        invariant 0 <= k <= |all| && idle == all[k..] && closed == all[..k]
        invariant numActive == old(numActive) - k
        invariant Discarded(cfg, all, now, healthy) == k + Discarded(cfg, idle, now, healthy)
        decreases |idle|
      {
        var mc := idle[0];
        idle := idle[1..];
        if !Stale(cfg, mc, now) && mc.id in healthy {
          r := Reused(mc.(lastUsed := now));
          return;
        }
        numActive := numActive - 1;
        closed := closed + [mc];
        k := k + 1;
      }
      if numActive >= cfg.maxPerKey {
        return Exhausted, closed;
      }
      numActive := numActive + 1;
      r := MustDial;
    }

    method DialFailed()
      modifies this`numActive
      ensures View() == HostPool(old(idle), old(numActive) - 1)
    {
      numActive := numActive - 1;
    }

    /** `returned` is nothing if there is no connection or it has no client; without a key it
        belongs to no pool. */
    method Put(cfg: PoolConfig, returned: Option<Conn>, keyed: bool, isHealthy: bool, now: int)
      modifies this
      ensures View() == if returned.None? || !keyed then old(View())
                        else PutBack(cfg, old(View()), returned.value, isHealthy, now)
    {
      if returned.None? || !keyed {
        return;
      }
      var mc := returned.value;
      if !isHealthy || |idle| >= cfg.maxIdlePerKey {
        numActive := numActive - 1;
        if numActive < 0 {
          numActive := 0;
        }
        return;
      }
      idle := idle + [mc.(lastUsed := now)];
    }

    /** `client` is nothing if the caller has none. */
    method CloseConnection(client: Option<nat>)
      modifies this
      ensures View() == if client.None? then old(View()) else GiveUp(old(View()), client.value)
    {
      if client.None? {
        return;
      }
      var id := client.value;
      ghost var all := idle;
      var i := 0;
      while i < |idle|
        invariant 0 <= i <= |idle| && idle == all
        invariant WithoutFirst(all, id) == all[..i] + WithoutFirst(all[i..], id)
      {
        if idle[i].id == id {
          idle := idle[..i] + idle[i + 1..];
          break;
        }
        i := i + 1;
      }
      assert i == |all| ==> all[i..] == [] && all[..i] == all;
      numActive := numActive - 1;
      if numActive < 0 {
        numActive := 0;
      }
    }

    method Scrub(cfg: PoolConfig, now: int)
      modifies this
      ensures View() == Scrubbed(cfg, old(View()), now)
    {
      var freshIdle: seq<Conn> := [];
      var cleaned := 0;
      var i := 0;
      while i < |idle|
        invariant 0 <= i <= |idle|
        invariant Fresh(cfg, idle, now) == freshIdle + Fresh(cfg, idle[i..], now)
        invariant cleaned == i - |freshIdle|
      {
        if Stale(cfg, idle[i], now) {
          cleaned := cleaned + 1;
        } else {
          freshIdle := freshIdle + [idle[i]];
        }
        i := i + 1;
      }
      assert idle[i..] == [];
      idle := freshIdle;
      numActive := numActive - cleaned;
      if numActive < 0 {
        numActive := 0;
      }
    }
  }
}
