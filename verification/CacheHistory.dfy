/** Histories of cache operations: evicting expired entries, by the janitor or by Get
    itself, is never observable. */
module CacheHistory {
  import opened Wrappers
  import opened TieredCache

  datatype Op<V> =
    | Set(tier: nat, key: string, value: V, ttl: int)
    | Delete(tier: nat, key: string)
    | Flush(tier: nat)
    | Get(tier: nat, key: string)
    | Has(tier: nat, key: string)
    | Keys(tier: nat)
    | Count(tier: nat)
    | Range(tier: nat)
    | DeleteExpired(tier: nat)

  /** What a caller sees of an operation. */
  datatype Seen<V> =
    | Nothing
    | Answer(found: Option<V>)
    | Present(yes: bool)
    | KeySet(keys: set<string>)
    | Number(n: nat)
    | Pairs(pairs: map<string, V>)

  datatype Event<V> = Event(op: Op<V>, now: int)

  predicate InRange<V>(op: Op<V>, tiers: nat) {
    op.tier < tiers
  }

  /** The caches: lookups evict what they find expired, the janitor evicts anywhere. */
  function Step<V>(ttls: seq<int>, tiers: seq<Store<V>>, e: Event<V>): (r: (seq<Store<V>>, Seen<V>))
    requires |ttls| == |tiers| && InRange(e.op, |tiers|)
    ensures |r.0| == |tiers|
  {
    var t := e.op.tier;
    match e.op
    case Set(_, k, v, ttl) => (tiers[t := tiers[t][k := NewItem(v, ttl, ttls[t], e.now)]], Nothing)
    case Delete(_, k) => (tiers[t := tiers[t] - {k}], Nothing)
    case Flush(_) => (tiers[t := map[]], Nothing)
    case Get(_, k) => var g := GetFrom(tiers[t..], k, e.now); (tiers[..t] + g.0, Answer(g.1))
    case Has(_, k) => var g := GetFrom(tiers[t..], k, e.now); (tiers[..t] + g.0, Present(g.1.Some?))
    case Keys(_) => (tiers, KeySet(Live(tiers[t], e.now).Keys))
    case Count(_) => (tiers, Number(|Live(tiers[t], e.now)|))
    case Range(_) => (tiers, Pairs(Values(Live(tiers[t], e.now))))
    case DeleteExpired(_) => (tiers[t := Live(tiers[t], e.now)], Nothing)
  }

  /** The reference: nothing is ever evicted, and every answer is read off the overlay
      of the unexpired entries. */
  function Reference<V>(ttls: seq<int>, tiers: seq<Store<V>>, e: Event<V>): (r: (seq<Store<V>>, Seen<V>))
    requires |ttls| == |tiers| && InRange(e.op, |tiers|)
    ensures |r.0| == |tiers|
  {
    var t := e.op.tier;
    match e.op
    case Set(_, k, v, ttl) => (tiers[t := tiers[t][k := NewItem(v, ttl, ttls[t], e.now)]], Nothing)
    case Delete(_, k) => (tiers[t := tiers[t] - {k}], Nothing)
    case Flush(_) => (tiers[t := map[]], Nothing)
    case Get(_, k) => (tiers, Answer(Lookup(Overlay(tiers[t..], e.now), k)))
    case Has(_, k) => (tiers, Present(k in Overlay(tiers[t..], e.now)))
    case Keys(_) => (tiers, KeySet(Live(tiers[t], e.now).Keys))
    case Count(_) => (tiers, Number(|Live(tiers[t], e.now)|))
    case Range(_) => (tiers, Pairs(Values(Live(tiers[t], e.now))))
    case DeleteExpired(_) => (tiers, Nothing)
  }

  ghost predicate WellTimed<V>(h: seq<Event<V>>, tiers: nat, start: int) {
    && (forall i :: 0 <= i < |h| ==> InRange(h[i].op, tiers) && start <= h[i].now)
    && (forall i, j :: 0 <= i < j < |h| ==> h[i].now <= h[j].now)
  }

  /** Everything a history shows, the janitor's silent runs left out. */
  ghost function Trace<V>(ttls: seq<int>, tiers: seq<Store<V>>, h: seq<Event<V>>): seq<Seen<V>>
    requires |ttls| == |tiers| && forall i :: 0 <= i < |h| ==> InRange(h[i].op, |tiers|)
    decreases |h|
  {
    if h == [] then []
    else
      var r := Step(ttls, tiers, h[0]);
      var rest := Trace(ttls, r.0, h[1..]);
      if h[0].op.DeleteExpired? then rest else [r.1] + rest
  }

  ghost function ReferenceTrace<V>(ttls: seq<int>, tiers: seq<Store<V>>, h: seq<Event<V>>): seq<Seen<V>>
    requires |ttls| == |tiers| && forall i :: 0 <= i < |h| ==> InRange(h[i].op, |tiers|)
    decreases |h|
  {
    if h == [] then []
    else
      var r := Reference(ttls, tiers, h[0]);
      var rest := ReferenceTrace(ttls, r.0, h[1..]);
      if h[0].op.DeleteExpired? then rest else [r.1] + rest
  }

  function WithoutJanitor<V>(h: seq<Event<V>>): seq<Event<V>> {
    if h == [] then []
    else if h[0].op.DeleteExpired? then WithoutJanitor(h[1..])
    else [h[0]] + WithoutJanitor(h[1..])
  }

  // ----- The simulation -------------------------------------------------------------

  /** Two tiers hold the same unexpired entries. */
  ghost predicate SameLive<V>(a: Store<V>, b: Store<V>, now: int) {
    Live(a, now) == Live(b, now)
  }

  ghost predicate Similar<V>(a: seq<Store<V>>, b: seq<Store<V>>, now: int) {
    |a| == |b| && forall i :: 0 <= i < |a| ==> SameLive(a[i], b[i], now)
  }

  /** What is live later was live before, so agreement lasts. */
  lemma SameLiveLater<V>(a: Store<V>, b: Store<V>, now: int, later: int)
    requires SameLive(a, b, now) && now <= later
    ensures SameLive(a, b, later)
  {
    forall k ensures k in Live(a, later) <==> k in Live(b, later) {
      assert k in Live(a, later) ==> k in Live(a, now) && Live(a, now)[k] == a[k];
      assert k in Live(b, later) ==> k in Live(b, now) && Live(b, now)[k] == b[k];
    }
    forall k | k in Live(a, later) ensures Live(a, later)[k] == Live(b, later)[k] {
      assert k in Live(a, now) && Live(a, now)[k] == Live(b, now)[k];
    }
  }

  lemma LiveAfterSet<V>(a: Store<V>, now: int, k: string, item: Item<V>)
    ensures Live(a[k := item], now) == if Expired(item, now) then Live(a, now) - {k} else Live(a, now)[k := item]
  {
  }

  lemma SameLiveSet<V>(a: Store<V>, b: Store<V>, now: int, k: string, item: Item<V>)
    requires SameLive(a, b, now)
    ensures SameLive(a[k := item], b[k := item], now)
  {
    LiveAfterSet(a, now, k, item);
    LiveAfterSet(b, now, k, item);
  }

  lemma SameLiveDelete<V>(a: Store<V>, b: Store<V>, now: int, k: string)
    requires SameLive(a, b, now)
    ensures SameLive(a - {k}, b - {k}, now)
  {
    assert Live(a - {k}, now) == Live(a, now) - {k};
    assert Live(b - {k}, now) == Live(b, now) - {k};
  }

  lemma LiveTwice<V>(a: Store<V>, now: int)
    ensures SameLive(Live(a, now), a, now)
  {
  }

  lemma {:induction false} SimilarOverlay<V>(a: seq<Store<V>>, b: seq<Store<V>>, now: int)
    requires Similar(a, b, now)
    ensures Overlay(a, now) == Overlay(b, now)
  {
    if a != [] {
      assert SameLive(a[0], b[0], now);
      forall i | 0 <= i < |a[1..]| ensures SameLive(a[1..][i], b[1..][i], now) {
        assert SameLive(a[i + 1], b[i + 1], now);
      }
      SimilarOverlay(a[1..], b[1..], now);
    }
  }

  /** Get's own evictions remove only expired entries. */
  lemma {:induction false} GetKeepsLive<V>(tiers: seq<Store<V>>, key: string, now: int)
    ensures Similar(GetFrom(tiers, key, now).0, tiers, now)
  {
    if tiers != [] && !(key in tiers[0] && !Expired(tiers[0][key], now)) {
      GetKeepsLive(tiers[1..], key, now);
      var rest := GetFrom(tiers[1..], key, now).0;
      assert Live(tiers[0] - {key}, now) == Live(tiers[0], now);
      forall i | 0 <= i < |tiers| ensures SameLive(([tiers[0] - {key}] + rest)[i], tiers[i], now) {
        if i > 0 {
          assert SameLive(rest[i - 1], tiers[1..][i - 1], now);
        }
      }
    }
  }

  lemma SimilarUpdate<V>(a: seq<Store<V>>, b: seq<Store<V>>, now: int, t: nat, x: Store<V>, y: Store<V>)
    requires Similar(a, b, now) && t < |a| && SameLive(x, y, now)
    ensures Similar(a[t := x], b[t := y], now)
  {
  }

  lemma SimilarTail<V>(a: seq<Store<V>>, b: seq<Store<V>>, now: int, t: nat)
    requires Similar(a, b, now) && t <= |a|
    ensures Similar(a[t..], b[t..], now)
  {
    forall i | 0 <= i < |a[t..]| ensures SameLive(a[t..][i], b[t..][i], now) {
      assert SameLive(a[t + i], b[t + i], now);
    }
  }

  lemma LookupStep<V>(a: seq<Store<V>>, b: seq<Store<V>>, now: int, t: nat, key: string)
    requires Similar(a, b, now) && t < |a|
    ensures Similar(a[..t] + GetFrom(a[t..], key, now).0, b, now)
    ensures GetFrom(a[t..], key, now).1 == Lookup(Overlay(b[t..], now), key)
  {
    SimilarTail(a, b, now, t);
    SimilarOverlay(a[t..], b[t..], now);
    GetIsOverlay(a[t..], key, now);
    GetKeepsLive(a[t..], key, now);
    var g := GetFrom(a[t..], key, now).0;
    forall i | 0 <= i < |a| ensures SameLive((a[..t] + g)[i], b[i], now) {
      assert SameLive(a[i], b[i], now);
      if i >= t {
        assert SameLive(g[i - t], a[t..][i - t], now);
      }
    }
  }

  /** One operation on caches with the same live entries shows the same and leaves them
      with the same live entries. */
  lemma StepSimulates<V>(ttls: seq<int>, a: seq<Store<V>>, b: seq<Store<V>>, e: Event<V>)
    requires |ttls| == |a| && Similar(a, b, e.now) && InRange(e.op, |a|)
    ensures Similar(Step(ttls, a, e).0, Reference(ttls, b, e).0, e.now)
    ensures Step(ttls, a, e).1 == Reference(ttls, b, e).1
  {
    var t := e.op.tier;
    assert SameLive(a[t], b[t], e.now);
    match e.op
    case Set(_, k, v, ttl) =>
      var item := NewItem(v, ttl, ttls[t], e.now);
      SameLiveSet(a[t], b[t], e.now, k, item);
      SimilarUpdate(a, b, e.now, t, a[t][k := item], b[t][k := item]);
    case Delete(_, k) =>
      SameLiveDelete(a[t], b[t], e.now, k);
      SimilarUpdate(a, b, e.now, t, a[t] - {k}, b[t] - {k});
    case Flush(_) =>
      SimilarUpdate(a, b, e.now, t, map[], map[]);
    case Get(_, k) => LookupStep(a, b, e.now, t, k);
    case Has(_, k) => LookupStep(a, b, e.now, t, k);
    case Keys(_) =>
    case Count(_) =>
    case Range(_) =>
    case DeleteExpired(_) =>
      LiveTwice(a[t], e.now);
      SimilarUpdate(a, b, e.now, t, Live(a[t], e.now), b[t]);
      assert b[t := b[t]] == b;
  }

  lemma SimilarLater<V>(a: seq<Store<V>>, b: seq<Store<V>>, now: int, later: int)
    requires Similar(a, b, now) && now <= later
    ensures Similar(a, b, later)
  {
    forall i | 0 <= i < |a| ensures SameLive(a[i], b[i], later) {
      SameLiveLater(a[i], b[i], now, later);
    }
  }

  lemma {:induction false} TraceSimulates<V>(ttls: seq<int>, a: seq<Store<V>>, b: seq<Store<V>>, h: seq<Event<V>>,
                                             start: int)
    requires |ttls| == |a| && Similar(a, b, start) && WellTimed(h, |a|, start)
    ensures Trace(ttls, a, h) == ReferenceTrace(ttls, b, h)
    decreases |h|
  {
    if h != [] {
      SimilarLater(a, b, start, h[0].now);
      StepSimulates(ttls, a, b, h[0]);
      assert WellTimed(h[1..], |a|, h[0].now);
      TraceSimulates(ttls, Step(ttls, a, h[0]).0, Reference(ttls, b, h[0]).0, h[1..], h[0].now);
    }
  }

  lemma {:induction false} JanitorSilent<V>(ttls: seq<int>, tiers: seq<Store<V>>, h: seq<Event<V>>, start: int)
    requires |ttls| == |tiers| && WellTimed(h, |tiers|, start)
    ensures WellTimed(WithoutJanitor(h), |tiers|, start)
    ensures ReferenceTrace(ttls, tiers, h) == ReferenceTrace(ttls, tiers, WithoutJanitor(h))
    decreases |h|
  {
    if h != [] {
      var rest := h[1..];
      assert WellTimed(rest, |tiers|, h[0].now);
      JanitorSilent(ttls, Reference(ttls, tiers, h[0]).0, rest, h[0].now);
      var w := WithoutJanitor(rest);
      if h[0].op.DeleteExpired? {
        SilentHead(ttls, tiers, h);
        assert WithoutJanitor(h) == w;
        WellTimedEarlier(w, |tiers|, start, h[0].now);
      } else {
        assert WithoutJanitor(h) == [h[0]] + w;
        WellTimedCons(h[0], w, |tiers|, start);
        ReferenceCons(ttls, tiers, h[0], w);
        assert h == [h[0]] + rest;
        ReferenceCons(ttls, tiers, h[0], rest);
      }
    }
  }

  lemma SilentHead<V>(ttls: seq<int>, tiers: seq<Store<V>>, h: seq<Event<V>>)
    requires |ttls| == |tiers| && forall i :: 0 <= i < |h| ==> InRange(h[i].op, |tiers|)
    requires h != [] && h[0].op.DeleteExpired?
    ensures ReferenceTrace(ttls, tiers, h) == ReferenceTrace(ttls, tiers, h[1..])
  {
    var r := Reference(ttls, tiers, h[0]);
    assert r.0 == tiers;
    var rest := ReferenceTrace(ttls, r.0, h[1..]);
    assert ReferenceTrace(ttls, tiers, h) == rest;
  }

  lemma ReferenceCons<V>(ttls: seq<int>, tiers: seq<Store<V>>, e: Event<V>, h: seq<Event<V>>)
    requires |ttls| == |tiers| && InRange(e.op, |tiers|) && !e.op.DeleteExpired?
    requires forall i :: 0 <= i < |h| ==> InRange(h[i].op, |tiers|)
    ensures forall i :: 0 <= i < |[e] + h| ==> InRange(([e] + h)[i].op, |tiers|)
    ensures var r := Reference(ttls, tiers, e);
            ReferenceTrace(ttls, tiers, [e] + h) == [r.1] + ReferenceTrace(ttls, r.0, h)
  {
    assert ([e] + h)[1..] == h;
  }

  lemma WellTimedEarlier<V>(h: seq<Event<V>>, tiers: nat, start: int, later: int)
    requires WellTimed(h, tiers, later) && start <= later
    ensures WellTimed(h, tiers, start)
  {
  }

  lemma WellTimedCons<V>(e: Event<V>, h: seq<Event<V>>, tiers: nat, start: int)
    requires WellTimed(h, tiers, e.now) && start <= e.now && InRange(e.op, tiers)
    ensures WellTimed([e] + h, tiers, start)
  {
    var all := [e] + h;
    forall i | 0 <= i < |all| ensures InRange(all[i].op, tiers) && e.now <= all[i].now {
      assert i > 0 ==> all[i] == h[i - 1];
    }
    forall i, j | 0 <= i < j < |all| ensures all[i].now <= all[j].now {
      assert all[j] == h[j - 1] && (i > 0 ==> all[i] == h[i - 1]);
    }
  }

  /** The refinement: over any history with a non-decreasing clock, whatever the janitor
      deletes at whichever tier and time, callers see what the never-evicting overlay
      of the same history without the janitor would show them. */
  lemma EvictionInvisible<V>(ttls: seq<int>, tiers: seq<Store<V>>, h: seq<Event<V>>, start: int)
    requires |ttls| == |tiers| && WellTimed(h, |tiers|, start)
    ensures WellTimed(WithoutJanitor(h), |tiers|, start)
    ensures Trace(ttls, tiers, h) == ReferenceTrace(ttls, tiers, WithoutJanitor(h))
  {
    TraceSimulates(ttls, tiers, tiers, h, start);
    JanitorSilent(ttls, tiers, h, start);
  }

  // ----- What a lookup answers after a store or a removal ---------------------------

  /** The tiers after a history. */
  ghost function After<V>(ttls: seq<int>, tiers: seq<Store<V>>, h: seq<Event<V>>): (r: seq<Store<V>>)
    requires |ttls| == |tiers| && forall i :: 0 <= i < |h| ==> InRange(h[i].op, |tiers|)
    ensures |r| == |tiers|
    decreases |h|
  {
    if h == [] then tiers else After(ttls, Step(ttls, tiers, h[0]).0, h[1..])
  }

  /** The operation replaces or removes what the tier holds under the key. */
  predicate Touches<V>(op: Op<V>, tier: nat, key: string) {
    && op.tier == tier
    && match op
       case Set(_, k, _, _) => k == key
       case Delete(_, k) => k == key
       case Flush(_) => true
       case _ => false
  }

  /** The history starts at `now` at the earliest, is over at `later`, and never touches the key
      in the tier; lookups, the janitor, other keys and other tiers are free. */
  ghost predicate Between<V>(h: seq<Event<V>>, tiers: nat, tier: nat, key: string, now: int, later: int) {
    && now <= later && WellTimed(h, tiers, now)
    && forall i :: 0 <= i < |h| ==> !Touches(h[i].op, tier, key) && h[i].now <= later
  }

  lemma BetweenTail<V>(h: seq<Event<V>>, tiers: nat, tier: nat, key: string, now: int, later: int)
    requires h != [] && Between(h, tiers, tier, key, now, later)
    ensures now <= h[0].now && Between(h[1..], tiers, tier, key, h[0].now, later)
  {
    assert WellTimed(h[1..], tiers, h[0].now);
  }

  /** The store holds the item under the key, or has lost it after it expired;
      no item means that the key is absent. */
  ghost predicate Keeps<V>(store: Store<V>, key: string, item: Option<Item<V>>, now: int) {
    if key in store then item == Some(store[key]) else item.Some? ==> Expired(item.value, now)
  }

  /** A lookup changes a tier by evicting the key where it is expired, and in no other way. */
  lemma {:induction false} GetEvicts<V>(tiers: seq<Store<V>>, key: string, now: int, i: nat)
    requires i < |tiers|
    ensures var after := GetFrom(tiers, key, now).0[i];
            after == tiers[i] || (after == tiers[i] - {key} && (key in tiers[i] ==> Expired(tiers[i][key], now)))
  {
    if !(key in tiers[0] && !Expired(tiers[0][key], now)) && i > 0 {
      GetEvicts(tiers[1..], key, now, i - 1);
    }
  }

  lemma StepKeeps<V>(ttls: seq<int>, tiers: seq<Store<V>>, e: Event<V>, tier: nat, key: string, item: Option<Item<V>>)
    requires |ttls| == |tiers| && InRange(e.op, |tiers|) && tier < |tiers|
    requires !Touches(e.op, tier, key) && Keeps(tiers[tier], key, item, e.now)
    ensures Keeps(Step(ttls, tiers, e).0[tier], key, item, e.now)
  {
    if (e.op.Get? || e.op.Has?) && e.op.tier <= tier {
      GetEvicts(tiers[e.op.tier..], e.op.key, e.now, tier - e.op.tier);
    }
  }

  lemma {:induction false} AfterKeeps<V>(ttls: seq<int>, tiers: seq<Store<V>>, h: seq<Event<V>>, tier: nat,
                                         key: string, item: Option<Item<V>>, now: int, later: int)
    requires |ttls| == |tiers| && tier < |tiers| && Between(h, |tiers|, tier, key, now, later)
    requires Keeps(tiers[tier], key, item, now)
    ensures Keeps(After(ttls, tiers, h)[tier], key, item, later)
    decreases |h|
  {
    if h != [] {
      BetweenTail(h, |tiers|, tier, key, now, later);
      StepKeeps(ttls, tiers, h[0], tier, key, item);
      AfterKeeps(ttls, Step(ttls, tiers, h[0]).0, h[1..], tier, key, item, h[0].now, later);
    }
  }

  /** What a lookup in the tier answers. */
  function Shown<V>(ttls: seq<int>, tiers: seq<Store<V>>, tier: nat, key: string, now: int): Seen<V>
    requires |ttls| == |tiers|
  {
    if tier < |tiers| then Step(ttls, tiers, Event(Get(tier, key), now)).1 else Answer(None)
  }

  lemma KeptIsShown<V>(ttls: seq<int>, tiers: seq<Store<V>>, tier: nat, key: string, item: Option<Item<V>>, now: int)
    requires |ttls| == |tiers| && tier < |tiers| && Keeps(tiers[tier], key, item, now)
    ensures Shown(ttls, tiers, tier, key, now) ==
            if item.Some? && !Expired(item.value, now) then Answer(Some(item.value.value))
            else Shown(ttls, tiers, tier + 1, key, now)
  {
    var here := tiers[tier..];
    assert here[0] == tiers[tier] && here[1..] == tiers[tier + 1..];
    assert Shown(ttls, tiers, tier, key, now) == Answer(GetFrom(here, key, now).1);
    assert Shown(ttls, tiers, tier + 1, key, now) == Answer(GetFrom(here[1..], key, now).1);
  }

  /** A value set at `now` is what the same tier answers at any later time, whatever has happened
      in between to other keys, other tiers or by lookups and the janitor, exactly as long as its
      lifetime lasts: the lifetime given, or the tier's own if 0 is given, which never ends if it
      is not positive. After that the tier answers what the farther tiers show. (An end that
      falls on the instant 0 of the clock means, like 0 itself, no end.) */
  lemma SetThenGet<V>(ttls: seq<int>, tiers: seq<Store<V>>, tier: nat, key: string, value: V, ttl: int, now: int,
                      h: seq<Event<V>>, later: int)
    requires |ttls| == |tiers| && tier < |tiers| && Between(h, |tiers|, tier, key, now, later)
    ensures var lifetime := if ttl == 0 then ttls[tier] else ttl;
            var end := After(ttls, Step(ttls, tiers, Event(Set(tier, key, value, ttl), now)).0, h);
            Shown(ttls, end, tier, key, later) ==
            if lifetime <= 0 || now + lifetime == 0 || later <= now + lifetime then Answer(Some(value))
            else Shown(ttls, end, tier + 1, key, later)
  {
    var after := Step(ttls, tiers, Event(Set(tier, key, value, ttl), now)).0;
    var item := Some(after[tier][key]);
    AfterKeeps(ttls, after, h, tier, key, item, now, later);
    KeptIsShown(ttls, After(ttls, after, h), tier, key, item, later);
  }

  /** The same of GetOrSet on an absent key, with the tier's own lifetime. */
  lemma GetOrSetThenGet<V>(ttls: seq<int>, tiers: seq<Store<V>>, tier: nat, key: string, value: V, now: int,
                           h: seq<Event<V>>, later: int)
    requires |ttls| == |tiers| && tier < |tiers| && Between(h, |tiers|, tier, key, now, later)
    requires key !in tiers[tier]
    ensures var got := GotOrSet(tiers[tier], key, value, ttls[tier], now);
            var end := After(ttls, tiers[tier := got.0], h);
            && got.1 == value && got.2 == false
            && Shown(ttls, end, tier, key, later) ==
               if ttls[tier] <= 0 || now + ttls[tier] == 0 || later <= now + ttls[tier] then Answer(Some(value))
               else Shown(ttls, end, tier + 1, key, later)
  {
    var after := tiers[tier := GotOrSet(tiers[tier], key, value, ttls[tier], now).0];
    var item := Some(after[tier][key]);
    AfterKeeps(ttls, after, h, tier, key, item, now, later);
    KeptIsShown(ttls, After(ttls, after, h), tier, key, item, later);
  }

  /** After a Delete of the key, or a Flush, the tier answers what the farther tiers show,
      until the key is set there again. */
  lemma RemovedThenGet<V>(ttls: seq<int>, tiers: seq<Store<V>>, tier: nat, key: string, flush: bool, now: int,
                          h: seq<Event<V>>, later: int)
    requires |ttls| == |tiers| && tier < |tiers| && Between(h, |tiers|, tier, key, now, later)
    ensures var op := if flush then Flush(tier) else Delete(tier, key);
            var end := After(ttls, Step(ttls, tiers, Event(op, now)).0, h);
            Shown(ttls, end, tier, key, later) == Shown(ttls, end, tier + 1, key, later)
  {
    var op := if flush then Flush(tier) else Delete(tier, key);
    var after := Step(ttls, tiers, Event(op, now)).0;
    AfterKeeps(ttls, after, h, tier, key, None, now, later);
    KeptIsShown(ttls, After(ttls, after, h), tier, key, None, later);
  }

  /** What a tier shows under a key is changed only by operations that touch the key there
      or in a farther tier. */
  lemma {:induction false} OnlyTouchesShow<V>(ttls: seq<int>, tiers: seq<Store<V>>, e: Event<V>, tier: nat,
                                              key: string, later: int)
    requires |ttls| == |tiers| && InRange(e.op, |tiers|) && e.now <= later
    requires forall i :: tier <= i < |tiers| ==> !Touches(e.op, i, key)
    ensures Shown(ttls, Step(ttls, tiers, e).0, tier, key, later) == Shown(ttls, tiers, tier, key, later)
    decreases |tiers| - tier
  {
    if tier < |tiers| {
      var item := if key in tiers[tier] then Some(tiers[tier][key]) else None;
      var after := Step(ttls, tiers, e).0;
      StepKeeps(ttls, tiers, e, tier, key, item);
      KeptIsShown(ttls, tiers, tier, key, item, later);
      KeptIsShown(ttls, after, tier, key, item, later);
      OnlyTouchesShow(ttls, tiers, e, tier + 1, key, later);
    }
  }

  /** The reading operations agree with one another.  Has says whether Get finds something; Keys
      holds what Get would find in this tier alone, Range the same with the values, and Count
      their number. */
  lemma ReadersAgree<V>(ttls: seq<int>, tiers: seq<Store<V>>, tier: nat, now: int, key: string)
    requires |ttls| == |tiers| && tier < |tiers|
    ensures var range := Step(ttls, tiers, Event(Range(tier), now)).1.pairs;
            var found := Shown(ttls, tiers, tier, key, now).found;
            var alone := Shown([ttls[tier]], [tiers[tier]], 0, key, now);
            && Step(ttls, tiers, Event(Keys(tier), now)).1 == KeySet(range.Keys)
            && Step(ttls, tiers, Event(Count(tier), now)).1 == Number(|range.Keys|)
            && alone == Answer(if key in range then Some(range[key]) else None)
            && Step(ttls, tiers, Event(Has(tier, key), now)).1 == Present(found.Some?)
  {
    var alone := [tiers[tier]];
    assert alone[0..] == alone && alone[1..] == [];
    var live := Live(tiers[tier], now);
    assert Values(live).Keys == live.Keys;
    assert |Values(live).Keys| == |live|;
    assert GetFrom(alone[1..], key, now).1 == None;
  }
}
