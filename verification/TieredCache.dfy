/** The tiered cache with expiring entries: step, task, module, pipeline. */
module TieredCache {
  import opened Sequences
  import opened Wrappers

  const DEFAULT_EXPIRATION: int := 0

  datatype Item<V> = Item(value: V, expiration: int)

  type Store<V> = map<string, Item<V>>

  predicate Expired<V>(item: Item<V>, now: int) {
    item.expiration != 0 && now > item.expiration
  }

  function NewItem<V>(value: V, ttl: int, defaultTTL: int, now: int): Item<V> {
    var effective := if ttl == DEFAULT_EXPIRATION then defaultTTL else ttl;
    Item(value, if effective > 0 then now + effective else 0)
  }

  /** The entries that count at time `now`. */
  function Live<V>(store: Store<V>, now: int): Store<V> {
    map k | k in store && !Expired(store[k], now) :: store[k]
  }

  function Values<V>(store: Store<V>): map<string, V> {
    map k | k in store :: store[k].value
  }

  // ----- Lookup through the tiers -------------------------------------------------------

  /** Get: a hit answers; an expired entry is evicted and the next tier is asked. */
  function GetFrom<V>(tiers: seq<Store<V>>, key: string, now: int): (r: (seq<Store<V>>, Option<V>))
    ensures |r.0| == |tiers|
  {
    if tiers == [] then ([], None)
    else if key in tiers[0] && !Expired(tiers[0][key], now) then (tiers, Some(tiers[0][key].value))
    else
      var rest := GetFrom(tiers[1..], key, now);
      ([tiers[0] - {key}] + rest.0, rest.1)
  }

  /** The meaning of the tiers: all unexpired entries, nearer tiers shadowing farther. */
  function Overlay<V>(tiers: seq<Store<V>>, now: int): map<string, V> {
    if tiers == [] then map[] else Overlay(tiers[1..], now) + Values(Live(tiers[0], now))
  }

  function Lookup<V>(m: map<string, V>, key: string): Option<V> {
    if key in m then Some(m[key]) else None
  }

  lemma {:induction false} GetIsOverlay<V>(tiers: seq<Store<V>>, key: string, now: int)
    ensures GetFrom(tiers, key, now).1 == Lookup(Overlay(tiers, now), key)
  {
    if tiers != [] {
      GetIsOverlay(tiers[1..], key, now);
    }
  }

  // ----- Caches as objects ----------------------------------------------------------

  class GenericCache<V(==)> {
    var store: Store<V>
    const defaultTTL: int
    const parent: GenericCache?<V>
    ghost const chain: seq<GenericCache<V>>

    /** The chain of tiers, from this cache outwards, has no repetition. */
    ghost predicate Valid()
      decreases |chain|
    {
      && |chain| > 0 && chain[0] == this
      && (forall i, j :: 0 <= i < j < |chain| ==> chain[i] != chain[j])
      && (if parent == null then |chain| == 1
          else parent.chain == chain[1..] && |parent.chain| < |chain| && parent.Valid())
    }

    ghost function Tiers(): seq<Store<V>>
      reads chain
    {
      seq(|chain|, i requires 0 <= i < |chain| reads chain => chain[i].store)
    }

    constructor (defaultTTL: int, parent: GenericCache?<V>)
      requires parent != null ==> parent.Valid()
      ensures Valid() && this.defaultTTL == defaultTTL && this.parent == parent && store == map[]
      ensures parent != null ==> chain == [this] + parent.chain
    {
      this.defaultTTL := defaultTTL;
      this.parent := parent;
      store := map[];
      chain := [this] + if parent == null then [] else parent.chain;
      new;
      assert parent != null ==> chain[1..] == parent.chain;
    }

    method Get(key: string, now: int) returns (r: Option<V>)
      requires Valid()
      modifies chain
      ensures (Tiers(), r) == GetFrom(old(Tiers()), key, now)
      decreases |chain|
    {
      ghost var before := Tiers();
      if key in store {
        if !Expired(store[key], now) {
          return Some(store[key].value);
        }
        store := store - {key};
      }
      assert store == before[0] - {key};
      if parent != null {
        assert parent.Tiers() == before[1..];
        r := parent.Get(key, now);
        assert Tiers() == [store] + parent.Tiers();
        return;
      }
      assert before[1..] == [] && Tiers() == [store] + [];
      assert GetFrom(before[1..], key, now).0 == [];
      return None;
    }

    method SetWithTTL(key: string, value: V, ttl: int, now: int)
      modifies this`store
      ensures store == old(store)[key := NewItem(value, ttl, defaultTTL, now)]
      ensures key in store && store[key].value == value
      ensures forall k :: k != key ==> (k in store <==> k in old(store))
      ensures forall k :: k != key && k in store ==> store[k] == old(store)[k]
      ensures var lifetime := if ttl == 0 then defaultTTL else ttl;
              forall later :: Expired(store[key], later) <==>
                              lifetime > 0 && now + lifetime != 0 && later > now + lifetime
    {
      var expires := 0;
      var effective := ttl;
      if ttl == DEFAULT_EXPIRATION {
        effective := defaultTTL;
      }
      if effective > 0 {
        expires := now + effective;
      }
      store := store[key := Item(value, expires)];
    }

    method Delete(key: string)
      modifies this`store
      ensures store == old(store) - {key}
    {
      store := store - {key};
    }

    method Flush()
      modifies this`store
      ensures store == map[]
    {
      store := map[];
    }

    /** The keys of the live entries, each once. */
    method Keys(now: int) returns (keys: seq<string>)
      ensures Distinct(keys)
      ensures forall k :: k in keys <==> k in Live(store, now)
    {
      keys := [];
      var unvisited := store.Keys;
      while unvisited != {}
        invariant unvisited <= store.Keys
        invariant Distinct(keys)
        invariant forall k :: k in keys <==> k in Live(store, now) && k !in unvisited
        decreases unvisited
      {
        var key :| key in unvisited;
        unvisited := unvisited - {key};
        if !Expired(store[key], now) {
          keys := keys + [key];
        }
      }
    }

    method Count(now: int) returns (count: nat)
      ensures count == |Live(store, now)|
    {
      count := 0;
      var unvisited := store.Keys;
      ghost var seen: set<string> := {};
      while unvisited != {}
        invariant unvisited <= store.Keys
        invariant seen == Live(store, now).Keys - unvisited && count == |seen|
        decreases unvisited
      {
        var key :| key in unvisited;
        unvisited := unvisited - {key};
        if !Expired(store[key], now) {
          count := count + 1;
          seen := seen + {key};
        }
      }
      assert seen == Live(store, now).Keys;
    }

    /** Removes the expired entries and no other. */
    method DeleteExpired(now: int)
      modifies this`store
      ensures store == Live(old(store), now)
    {
      var unvisited := store.Keys;
      while unvisited != {}
        invariant unvisited <= old(store).Keys
        invariant store.Keys == unvisited + Live(old(store), now).Keys
        invariant forall k :: k in store ==> store[k] == old(store)[k]
        decreases unvisited
      {
        var key :| key in unvisited;
        unvisited := unvisited - {key};
        if Expired(store[key], now) {
          store := store - {key};
        }
      }
    }

    /** Returns what is stored, expired or not, if the first look found nothing live. */
    method GetOrSet(key: string, value: V, now: int) returns (r: V, loaded: bool)
      modifies this`store
      ensures (store, r, loaded) == GotOrSet(old(store), key, value, defaultTTL, now)
      ensures key in old(store) ==> store == old(store) && r == store[key].value && loaded
      ensures key !in old(store) ==> store.Keys == old(store).Keys + {key} && r == value && !loaded
      ensures key !in old(store) ==>
                && store[key].value == value
                && forall later :: Expired(store[key], later) <==>
                                   defaultTTL > 0 && now + defaultTTL != 0 && later > now + defaultTTL
    {
      if key in store {
        if !Expired(store[key], now) {
          return store[key].value, true;
        }
      }
      var expires := 0;
      if defaultTTL > 0 {
        expires := now + defaultTTL;
      }
      if key in store {
        return store[key].value, true;
      }
      store := store[key := Item(value, expires)];
      return value, false;
    }
  }

  function GotOrSet<V>(store: Store<V>, key: string, value: V, defaultTTL: int, now: int): (Store<V>, V, bool) {
    if key in store then (store, store[key].value, true)
    else (store[key := NewItem(value, DEFAULT_EXPIRATION, defaultTTL, now)], value, false)
  }

  /** GetOrSet answers with the live value, or stores and answers with the new one,
      exactly when the tier holds no expired entry under the key. */
  lemma GetOrSetIff<V>(store: Store<V>, key: string, value: V, defaultTTL: int, now: int)
    ensures var r := GotOrSet(store, key, value, defaultTTL, now);
            var live := Live(store, now);
            (if key in live then r == (store, live[key].value, true)
             else r.2 == false && r.1 == value && key in r.0 && r.0[key].value == value)
            <==> !(key in store && Expired(store[key], now))
  {
  }

  /** It happens: an entry that expired at time 5 is the answer at time 6. */
  lemma ExpiredIsAnswered<V>(stale: V, value: V, defaultTTL: int)
    ensures var store := map["k" := Item(stale, 5)];
            && "k" !in Live(store, 6)
            && GotOrSet(store, "k", value, defaultTTL, 6) == (store, stale, true)
  {
  }
}
