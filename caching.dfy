/**
 * `MemoryCacheService`: a keyed store whose entries carry an absolute expiry
 * instant. Time is whole seconds, passed in as `now`.
 */
module Caching {
  import opened Outcomes

  /** `TimeSpan.FromMinutes(30)`, in seconds. */
  const DefaultExpiration: int := 1800

  datatype Entry<V> = Entry(value: V, expiresAt: int)

  /** `absoluteExpiration ?? TimeSpan.FromMinutes(30)` */
  function EffectiveTtl(ttl: Option<int>): (t: int)
    ensures ttl.None? ==> t == DefaultExpiration
    ensures ttl.Some? ==> t == ttl.value
  {
    ttl.GetOr(DefaultExpiration)
  }

  /** An entry with an absolute expiry is gone from `expiresAt` on. */
  predicate Alive<V>(e: Entry<V>, now: int) {
    now < e.expiresAt
  }

  /** `TryGetValue(key, out value)` at time `now`. */
  function Lookup<V>(store: map<string, Entry<V>>, key: string, now: int): (r: Option<V>)
    ensures r.Some? <==> key in store && Alive(store[key], now)
    ensures r.Some? ==> r.value == store[key].value
  {
    if key in store && Alive(store[key], now) then Some(store[key].value) else None
  }

  /** `Set(key, value, options)` with `AbsoluteExpirationRelativeToNow = ttl`. */
  function Write<V>(store: map<string, Entry<V>>, key: string, value: V, ttl: Option<int>, now: int): (s: map<string, Entry<V>>)
    requires ttl.None? || ttl.value > 0
    ensures s.Keys == store.Keys + {key}
  {
    store[key := Entry(value, now + EffectiveTtl(ttl))]
  }

  /** A written value is read back from the moment of writing until its expiry, and not after. */
  lemma LookupAfterWrite<V>(store: map<string, Entry<V>>, key: string, value: V, ttl: Option<int>, now: int, later: int)
    requires ttl.None? || ttl.value > 0
    requires now <= later
    ensures later < now + EffectiveTtl(ttl) ==> Lookup(Write(store, key, value, ttl, now), key, later) == Some(value)
    ensures later >= now + EffectiveTtl(ttl) ==> Lookup(Write(store, key, value, ttl, now), key, later) == None
  {
  }

  /** A write to one key leaves every other key's lookups as they were. */
  lemma WriteIsolation<V>(store: map<string, Entry<V>>, key: string, value: V, ttl: Option<int>, now: int,
                          other: string, at: int)
    requires ttl.None? || ttl.value > 0
    requires other != key
    ensures Lookup(Write(store, key, value, ttl, now), other, at) == Lookup(store, other, at)
  {
  }

  /** With no expiration given, an entry lives exactly thirty minutes. */
  lemma DefaultExpiryIsThirtyMinutes<V>(store: map<string, Entry<V>>, key: string, value: V, now: int)
    ensures Lookup(Write(store, key, value, None, now), key, now + 30 * 60 - 1) == Some(value)
    ensures Lookup(Write(store, key, value, None, now), key, now + 30 * 60) == None
  {
  }

  /** The cache over one value type. */
  class MemoryCacheService<V> {
    var store: map<string, Entry<V>>

    constructor()
      ensures store == map[]
    {
      store := map[];
    }

    /** `GetOrSetAsync(key, getData, absoluteExpiration)`: `loaderInvoked` reports whether
        `getData` ran. The returned value stays readable until the entry's expiry. */
    method GetOrSet(key: string, loader: () -> V, ttl: Option<int>, now: int) returns (value: V, loaderInvoked: bool)
      requires ttl.None? || ttl.value > 0
      modifies this
      ensures old(Lookup(store, key, now)).Some? ==>
                value == old(Lookup(store, key, now)).value && !loaderInvoked && store == old(store)
      ensures old(Lookup(store, key, now)).None? ==>
                value == loader() && loaderInvoked && store == Write(old(store), key, value, ttl, now)
      ensures key in store && forall t :: now <= t < store[key].expiresAt ==> Lookup(store, key, t) == Some(value)
      ensures Lookup(store, key, now) == Some(value)
    {
      var hit := Lookup(store, key, now);
      if hit.Some? {
        return hit.value, false;
      }
      value := loader();
      loaderInvoked := true;
      store := Write(store, key, value, ttl, now);
    }

    /** `Set(key, data, absoluteExpiration)`: overwrites any previous entry for the key. */
    method Set(key: string, data: V, ttl: Option<int>, now: int)
      requires ttl.None? || ttl.value > 0
      modifies this
      ensures store == Write(old(store), key, data, ttl, now)
      ensures Lookup(store, key, now) == Some(data)
      ensures forall k, t :: k != key ==> Lookup(store, k, t) == old(Lookup(store, k, t))
    {
      store := Write(store, key, data, ttl, now);
      forall k, t | k != key ensures Lookup(store, k, t) == old(Lookup(store, k, t)) {
        WriteIsolation(old(store), key, data, ttl, now, k, t);
      }
    }

    /** `TryGet(key, out value)`: found iff a live entry exists. */
    method TryGet(key: string, now: int) returns (found: bool, value: Option<V>)
      ensures found <==> key in store && Alive(store[key], now)
      ensures value == Lookup(store, key, now)
    {
      value := Lookup(store, key, now);
      found := value.Some?;
    }
  }
}
