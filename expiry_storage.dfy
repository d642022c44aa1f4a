/**
 * `setLocalStorageWithExpiry` / `getLocalStorageWithExpiry`: values kept in
 * the browser's key/value storage together with an expiry time; a read past
 * the expiry deletes the entry and answers null (None). The current time is
 * a parameter instead of `Date.now()`, and the JSON text the source stores
 * is modelled by the value itself.
 */
module ExpiryStorage {
  import opened Wrappers

  /** What is stored under a key: `{value, expiry}`. */
  datatype Entry<V> = Entry(value: V, expiry: int)

  type Store<V> = map<string, Entry<V>>

  /** The answer of a read and the storage as the read leaves it. */
  datatype Read<V> = Read(result: Option<V>, store: Store<V>)

  /** Reads strictly after the expiry time find the entry expired. */
  predicate Expired<V>(e: Entry<V>, now: int) {
    now > e.expiry
  }

  /** A write: `key` now holds `value` until `now + ttl`; no other key is touched. */
  function Put<V>(store: Store<V>, key: string, value: V, ttl: int, now: int): (s: Store<V>)
    ensures s.Keys == store.Keys + {key}
    ensures s[key] == Entry(value, now + ttl)
    ensures forall k :: k in store && k != key ==> s[k] == store[k]
  {
    store[key := Entry(value, now + ttl)]
  }

  /**
   * A read answers the value of a live entry; an expired entry is removed and
   * a missing or expired one answers None. Every other entry stays as it was.
   */
  function Fetch<V>(store: Store<V>, key: string, now: int): (r: Read<V>)
    ensures r.result.Some? <==> key in store && !Expired(store[key], now)
    ensures r.result.Some? ==> r.result.value == store[key].value
    ensures r.store.Keys == if key in store && Expired(store[key], now) then store.Keys - {key} else store.Keys
    ensures forall k :: k in r.store ==> r.store[k] == store[k]
  {
    if key !in store then Read(None, store)
    else if Expired(store[key], now) then Read(None, store - {key})
    else Read(Some(store[key].value), store)
  }

  /** Written, then read no later than the expiry: the value comes back, nothing changes. */
  lemma PutThenFetchLive<V>(store: Store<V>, key: string, value: V, ttl: int, t: int, t': int)
    requires t' <= t + ttl
    ensures Fetch(Put(store, key, value, ttl, t), key, t') == Read(Some(value), Put(store, key, value, ttl, t))
  {
  }

  /**
   * Written, then read after the expiry: None, and the storage is as if the
   * key had never been there.
   */
  lemma PutThenFetchExpired<V>(store: Store<V>, key: string, value: V, ttl: int, t: int, t': int)
    requires t' > t + ttl
    ensures Fetch(Put(store, key, value, ttl, t), key, t') == Read(None, store - {key})
  {
  }

  /** Reading a key that is not there answers None and changes nothing. */
  lemma FetchAbsent<V>(store: Store<V>, key: string, now: int)
    requires key !in store
    ensures Fetch(store, key, now) == Read(None, store)
  {
  }

  /** A read touches no other key. */
  lemma FetchIsolated<V>(store: Store<V>, key: string, other: string, now: int)
    requires other != key
    ensures other in Fetch(store, key, now).store <==> other in store
    ensures other in store ==> Fetch(store, key, now).store[other] == store[other]
  {
  }

  /** A second read at the same time gives the same answer and storage. */
  lemma FetchIdempotent<V>(store: Store<V>, key: string, now: int)
    ensures Fetch(Fetch(store, key, now).store, key, now) == Fetch(store, key, now)
  {
  }

  /** Without a new write, an entry once expired stays expired for later reads. */
  lemma ExpiredStaysGone<V>(store: Store<V>, key: string, now: int, later: int)
    requires now <= later && Fetch(store, key, now).result.None?
    ensures Fetch(Fetch(store, key, now).store, key, later).result.None?
  {
  }

  /** A later write to the same key replaces the earlier one entirely. */
  lemma PutOverwrites<V>(store: Store<V>, key: string, v1: V, ttl1: int, t1: int, v2: V, ttl2: int, t2: int)
    ensures Put(Put(store, key, v1, ttl1, t1), key, v2, ttl2, t2) == Put(store, key, v2, ttl2, t2)
  {
  }

  /** `localStorage`, as the two wrapper functions use it. */
  class LocalStorage<V> {
    var items: Store<V>

    constructor ()
      ensures items == map[]
    {
      items := map[];
    }

    /** `setLocalStorageWithExpiry(key, value, ttl)` at time `now`. */
    method SetWithExpiry(key: string, value: V, ttl: int, now: int)
      modifies this
      ensures items == Put(old(items), key, value, ttl, now)
    {
      var item := Entry(value, now + ttl);
      items := items[key := item];
    }

    /** `getLocalStorageWithExpiry(key)` at time `now`. */
    method GetWithExpiry(key: string, now: int) returns (result: Option<V>)
      modifies this
      ensures Read(result, items) == Fetch(old(items), key, now)
    {
      if key !in items {
        return None;
      }
      var item := items[key];
      if now > item.expiry {
        items := items - {key};
        return None;
      }
      return Some(item.value);
    }
  }

  /** Store for 100 ms, read at once, then read again 101 ms later. */
  method ExpiryScenario<V>(v: V, now: int)
  {
    var storage := new LocalStorage<V>();
    storage.SetWithExpiry("k", v, 100, now);
    var first := storage.GetWithExpiry("k", now);
    assert first == Some(v);
    var second := storage.GetWithExpiry("k", now + 101);
    assert second == None && "k" !in storage.items;
  }
}
