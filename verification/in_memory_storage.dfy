/** `src/storage/in_memory_storage.rs`: a key-value map whose entries are
    data items. The same map, with the same `insert` and lookup, is the
    storage engine of the server's `Core` (`src/redis_store.rs`), which
    uses `Insert` and `Lookup` below. */
module Storage {
  import opened Base
  import opened DataItems

  /** The map behind both `InMemoryStorage` and `Core`. */
  type Engine = map<string, DataItem<string>>

  /** `HashMap::insert` of a fresh data item: both value and deadline of
      the key are replaced. */
  function Insert(m: Engine, key: string, value: string, ttl: Option<nat>): (r: Engine)
    ensures key in r && r[key] == New(value, ttl)
    ensures r.Keys == m.Keys + {key}
    ensures forall k :: k in m && k != key ==> r[k] == m[k]
  {
    m[key := New(value, ttl)]
  }

  /** A lookup followed by `expired_or_return`: nothing for a missing key,
      otherwise the item's value unless it has expired at `now`. */
  function Lookup(m: Engine, key: string, now: nat): (r: Option<string>)
    ensures r.Some? <==> key in m && Alive(m[key], now)
    ensures r.Some? ==> r.value == m[key].value
  {
    if key in m then ExpiredOrReturn(m[key], now) else None
  }

  /** `InMemoryStorage`. */
  datatype InMemoryStorage = InMemoryStorage(storage: Engine)

  /** `InMemoryStorage::new`: no key is present. */
  function NewStorage(): (s: InMemoryStorage)
    ensures forall key, now :: Get(s, key, now) == None
  {
    InMemoryStorage(map[])
  }

  /** `InMemoryStorage::set`. */
  function Set(s: InMemoryStorage, key: string, value: string, ttl: Option<nat>): (r: InMemoryStorage)
    ensures r.storage.Keys == s.storage.Keys + {key}
  {
    InMemoryStorage(Insert(s.storage, key, value, ttl))
  }

  /** `InMemoryStorage::get`. It reads the map and leaves it as it is, so
      an expired entry is still stored after a `get` of it. */
  function Get(s: InMemoryStorage, key: string, now: nat): (r: Option<string>)
    ensures r.Some? ==> key in s.storage && r.value == s.storage[key].value
    ensures key !in s.storage ==> r == None
  {
    Lookup(s.storage, key, now)
  }

  /** A value set without a TTL is read back at every instant. */
  lemma {:induction false} GetAfterSet(s: InMemoryStorage, key: string, value: string, now: nat)
    ensures Get(Set(s, key, value, None), key, now) == Some(value)
  {
  }

  /** A value set with deadline `t` is read back exactly while `now <= t`. */
  lemma {:induction false} GetAfterSetWithTtl(s: InMemoryStorage, key: string, value: string, t: nat, now: nat)
    ensures Get(Set(s, key, value, Some(t)), key, now) == (if now <= t then Some(value) else None)
  {
  }

  /** A second `set` of a key replaces both its value and its deadline:
      the first `set` leaves no trace. */
  lemma {:induction false} SetOverwrites(s: InMemoryStorage, key: string, v1: string, t1: Option<nat>, v2: string, t2: Option<nat>)
    ensures Set(Set(s, key, v1, t1), key, v2, t2) == Set(s, key, v2, t2)
  {
  }

  /** `set` of one key does not change what `get` returns for any other
      key, at any instant. */
  lemma {:induction false} SetFrame(s: InMemoryStorage, key: string, value: string, ttl: Option<nat>, other: string, now: nat)
    requires other != key
    ensures Get(Set(s, key, value, ttl), other, now) == Get(s, other, now)
  {
  }

  /** An expired entry reads as absent but is not removed: it stays in the
      map with its value and deadline, and a later `set` is what replaces
      it. */
  lemma {:induction false} ExpiredEntryKept(s: InMemoryStorage, key: string, value: string, t: nat, now: nat)
    requires t < now
    ensures var r := Set(s, key, value, Some(t));
            && Get(r, key, now) == None
            && key in r.storage && r.storage[key] == DataItem(value, Some(t))
  {
  }
}
