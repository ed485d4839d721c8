/**
 A size-bounded key/value cache that evicts the entry written longest ago.

 The store maps each key to its value and the moment that value was last
 written. A write that pushes the number of entries above a positive
 `maxSize` removes one entry with the smallest write time. Reads never touch
 the write time, so reading an entry does not protect it from eviction.

 Swift's `Date()` is modelled by a logical clock owned by the cache: every write stamps the current tick and advances it by one.
 */
module BoundedCache {

  datatype Option<T> = None | Some(value: T)

  /** What the cache keeps for one key: the value and its write time. */
  datatype Entry<V> = Entry(value: V, writtenAt: nat)

  /** `key` is present and no entry of `store` was written before it. */
  ghost predicate IsOldest<K, V>(store: map<K, Entry<V>>, key: K)
  {
    key in store &&
    forall j :: j in store ==> store[key].writtenAt <= store[j].writtenAt
  }

  /** No two keys share a write time (true under a strictly increasing clock). */
  ghost predicate DistinctStamps<K, V>(store: map<K, Entry<V>>)
  {
    forall j, k :: j in store && k in store && j != k ==> store[j].writtenAt != store[k].writtenAt
  }

  /** The capacity rule: a positive `maxSize` bounds the entry count; any other value bounds nothing. */
  ghost predicate WithinCapacity<K, V>(store: map<K, Entry<V>>, maxSize: int)
  {
    maxSize > 0 ==> |store| <= maxSize
  }

  /** Removing a present key shrinks the store by exactly one entry. */
  lemma RemovePresentKey<K, V>(store: map<K, Entry<V>>, key: K)
    requires key in store
    ensures |store - {key}| == |store| - 1
  {
    assert (store - {key}).Keys == store.Keys - {key};
  }

  /** Every non-empty store has an entry written no later than all others. */
  lemma {:induction false} OldestExists<K, V>(store: map<K, Entry<V>>)
    requires store != map[]
    ensures exists k :: IsOldest(store, k)
    decreases |store|
  {
    var k :| k in store;
    var rest := store - {k};
    if rest == map[] {
      assert store.Keys == rest.Keys + {k};
      assert IsOldest(store, k);
    } else {
      RemovePresentKey(store, k);
      OldestExists(rest);
      var m :| IsOldest(rest, m);
      assert forall j :: j in store && j != k ==> j in rest && store[j] == rest[j];
      if store[k].writtenAt <= store[m].writtenAt {
        assert IsOldest(store, k);
      } else {
        assert IsOldest(store, m);
      }
    }
  }

  /**
   The eviction victim of a non-empty store. When write times are distinct
   it is the only oldest key, so every scan order finds this one.
   */
  ghost function Oldest<K, V>(store: map<K, Entry<V>>): (k: K)
    requires store != map[]
    ensures IsOldest(store, k)
    ensures DistinctStamps(store) ==> forall j :: j in store && IsOldest(store, j) ==> j == k
  {
    OldestExists(store);
    var k :| IsOldest(store, k); k
  }

  /**
   One step of the fold over the keys that looks for the oldest entry: a key
   whose write time is strictly earlier replaces the candidate, so on a tie
   the key met first is kept.
   */
  function Pick<K, V>(store: map<K, Entry<V>>, oldestKey: Option<K>, key: K): (r: Option<K>)
    ensures r.Some?
    ensures r == oldestKey || r == Some(key)
    ensures key in store && oldestKey.Some? && oldestKey.value in store ==>
              store[r.value].writtenAt <= store[key].writtenAt &&
              store[r.value].writtenAt <= store[oldestKey.value].writtenAt
    ensures (key in store && oldestKey.Some? && oldestKey.value in store &&
             store[key].writtenAt == store[oldestKey.value].writtenAt) ==> r == oldestKey
    ensures oldestKey.None? ==> r == Some(key)
  {
    if oldestKey.Some? && oldestKey.value in store && key in store then
      if store[key].writtenAt < store[oldestKey.value].writtenAt then Some(key) else oldestKey
    else
      Some(key)
  }

  /**
   The store after writing `value` under `key` at time `at` with capacity
   `maxSize`: the entry is inserted or overwritten, and if that leaves more
   than a positive `maxSize` entries the oldest one is evicted.
   */
  ghost function AfterSet<K, V>(store: map<K, Entry<V>>, key: K, value: V, at: nat, maxSize: int): map<K, Entry<V>>
  {
    var written := store[key := Entry(value, at)];
    if maxSize > 0 && |written| > maxSize then written - {Oldest(written)} else written
  }

  /** A key written after every other entry is never the oldest of two or more entries. */
  lemma NewestIsNotOldest<K, V>(store: map<K, Entry<V>>, key: K)
    requires key in store && |store| >= 2
    requires forall j :: j in store && j != key ==> store[j].writtenAt < store[key].writtenAt
    ensures !IsOldest(store, key)
  {
    RemovePresentKey(store, key);
    var other :| other in store - {key};
    assert store[other].writtenAt < store[key].writtenAt;
  }

  /**
   Writing a key and reading it back gives the value just written: when the
   write is stamped later than every stored entry, the eviction it may
   trigger never removes the key just written.
   */
  lemma SetThenGet<K, V>(store: map<K, Entry<V>>, key: K, value: V, at: nat, maxSize: int)
    requires forall j :: j in store ==> store[j].writtenAt < at
    ensures key in AfterSet(store, key, value, at, maxSize)
    ensures AfterSet(store, key, value, at, maxSize)[key] == Entry(value, at)
  {
    var written := store[key := Entry(value, at)];
    if maxSize > 0 && |written| > maxSize {
      NewestIsNotOldest(written, key);
      assert Oldest(written) != key;
    }
  }

  /**
   A write keeps a store within a positive capacity, and says exactly how
   the entry count moves: unchanged on an overwrite or when a new key evicts
   another, one more when a new key fits.
   */
  lemma SetKeepsCapacity<K, V>(store: map<K, Entry<V>>, key: K, value: V, at: nat, maxSize: int)
    requires WithinCapacity(store, maxSize)
    ensures WithinCapacity(AfterSet(store, key, value, at, maxSize), maxSize)
    ensures |AfterSet(store, key, value, at, maxSize)| ==
              if key in store || (maxSize > 0 && |store| == maxSize) then |store| else |store| + 1
  {
    var written := store[key := Entry(value, at)];
    if maxSize > 0 && |written| > maxSize {
      RemovePresentKey(written, Oldest(written));
    }
  }

  /**
   With `maxSize` zero or negative a write never evicts: the new entry is
   added to everything already stored, and a new key grows the count by one.
   */
  lemma UnboundedSetNeverEvicts<K, V>(store: map<K, Entry<V>>, key: K, value: V, at: nat, maxSize: int)
    requires maxSize <= 0
    ensures AfterSet(store, key, value, at, maxSize) == store[key := Entry(value, at)]
    ensures key !in store ==> |AfterSet(store, key, value, at, maxSize)| == |store| + 1
  {
  }

  /**
   Overwriting a present key in a store within capacity evicts nothing,
   keeps the count, and changes only that key's value and write time.
   */
  lemma OverwriteReplacesOnlyThatKey<K, V>(store: map<K, Entry<V>>, key: K, value: V, at: nat, maxSize: int)
    requires key in store && WithinCapacity(store, maxSize)
    ensures AfterSet(store, key, value, at, maxSize).Keys == store.Keys
    ensures AfterSet(store, key, value, at, maxSize)[key] == Entry(value, at)
    ensures forall j :: j in store && j != key ==> AfterSet(store, key, value, at, maxSize)[j] == store[j]
  {
    assert store[key := Entry(value, at)].Keys == store.Keys;
  }

  /**
   A write adds no key other than the one written and leaves every other
   surviving entry as it was.
   */
  lemma SetChangesOnlyThatKey<K, V>(store: map<K, Entry<V>>, key: K, value: V, at: nat, maxSize: int)
    ensures AfterSet(store, key, value, at, maxSize).Keys <= store.Keys + {key}
    ensures forall j :: j in AfterSet(store, key, value, at, maxSize) && j != key ==>
              AfterSet(store, key, value, at, maxSize)[j] == store[j]
  {
  }

  /**
   A write drops at most one stored key, and the key it drops is an oldest
   entry of the store with the new entry written.
   */
  lemma SetEvictsOnlyTheOldest<K, V>(store: map<K, Entry<V>>, key: K, value: V, at: nat, maxSize: int)
    ensures forall j :: j in store && j !in AfterSet(store, key, value, at, maxSize) ==>
              IsOldest(store[key := Entry(value, at)], j)
    ensures |store.Keys - AfterSet(store, key, value, at, maxSize).Keys| <= 1
  {
    var written := store[key := Entry(value, at)];
    var after := AfterSet(store, key, value, at, maxSize);
    if maxSize > 0 && |written| > maxSize {
      var victim := Oldest(written);
      assert after.Keys == written.Keys - {victim};
      var dropped := store.Keys - after.Keys;
      assert dropped == {} || dropped == {victim} by {
        assert dropped <= {victim};
        if dropped != {} {
          var d :| d in dropped;
          assert d == victim;
          assert dropped == {victim};
        }
      }
      forall j | j in store && j !in after ensures IsOldest(written, j) {
        assert j == victim;
      }
    } else {
      assert after.Keys == written.Keys;
      assert store.Keys - after.Keys == {};
    }
  }

  /**
   The cache. `cache` holds each key's value and write time, `maxSize` is
   fixed at construction, and `clock` is the logical clock standing for the
   wall clock: it is later than every stored write time.
   */
  class Cache<K(==), V> {
    var cache: map<K, Entry<V>>
    const maxSize: int
    var clock: nat

    /** Every write time is in the past and no two coincide. */
    ghost predicate Stamped()
      reads this
    {
      (forall k :: k in cache ==> cache[k].writtenAt < clock) &&
      DistinctStamps(cache)
    }

    /** The object invariant: well stamped and within capacity. */
    ghost predicate Valid()
      reads this
    {
      Stamped() && WithinCapacity(cache, maxSize)
    }

    /** An empty cache. Any `maxSize` is accepted; zero or negative means no bound. */
    constructor (maxSize: int)
      ensures Valid()
      ensures this.maxSize == maxSize && cache == map[] && clock == 0
    {
      this.maxSize := maxSize;
      cache := map[];
      clock := 0;
    }

    /** Subscript read: the same as `Get`. */
    method Subscript(key: K) returns (r: Option<V>)
      ensures r.Some? <==> key in cache
      ensures r.Some? ==> r.value == cache[key].value
    {
      r := Get(key);
    }

    /** Subscript assignment: a value means `Set`, `None` means `Remove`. */
    method SetSubscript(key: K, newValue: Option<V>)
      requires Valid()
      modifies this
      ensures Valid()
      ensures newValue.Some? ==> cache == AfterSet(old(cache), key, newValue.value, old(clock), maxSize)
      ensures newValue.Some? ==> clock == old(clock) + 1
      ensures newValue.None? ==> cache == old(cache) - {key} && clock == old(clock)
    {
      match newValue
      case Some(value) => Set(value, key);
      case None => Remove(key);
    }

    /** The value stored under `key`, if any; the write time is left alone. */
    method Get(key: K) returns (r: Option<V>)
      ensures r.Some? <==> key in cache
      ensures r.Some? ==> r.value == cache[key].value
    {
      r := if key in cache then Some(cache[key].value) else None;
    }

    /**
     Store `value` under `key`, stamped with the current tick; then, if a
     positive `maxSize` is exceeded, evict the oldest entry.
     */
    method Set(value: V, key: K)
      requires Valid()
      modifies this
      ensures Valid()
      ensures clock == old(clock) + 1
      ensures cache == AfterSet(old(cache), key, value, old(clock), maxSize)
    {
      cache := cache[key := Entry(value, clock)];
      clock := clock + 1;
      if maxSize > 0 && |cache| > maxSize {
        RemoveOldestItem();
        RemovePresentKey(old(cache)[key := Entry(value, old(clock))], Oldest(old(cache)[key := Entry(value, old(clock))]));
      }
    }

    /** Delete `key`'s entry; nothing happens when it is absent. */
    method Remove(key: K)
      requires Valid()
      modifies this
      ensures Valid()
      ensures cache == old(cache) - {key} && clock == old(clock)
      ensures key !in cache
      ensures forall j :: j in old(cache) && j != key ==> j in cache && cache[j] == old(cache)[j]
      ensures key !in old(cache) ==> cache == old(cache)
    {
      cache := cache - {key};
    }

    /** Delete every entry; `maxSize` is a constant and stays as it was. */
    method Clear()
      requires Valid()
      modifies this
      ensures Valid()
      ensures cache == map[] && clock == old(clock)
      ensures forall k :: k !in cache
    {
      cache := map[];
    }

    /** Whether `key` has an entry. */
    method Contains(key: K) returns (b: bool)
      ensures b <==> key in cache
    {
      b := key in cache.Keys;
    }

    /** The number of entries. */
    method Count() returns (n: nat)
      ensures n == |cache|
    {
      n := |cache|;
    }

    /**
     The fold over the keys that finds the oldest entry. The keys are taken
     in an unspecified order, as a dictionary yields them; a key replaces the
     candidate only when it was written strictly earlier.
     */
    method OldestKey() returns (oldest: Option<K>)
      ensures oldest.None? <==> cache == map[]
      ensures oldest.Some? ==> IsOldest(cache, oldest.value)
    {
      var remaining := cache.Keys;
      oldest := None;
      while remaining != {}
        invariant remaining <= cache.Keys
        invariant oldest.None? <==> remaining == cache.Keys
        invariant oldest.Some? ==> oldest.value in cache && oldest.value !in remaining
        invariant oldest.Some? ==> forall j :: j in cache && j !in remaining ==>
                    cache[oldest.value].writtenAt <= cache[j].writtenAt
        decreases remaining
      {
        var key :| key in remaining;
        oldest := Pick(cache, oldest, key);
        remaining := remaining - {key};
      }
      if oldest.None? {
        assert cache.Keys == {};
      }
    }

    /** Evict the oldest entry; on an empty cache nothing happens. */
    method RemoveOldestItem()
      requires Stamped()
      modifies this
      ensures Stamped()
      ensures clock == old(clock)
      ensures old(cache) == map[] ==> cache == old(cache)
      ensures old(cache) != map[] ==> cache == old(cache) - {Oldest(old(cache))}
      ensures old(cache) != map[] ==> |cache| == |old(cache)| - 1
    {
      var oldest := OldestKey();
      match oldest
      case None =>
      case Some(key) =>
        RemovePresentKey(cache, key);
        cache := cache - {key};
    }
  }
}
