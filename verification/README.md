# Bounded cache with oldest-write eviction

This project models the generic class `Cache<K, V>` of the iOS-Generics
playground: an in-memory key/value store that holds at most `maxSize` entries
and, when a write pushes it over that limit, evicts the entry whose value was
written longest ago. Reads do not refresh an entry's write time, so this is
write-order eviction, not LRU.

The model is written in Dafny.

- `bounded_cache.dfy`, module `BoundedCache`.
  - The class `Cache` keeps the source's dictionary as a field
    `cache: map<K, Entry<V>>`. An `Entry` is a value with its write time.
  - `maxSize` is a constant fixed by the constructor.
  - Swift's `Date()` becomes a logical clock field `clock`. Every write
    stamps the current tick and advances it.
  - Every method of the source is a method of the class. State-changing
    methods say exactly what the new map is. The write is specified by the
    ghost function `AfterSet`.
  - The key search of `removeOldestItem` is the method `OldestKey`. It is a
    loop over the key set in an unspecified order, as a Swift dictionary
    yields its keys. Each step is the fold's closure, `Pick`.
  - Lemmas over plain maps state the properties of a write: read-back,
    capacity, no eviction when unbounded, overwrite, and what eviction may
    drop.
- `playground.dfy`, module `Playground`: the playground's demo as a client of
  the class, plus a negative-capacity run.

The object invariant `Valid()` has two parts:
- every write time is earlier than `clock` and no two are equal;
- a positive `maxSize` bounds the entry count.

Every public method preserves it. Because write times are distinct, the
oldest entry is unique. So the victim the scan finds does not depend on the
order in which keys are visited.

`Get`, `Subscript`, `Contains`, `Count` and `OldestKey` have no `modifies`
clause. Dafny therefore guarantees that they change nothing, and in
particular that a read leaves every write time as it was.

A negative `maxSize` is accepted and, like zero, disables eviction:
`init` (`Contents.swift` lines 19-21) does not check the sign, and line 42
only evicts when `maxSize > 0`.

## Model

| member | source | states |
|---|---|---|
| `BoundedCache.OldestExists` | Challenge.playground/Contents.swift:64-76 | every non-empty store has a key whose write time is no later than any other, so the search for the oldest key always succeeds on a non-empty cache |
| `BoundedCache.Oldest` | Challenge.playground/Contents.swift:64-76 | the eviction victim is an oldest entry; when write times are distinct it is the only one |
| `BoundedCache.Pick` | Challenge.playground/Contents.swift:65-73 | one step of the fold returns the candidate or the new key, whichever was written earlier; on a tie the candidate met first is kept; with no candidate yet it takes the key |
| `BoundedCache.NewestIsNotOldest` | Challenge.playground/Contents.swift:40-45 | in a store of two or more entries, the key written after all others is not an oldest entry |
| `BoundedCache.SetThenGet` | Challenge.playground/Contents.swift:36-45 | after a write stamped later than every stored entry, the key is present and holds the value and time just written, even when the write triggered an eviction |
| `BoundedCache.SetKeepsCapacity` | Challenge.playground/Contents.swift:40-45 | a write keeps a store within a positive capacity; the count is unchanged on an overwrite or when a new key evicts another, and grows by one when a new key fits |
| `BoundedCache.UnboundedSetNeverEvicts` | Challenge.playground/Contents.swift:42 | with `maxSize` zero or negative a write only inserts or overwrites, and a new key grows the count by exactly one |
| `BoundedCache.OverwriteReplacesOnlyThatKey` | Challenge.playground/Contents.swift:41-42 | overwriting a present key of a store within capacity keeps the key set, replaces that key's value and time, and leaves every other entry unchanged |
| `BoundedCache.SetChangesOnlyThatKey` | Challenge.playground/Contents.swift:40-45 | a write adds no key other than the one written and leaves every other surviving entry unchanged |
| `BoundedCache.SetEvictsOnlyTheOldest` | Challenge.playground/Contents.swift:42-43 | a write drops at most one stored key, and a dropped key is an oldest entry of the store with the new entry in it |
| `BoundedCache.Cache.constructor` | Challenge.playground/Contents.swift:19-21 | a new cache is empty, keeps the given `maxSize` whatever its sign, and satisfies the invariant |
| `BoundedCache.Cache.Subscript` | Challenge.playground/Contents.swift:24-25 | reading through the subscript gives the same result as `Get` |
| `BoundedCache.Cache.SetSubscript` | Challenge.playground/Contents.swift:26-32 | assigning a value through the subscript has the effect of `Set`; assigning `None` has the effect of `Remove` |
| `BoundedCache.Cache.Get` | Challenge.playground/Contents.swift:36-38 | the result is present exactly when the key is stored, and is then its value; nothing changes |
| `BoundedCache.Cache.Set` | Challenge.playground/Contents.swift:40-45 | the new map is the old one with the entry written at the current tick, minus the oldest entry when a positive `maxSize` is exceeded; the clock advances and the invariant is kept |
| `BoundedCache.Cache.Remove` | Challenge.playground/Contents.swift:47-49 | the key is absent afterwards, every other entry is unchanged, and an absent key leaves the cache as it was |
| `BoundedCache.Cache.Clear` | Challenge.playground/Contents.swift:51-53 | the map is empty, so no key is contained; `maxSize` and the clock stay as they were |
| `BoundedCache.Cache.Contains` | Challenge.playground/Contents.swift:55-57 | true exactly when the key is stored |
| `BoundedCache.Cache.Count` | Challenge.playground/Contents.swift:59-61 | the number of stored keys |
| `BoundedCache.Cache.OldestKey` | Challenge.playground/Contents.swift:65-73 | the fold over the keys finds nothing exactly when the cache is empty, and otherwise a key whose write time is no later than any other |
| `BoundedCache.Cache.RemoveOldestItem` | Challenge.playground/Contents.swift:64-76 | on an empty cache nothing changes; otherwise exactly the oldest key is removed, the count drops by one, and all other entries are kept |
| `Playground.FirstThreeSongsFit` | Challenge.playground/Contents.swift:86-102 | the demo's first three writes into a cache of three evict nothing: each leaves every song written so far with its own write time |
| `Playground.FourthSongEvictsFirst` | Challenge.playground/Contents.swift:100-106 | with three songs stored at capacity three, writing a fourth evicts the one written first, keeps the other two and the new one, and leaves the count at three |
| `Playground.FillThree` | Challenge.playground/Contents.swift:86-102 | on a new cache of three, two writes, a read of the first song and a third write give the three songs at ticks 0-2; the read returns "linkpark.mp3" |
| `Playground.PlaylistDemo` | Challenge.playground/Contents.swift:86-110 | in the demo sequence, the song read after the second write is still evicted by the fourth write; the count stays 3; removing the last song by assigning `None` leaves it absent and the count at 2 |
| `Playground.NegativeCapacityDemo` | Challenge.playground/Contents.swift:19-21 | a cache built with `maxSize` -1 keeps all four distinct keys written to it |

## Left out

- `description` (Contents.swift lines 11-16) is left out. It only renders the values for display, and it joins them in the dictionary's unspecified order.
- The `print` calls, the `UIKit` import and the demo's console output are left out. They are I/O.
- Wall-clock time is replaced by a logical clock that strictly increases on every write. Real `Date()` values can repeat or go backwards. In that case two entries could share a write time and the key just written could tie with an older one. The model does not cover those cases.
- The order in which a Swift dictionary yields its keys is not modelled. `OldestKey` visits keys in an arbitrary order. Because write times are distinct, every order finds the same key.
- Swift's `Hashable` machinery is left out. Keys are any Dafny type with equality.
- The 64-bit width of Swift's `Int` is not modelled for `maxSize` or for the count. A dictionary cannot hold 2^63 entries, so the count cannot overflow.
- Concurrency is left out. The class has no synchronisation, and the model is sequential.
- `BoundedCache.Cache.RemoveOldestItem` deletes the chosen key from the map itself instead of calling `Remove`. `Remove` requires the full object invariant, and the capacity half of that invariant is broken halfway through `Set`. The effect is the same removal.
