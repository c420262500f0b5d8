# cachemap2 in Dafny

A model of the expiring key/value cache of the Go package `cachemap`
(repository 0studio/cachemap2), with proofs about it. Three source files make
up the core.

- **cache_object.go → `CacheObjects`.** A `CacheObject` holds a payload and
  the instant at which it expires. The payload is reported while `now` is
  strictly before that instant. An unset expiry (Go's zero `time.Time`) is
  never reported alive.
- **sort_list.go → `SortLists`.** A `SortList` is the ascending,
  duplicate-free list of keys that indexes the cache. `ListPush` and `ListPop`
  rebuild it in a fresh array. They use the hand-written binary search
  `listFind`. `RandCheckList` picks the ascending positions that a sweep
  visits.
- **uint64_cache_map.go → `CacheMaps`.**
  - `Uint64CacheMap` is a plain map from `uint64` keys to cache objects.
  - `Uint64SafeCacheMap` wraps such a map. It keeps the sorted key index in
    step with the map. It sends the payload of every evicted entry on its
    callback channel.
  - An entry is evicted on `Get` or `CheckKey` once it has expired, or by the
    sweep `process` that a timer goroutine triggers.
  - `runTimer` decides which ticks ask for a full sweep rather than a sample
    of `CHECK_COUNT` (16) positions.
- **cache_map_test.go → `Scenarios`.** The two tests with assertions are
  client methods of the model.

How the model represents the Go program:

- Instants are integers counting nanoseconds, and `now` is always a
  parameter.
- The callback channel is the sequence of payloads sent on it, oldest first.
- `rand.Perm(n)` is a parameter `perm` that must be a permutation of `[0, n)`.
- The key index is proved to stay ascending and to hold exactly the map's
  keys (`Valid`). Every operation of the safe map is stated exactly against
  the reference functions `Insert`, `Remove`, `RemoveAll` and `SweepAsWritten`.
- Locks, goroutines and the clock are not modelled. The model gives the
  sequential meaning of each operation.

Two behaviours of the code are worth stating plainly:

- `runTimer` treats an hour as past the cleaning hour only when it is
  strictly greater (`hour > cleanTime`, uint64_cache_map.go:206). With the
  cleaning hour `TOTAL_CLEAN_TIME = 3` ("3 a.m.", uint64_cache_map.go:11), the
  daily full sweep is therefore asked for at the first tick in hour 4 or
  later that follows a tick in hour 3 or earlier, never during hour 3 itself.
- `Delete` looks the key up with `Get` at the current time
  (uint64_cache_map.go:148), so it only removes an entry that is still alive.
  An entry that has already expired is left in place, and nothing is sent
  for it.

## Model

| member | source | states |
|---|---|---|
| CacheObjects.CacheObject.GetObject | cache_object.go:18-29 | the payload is returned exactly when the expiry is set and lies strictly after `now`, and it is the stored payload |
| CacheObjects.UninitedNeverAlive | cache_object.go:19-22 | an object whose expiry is Go's zero time is reported missing at every instant |
| CacheObjects.ExpiryBoundary | cache_object.go:23-28 | liveness ends exactly at the expiry instant: missing at it, present one nanosecond before |
| CacheObjects.GetIgnoresExpiry | cache_object.go:14-16 | `Get` returns the payload whatever the clock, and agrees with `GetObject` whenever that reports one |
| CacheObjects.CacheObject.UpdateObject | cache_object.go:31-34 | reports true, replaces the payload, keeps the expiry, so liveness at every instant is unchanged |
| CacheObjects.CacheObject.UpdateObjectWithExpireTime | cache_object.go:36-40 | reports true and leaves exactly the new payload and the new expiry |
| CacheObjects.CacheObject.UpdateObjectWithExpireTimeDur | cache_object.go:41-45 | reports true and leaves the same object `NewCacheObject` builds from the new payload, `now` and the duration |
| CacheObjects.NewCacheObject | cache_object.go:47-53 | keeps the payload, sets the expiry, is alive exactly before `now` plus the given seconds, so it is alive at creation iff the lifetime is positive |
| SortLists.SortList.Get | sort_list.go:63-67 | the key at an index inside the list; an index outside is the panic, reported as `None` |
| SortLists.CreateSortList | sort_list.go:40-45 | a new index is empty, and so trivially ascending, as the safe map's invariant needs at construction |
| SortLists.InsertKeepsIndex | sort_list.go:83-101 | inserting a key keeps the index ascending and duplicate-free and adds exactly that key to its key set |
| SortLists.InsertPresent | sort_list.go:91-94 | pushing a key already present leaves the index unchanged |
| SortLists.InsertAt | sort_list.go:95-99 | a new key is spliced in at its insertion point, with every key before smaller and every key after larger |
| SortLists.RemoveKeepsIndex | sort_list.go:103-126 | removing a key keeps the index ascending and takes exactly that key out of its key set |
| SortLists.RemoveAbsent | sort_list.go:117-120 | popping an absent key leaves the index unchanged |
| SortLists.RemoveAt | sort_list.go:121-124 | popping the key at position p cuts out position p and keeps the rest in order |
| SortLists.RemoveInsert | sort_list.go:83-126 | round trip: popping a freshly pushed key restores the original index |
| SortLists.InsertRemove | sort_list.go:83-126 | round trip: pushing back a popped key restores the original index |
| SortLists.RemoveAllKeepsIndex | sort_list.go:128-133 | popping a list of ids keeps the index ascending and takes out exactly those ids |
| SortLists.AscendingDeterminedByElems | sort_list.go:35-38 | an ascending duplicate-free key list is determined by its set of keys |
| SortLists.Half | sort_list.go:148 | Go's truncating halving: for a non-negative sum the floor of half, for a negative sum the ceiling |
| SortLists.ListFind | sort_list.go:145-164 | on a non-empty list the position stays within `[0, len]` and a reported match is real; on an ascending list the key is found iff present, and otherwise the position is its insertion point |
| SortLists.CopyInto | sort_list.go:96-98 | Go's `copy`: copies the shorter of the room left and the source, reports that count, and leaves the rest of the destination unchanged |
| SortLists.SplicedIn | sort_list.go:95-98 | the fresh array one longer than the list holds the keys before the position, then the new key, then the rest, in order |
| SortLists.SplicedOut | sort_list.go:121-123 | the fresh array one shorter than the list holds the keys before the position and then those after it, in order |
| SortLists.ListPush | sort_list.go:83-101 | the array-built result equals the reference insertion, stays ascending and holds the old keys plus the new one |
| SortLists.ListPop | sort_list.go:103-126 | the array-built result equals the reference removal, stays ascending and holds the old keys minus the popped one |
| SortLists.ListPops | sort_list.go:128-133 | popping each id in turn gives the reference fold, ascending, with exactly the ids removed |
| SortLists.SortedPositions | sort_list.go:141 | sorting a set of chosen positions gives them in strictly ascending order, with exactly the chosen positions below the length |
| SortLists.SortedPositionsAll | sort_list.go:141 | when every position is chosen, the sorted positions are `0, 1, …, n-1` |
| SortLists.RandCheckList | sort_list.go:135-143 | ascending distinct positions inside `[0, length)`; every position when the sweep is full or the list is short, otherwise exactly the first `checkCnt` of the permutation |
| CacheMaps.Uint64CacheMap.constructor | uint64_cache_map.go:18 | a new map has no entries |
| CacheMaps.Uint64CacheMap.Put | uint64_cache_map.go:20-22 | sets the entry for the key and leaves every other entry as it was |
| CacheMaps.Uint64CacheMap.Get | uint64_cache_map.go:24-32 | the payload exactly when the key is present and its entry is alive at `now` |
| CacheMaps.Uint64CacheMap.Expired | uint64_cache_map.go:34-44 | the payload exactly when the key is present and its entry is not alive at `now` |
| CacheMaps.GetExpiredPartition | uint64_cache_map.go:24-44 | a present key is reported by exactly one of `Get` and `Expired`, and an absent key by neither |
| CacheMaps.Uint64CacheMap.Delete | uint64_cache_map.go:46-49 | reports true and removes the key's entry, if any, and nothing else |
| CacheMaps.IndexSize | uint64_cache_map.go:157-159 | when the index mirrors the map, the map has as many entries as the index has keys |
| CacheMaps.IndexIsCanonical | uint64_cache_map.go:71-79 | two indexes that mirror maps with the same keys are identical, so the index is a function of the key set |
| CacheMaps.SweepAsWritten | uint64_cache_map.go:174-182 | the index left by the as-written sweep is ascending and holds the old keys minus the evicted ones, and every evicted key was in the index and expired, each once |
| CacheMaps.FullSweepSkipsExpiredKey | uint64_cache_map.go:174-182 | a full sweep of the index `[1, 2]` with both entries expired evicts key 1 only and leaves expired key 2 in place |
| CacheMaps.SweepStep | uint64_cache_map.go:178-181 | one position of the sweep: an expired key there is evicted, and the sweep goes on over the shrunken index |
| CacheMaps.EvictOneMore | uint64_cache_map.go:184-191 | evicting one more key removes it from the map and appends its payload to the payloads sent |
| CacheMaps.SampledKeys | uint64_cache_map.go:177-179 | the keys at the sampled positions, read before any eviction; in index order, and all of them in the index |
| CacheMaps.SelectExpired | uint64_cache_map.go:185-186 | the sampled keys that are expired, in order: exactly the sampled keys in the expired set |
| CacheMaps.FullSnapshotLeavesLive | uint64_cache_map.go:174-182 | after the intended full sweep exactly the expired keys are gone and every remaining entry is alive |
| CacheMaps.Uint64SafeCacheMap.constructor | uint64_cache_map.go:82-109 | a new safe map is empty, its index is empty, nothing has been sent, and the index invariant holds |
| CacheMaps.Uint64SafeCacheMap.Put | uint64_cache_map.go:130-135 | sets the entry, inserts the key into the index and keeps the index mirroring the map; nothing is sent |
| CacheMaps.Uint64SafeCacheMap.CheckKeyLocked | uint64_cache_map.go:184-191 | an expired entry leaves the map and the index and its payload is sent once; otherwise nothing changes |
| CacheMaps.Uint64SafeCacheMap.CheckKey | uint64_cache_map.go:168-172 | the same effect as `checkKey`, under the key's lock |
| CacheMaps.Uint64SafeCacheMap.Get | uint64_cache_map.go:137-143 | the payload exactly when the entry is present and alive; an expired entry is evicted and its payload sent; the index invariant is kept |
| CacheMaps.Uint64SafeCacheMap.Delete | uint64_cache_map.go:145-155 | reports true; an entry alive at `now` leaves map and index and its payload is sent; an absent or expired key changes nothing |
| CacheMaps.Uint64SafeCacheMap.Size | uint64_cache_map.go:157-159 | the number of entries equals the length of the key index |
| CacheMaps.Uint64SafeCacheMap.Process | uint64_cache_map.go:174-182 | the sweep as written: index, map and channel end exactly as `SweepAsWritten` over the sampled positions says, and the index invariant is kept |
| CacheMaps.Uint64SafeCacheMap.ProcessSnapshot | uint64_cache_map.go:174-182 | the intended sweep: every sampled key that is expired is evicted and its payload sent, in index order; after a full sweep only live entries remain |
| CacheMaps.ShardIndex | uint64_cache_map.go:111-124 | the lock index of a key is always a valid index into the lock list, and keys below the lock count get their own lock |
| CacheMaps.TimerStep | uint64_cache_map.go:206-214 | after a tick, `isSweep` records whether the hour is past the cleaning hour; a full sweep is asked for exactly when it is past and the previous tick was not |
| CacheMaps.RunTimer | uint64_cache_map.go:202-217 | over a run of ticks, a full sweep is asked for at exactly the ticks where the hour has just climbed past the cleaning hour |
| CacheMaps.FirstTickNotFull | uint64_cache_map.go:203 | the first tick never asks for a full sweep |
| CacheMaps.FullSweepsSeparated | uint64_cache_map.go:202-217 | between two ticks that ask for a full sweep there is a tick at or before the cleaning hour, so one full sweep is asked for per day |
| Scenarios.CacheMapScenario | cache_map_test.go:10-25 | an entry with a one-second lifetime is found at once, is missing after 1.001 s, and an absent key is missing |
| Scenarios.SafeMapWithOneEntry | cache_map_test.go:28-37 | a new safe map given one entry counts it in the map and the index, finds it at once, and has sent nothing |
| Scenarios.SafeCacheMapScenario | cache_map_test.go:27-46 | one entry is counted by the map and the index and found at once; after 1.001 s a sweep evicts it, sends its payload once, and both counts are zero |

## Left out

- Locks and goroutines are not modelled: the per-key shard locks, the index's
  reader/writer lock, the callback goroutines (`runCallback`) and the sweeper
  goroutine. Each operation is modelled by its sequential effect.
- Channel capacity (`CALLBACK_CHANNEL` = 18) is not modelled. Blocking on a
  full channel is a matter of concurrency. The channel is the unbounded
  sequence of payloads sent.
- The clock is not modelled. `time.Now`, `time.Sleep` and `Hour()` become
  parameters: `now` in nanoseconds, and the hours observed at the timer ticks.
- `saveFunc` and the user callback are not modelled. They run foreign code
  and swallow its panics.
- `SaveAll` is not modelled. It only hands every payload to that callback, in
  Go's random map order.
- `TOTAL_CLEAN_TIME` is not modelled; no code in the core reads it.
- `rand.Perm` is a parameter constrained to be a permutation.
- `IntSlice.Sort` is not part of this model. Its result, the chosen positions
  in ascending order, is given by `SortedPositions`.
- The empty `Callback` struct is not modelled; it has no behaviour.
- `DropCallback` is not part of this model. `TestSafeMap` calls it and asserts
  nothing, so it has no scenario.
- The tests call `NewUint64SafeCacheMap` with four arguments in all
  (cache_map_test.go:28 and 49), while the constructor has five parameters
  (uint64_cache_map.go:82). The scenarios use an explicit lock count.
- CacheMaps.Uint64SafeCacheMap.constructor: requires at least one lock. The
  source accepts zero, and then panics on the first `lock` (a remainder by
  zero). Only the lock count is kept. The interval, the callback, the callback
  goroutine count and the cleaning hour only drive goroutines; the cleaning
  hour is the `cleanTime` parameter of `RunTimer`.
- CacheObjects.CacheObject.UpdateObject: Go updates the object through a pointer. The maps
  hold cache objects by value, so this is a function that returns the updated object.
- CacheObjects.CacheObject.UpdateObjectWithExpireTime: returns the updated object, for the
  same reason.
- CacheObjects.CacheObject.UpdateObjectWithExpireTimeDur: returns the updated object, for
  the same reason.
- CacheObjects.NewCacheObject: `time.Duration` is a 64-bit nanosecond count,
  and its overflow for lifetimes beyond about 292 years is not modelled.
  Neither is the case where `now.Add` lands exactly on Go's zero time. Expiry
  instants are unbounded integers.
- CacheObjects.CacheObject.Get, SortLists.SortList.Len, SortLists.SortList.ListCopy and the
  `List` accessors `Len`, `Equal` and `Less` are plain projections. They have
  no contract beyond their definition.
- SortLists.ListFind: requires a non-empty list. In Go, `listFind` on an
  empty list indexes position 0 and panics. Its callers `ListPush` and
  `ListPop` never call it with an empty list.
- SortLists.ListPush: modelled on ascending lists only. These are the only lists the index
  ever holds, as the invariant `Valid` of the safe map shows.
- SortLists.ListPop: modelled on ascending lists only, for the same reason.
- SortLists.ListPops: modelled on ascending lists only, for the same reason.
- CacheMaps.Uint64SafeCacheMap.Process: the `recover` at the end of a sweep is modelled
  as the sweep stopping at the first position past the end of the shrunken
  index. Panics from elsewhere are not modelled.
- CacheMaps.ShardIndex: states that the lock index is in range. It does not
  state that keys a multiple of the lock count apart share a lock.

## Findings

| source | as written | input that shows it | evidently intended | confidence | as-written member | corrected member |
|---|---|---|---|---|---|---|
| uint64_cache_map.go:174-182 | `process` visits the sampled positions in ascending order, but each eviction shrinks the index under it. The key after an evicted one slides into the position just visited and is skipped. Positions past the new end panic, and the `recover` ends the sweep. | A full sweep (`isTotal`) of the index `[1, 2]` at an instant where both entries have expired. Positions are `[0, 1]`. Key 1 is evicted, then position 1 is past the end of `[2]`, so expired key 2 stays. | A full sweep checks every key, leaving only live entries. | not executed; high | CacheMaps.Uint64SafeCacheMap.Process, CacheMaps.FullSweepSkipsExpiredKey | CacheMaps.Uint64SafeCacheMap.ProcessSnapshot |
