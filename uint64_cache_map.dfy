/**
 * The cache engine (uint64_cache_map.go), in its sequential semantics: the plain
 * map `Uint64CacheMap`, the safe map `Uint64SafeCacheMap` that keeps the sorted
 * key index in step with the map and emits evicted payloads on its callback
 * channel, the sweep `process`, the shard index and the tick classifier of
 * `runTimer`. Locks and goroutines are not modelled; the channel is the sequence
 * of payloads sent on it.
 */
module CacheMaps {
  import opened Common
  import opened CacheObjects
  import SortLists

  /** `CHECK_COUNT`: positions a sample sweep visits. */
  const CheckCount: nat := 16

  // ---------------------------------------------------------------------------
  // The plain map.

  /** `Uint64CacheMap`: a Go map from keys to cache objects, updated in place. */
  class Uint64CacheMap<T> {
    var entries: map<uint64, CacheObject<T>>

    constructor ()
      ensures entries == map[]
    {
      entries := map[];
    }

    /** `Put`: sets the entry for `key`; the other entries stay as they were. */
    method Put(key: uint64, obj: CacheObject<T>)
      modifies this
      ensures entries == old(entries)[key := obj]
    {
      entries := entries[key := obj];
    }

    /** `Get`: the payload of a present entry that is alive at `now`. */
    function Get(key: uint64, now: int): (r: Option<T>)
      reads this
      ensures r.Some? <==> key in entries && entries[key].IsAlive(now)
      ensures r.Some? ==> r.value == entries[key].obj
    {
      if key !in entries then None else entries[key].GetObject(now)
    }

    /** `Expired`: the payload of a present entry that is not alive at `now`. */
    function Expired(key: uint64, now: int): (r: Option<T>)
      reads this
      ensures r.Some? <==> IsExpiredIn(entries, key, now)
      ensures r.Some? ==> r.value == entries[key].obj
    {
      if key !in entries then None
      else if entries[key].GetObject(now).None? then Some(entries[key].Get())
      else None
    }

    /** `Delete`: drops the entry for `key`, if any, and reports true. */
    method Delete(key: uint64) returns (ok: bool)
      modifies this
      ensures ok
      ensures entries == old(entries) - {key}
    {
      entries := entries - {key};
      ok := true;
    }
  }

  /** `key` is present and its entry is no longer alive at `now`. */
  ghost predicate IsExpiredIn<T>(entries: map<uint64, CacheObject<T>>, key: uint64, now: int)
  {
    key in entries && !entries[key].IsAlive(now)
  }

  /** Every key lands in exactly one of `Get` and `Expired` if present, and in neither if absent. */
  lemma GetExpiredPartition<T>(c: Uint64CacheMap<T>, key: uint64, now: int)
    ensures c.Get(key, now).Some? || c.Expired(key, now).Some? <==> key in c.entries
    ensures !(c.Get(key, now).Some? && c.Expired(key, now).Some?)
  {
  }

  // ---------------------------------------------------------------------------
  // The key index and the sweep, as functions of the state.

  /** The central invariant: the index is ascending, duplicate-free and holds exactly the map's keys. */
  ghost predicate IndexMirrors<T>(list: seq<uint64>, entries: map<uint64, CacheObject<T>>)
  {
    StrictlyAscending(list) && Elems(list) == entries.Keys
  }

  /** The index has one position per entry. */
  lemma IndexSize<T>(list: seq<uint64>, entries: map<uint64, CacheObject<T>>)
    ensures IndexMirrors(list, entries) ==> |entries| == |list|
  {
    if IndexMirrors(list, entries) {
      AscendingNoDup(list);
      DistinctCard(list);
      assert |entries| == |entries.Keys|;
    }
  }

  /** Two maps with the same keys have the same index: the index is determined by the key set. */
  lemma IndexIsCanonical<T>(a: seq<uint64>, b: seq<uint64>, entries: map<uint64, CacheObject<T>>, others: map<uint64, CacheObject<T>>)
    requires IndexMirrors(a, entries) && IndexMirrors(b, others)
    requires entries.Keys == others.Keys
    ensures a == b
  {
    SortLists.AscendingDeterminedByElems(a, b);
  }

  /** The keys whose entries are expired at `now`. */
  ghost function ExpiredKeys<T>(entries: map<uint64, CacheObject<T>>, now: int): set<uint64>
  {
    set k | k in entries && !entries[k].IsAlive(now)
  }

  /** The payloads of `keys`, in order: what the callback channel receives when they are evicted. */
  ghost function Payloads<T>(entries: map<uint64, CacheObject<T>>, keys: seq<uint64>): seq<T>
    requires forall k :: k in keys ==> k in entries
  {
    seq(|keys|, i requires 0 <= i < |keys| => entries[keys[i]].obj)
  }

  /**
   * The sweep of `process` as written: it visits `positions` in order, reading
   * the key at each position of the CURRENT index, which shrinks whenever a key
   * is evicted; a position past the end panics, and the recover ends the sweep.
   * Returns the final index and the evicted keys in eviction order.
   */
  function SweepAsWritten(list: seq<uint64>, positions: seq<int>, expired: set<uint64>): (r: (seq<uint64>, seq<uint64>))
    requires StrictlyAscending(list)
    ensures StrictlyAscending(r.0)
    ensures Elems(r.0) == Elems(list) - Elems(r.1)
    ensures forall k :: k in r.1 ==> k in list && k in expired
    ensures NoDup(r.1)
    decreases |positions|
  {
    if positions == [] then (list, [])
    else if !(0 <= positions[0] < |list|) then (list, [])
    else
      var k := list[positions[0]];
      if k in expired then
        SortLists.RemoveKeepsIndex(list, k);
        var rest := SweepAsWritten(SortLists.Remove(list, k), positions[1..], expired);
        assert forall x :: x in rest.1 ==> x in Elems(SortLists.Remove(list, k));
        assert Elems([k] + rest.1) == {k} + Elems(rest.1);
        (rest.0, [k] + rest.1)
      else
        SweepAsWritten(list, positions[1..], expired)
  }

  /** A full sweep of `[1, 2]` with both keys expired evicts 1 and then stops: 2 stays behind. */
  lemma FullSweepSkipsExpiredKey()
    ensures SortLists.RandCheckList(2, CheckCount, true, [1, 0]) == [0, 1]
    ensures SweepAsWritten([1, 2], [0, 1], {1, 2}).0 == [2]
    ensures SweepAsWritten([1, 2], [0, 1], {1, 2}).1 == [1]
  {
    var r := SortLists.RandCheckList(2, CheckCount, true, [1, 0]);
    assert |r| == 2 && r[0] == 0 && r[1] == 1;
    assert SortLists.Remove([1, 2], 1) == [2];
    assert [0, 1][1..] == [1];
    assert SweepAsWritten([2], [1], {1, 2}) == ([2], []);
  }

  /** One position of the sweep: the key there is evicted if expired, and the sweep goes on from the next position. */
  lemma SweepStep(list: seq<uint64>, positions: seq<int>, expired: set<uint64>)
    requires StrictlyAscending(list)
    requires positions != [] && 0 <= positions[0] < |list|
    ensures StrictlyAscending(SortLists.Remove(list, list[positions[0]]))
    ensures list[positions[0]] in expired ==>
      var rest := SweepAsWritten(SortLists.Remove(list, list[positions[0]]), positions[1..], expired);
      SweepAsWritten(list, positions, expired) == (rest.0, [list[positions[0]]] + rest.1)
    ensures list[positions[0]] !in expired ==>
      SweepAsWritten(list, positions, expired) == SweepAsWritten(list, positions[1..], expired)
  {
    SortLists.RemoveKeepsIndex(list, list[positions[0]]);
  }

  /** Evicting one more key: the map loses it and the channel gains its payload. */
  lemma EvictOneMore<T>(entries: map<uint64, CacheObject<T>>, removed: seq<uint64>, k: uint64)
    requires forall x :: x in removed ==> x in entries
    requires k in entries
    ensures forall x :: x in removed + [k] ==> x in entries
    ensures (entries - Elems(removed)) - {k} == entries - Elems(removed + [k])
    ensures Payloads(entries, removed + [k]) == Payloads(entries, removed) + [entries[k].obj]
  {
    assert Elems(removed + [k]) == Elems(removed) + {k};
  }

  /** The keys at `positions` of `list`. */
  function SampledKeys(list: seq<uint64>, positions: seq<int>): (keys: seq<uint64>)
    requires forall j :: 0 <= j < |positions| ==> 0 <= positions[j] < |list|
    ensures |keys| == |positions|
    ensures forall j :: 0 <= j < |keys| ==> keys[j] == list[positions[j]]
    ensures Elems(keys) <= Elems(list)
    ensures StrictlyAscending(list) && StrictlyAscending(positions) ==> StrictlyAscending(keys)
  {
    var keys := seq(|positions|, j requires 0 <= j < |positions| => list[positions[j]]);
    assert forall k :: k in keys ==> k in list;
    keys
  }

  /** The keys of `keys` that are in `expired`, in order. */
  function SelectExpired(keys: seq<uint64>, expired: set<uint64>): (r: seq<uint64>)
    ensures Elems(r) == Elems(keys) * expired
    ensures forall k :: k in r ==> k in keys && k in expired
  {
    if keys == [] then []
    else
      var init, last := keys[..|keys| - 1], keys[|keys| - 1];
      assert keys == init + [last];
      var r := SelectExpired(init, expired);
      assert Elems(keys) == Elems(init) + {last};
      if last in expired then
        assert Elems(r + [last]) == Elems(r) + {last};
        r + [last]
      else r
  }

  /**
   * What a sweep has done so far: `removed` have been evicted from `entries0`
   * (whose payloads follow `chan0` in order), the index is `list`, and the sweep
   * still to run over `positions` completes `total`.
   */
  ghost predicate SweepSoFar<T>(list: seq<uint64>, entries: map<uint64, CacheObject<T>>, chan: seq<T>,
                                entries0: map<uint64, CacheObject<T>>, chan0: seq<T>,
                                positions: seq<int>, expired: set<uint64>,
                                total: (seq<uint64>, seq<uint64>), removed: seq<uint64>)
  {
    && IndexMirrors(list, entries)
    && (forall k :: k in removed ==> k in entries0)
    && SweepAsWritten(list, positions, expired).0 == total.0
    && removed + SweepAsWritten(list, positions, expired).1 == total.1
    && entries == entries0 - Elems(removed)
    && chan == chan0 + Payloads(entries0, removed)
  }

  /**
   * The effect of `checkKey(key)` at `now`, from (`list`, `entries`, `chan`) to
   * (`list'`, `entries'`, `chan'`).
   */
  ghost predicate CheckKeyEffect<T>(key: uint64, now: int,
                                    list: seq<uint64>, entries: map<uint64, CacheObject<T>>, chan: seq<T>,
                                    list': seq<uint64>, entries': map<uint64, CacheObject<T>>, chan': seq<T>)
  {
    if IsExpiredIn(entries, key, now) then
      entries' == entries - {key} && list' == SortLists.Remove(list, key) && chan' == chan + [entries[key].obj]
    else
      entries' == entries && list' == list && chan' == chan
  }

  /** Checking the key at the next position advances the sweep by one position. */
  lemma SweepSoFarStep<T>(list: seq<uint64>, entries: map<uint64, CacheObject<T>>, chan: seq<T>,
                          entries0: map<uint64, CacheObject<T>>, chan0: seq<T>,
                          positions: seq<int>, now: int,
                          total: (seq<uint64>, seq<uint64>), removed: seq<uint64>,
                          list': seq<uint64>, entries': map<uint64, CacheObject<T>>, chan': seq<T>)
    requires SweepSoFar(list, entries, chan, entries0, chan0, positions, ExpiredKeys(entries0, now), total, removed)
    requires positions != [] && 0 <= positions[0] < |list|
    requires CheckKeyEffect(list[positions[0]], now, list, entries, chan, list', entries', chan')
    ensures
      var k := list[positions[0]];
      SweepSoFar(list', entries', chan', entries0, chan0, positions[1..], ExpiredKeys(entries0, now), total,
                 if k in ExpiredKeys(entries0, now) then removed + [k] else removed)
  {
    var k := list[positions[0]];
    var expired := ExpiredKeys(entries0, now);
    assert k in Elems(list);
    assert k in entries && entries[k] == entries0[k];
    SweepStep(list, positions, expired);
    if k in expired {
      EvictOneMore(entries0, removed, k);
      SortLists.RemoveKeepsIndex(list, k);
    }
  }

  /** A sweep that has no position left, or whose next position is past the end, is complete. */
  lemma SweepSoFarDone<T>(list: seq<uint64>, entries: map<uint64, CacheObject<T>>, chan: seq<T>,
                          entries0: map<uint64, CacheObject<T>>, chan0: seq<T>,
                          positions: seq<int>, expired: set<uint64>,
                          total: (seq<uint64>, seq<uint64>), removed: seq<uint64>)
    requires SweepSoFar(list, entries, chan, entries0, chan0, positions, expired, total, removed)
    requires positions == [] || !(0 <= positions[0] < |list|)
    ensures list == total.0 && removed == total.1
    ensures entries == entries0 - Elems(total.1)
    ensures chan == chan0 + Payloads(entries0, total.1)
  {
  }

  /**
   * What the snapshot sweep has done after the first `i` sampled keys: the
   * expired ones among them have been evicted from `entries0` and `list0`, in order.
   */
  ghost predicate SnapshotSoFar<T>(list: seq<uint64>, entries: map<uint64, CacheObject<T>>, chan: seq<T>,
                                   list0: seq<uint64>, entries0: map<uint64, CacheObject<T>>, chan0: seq<T>,
                                   keys: seq<uint64>, i: nat, expired: set<uint64>, removed: seq<uint64>)
  {
    && i <= |keys|
    && IndexMirrors(list, entries)
    && removed == SelectExpired(keys[..i], expired)
    && list == SortLists.RemoveAll(list0, removed)
    && (forall k :: k in removed ==> k in entries0)
    && entries == entries0 - Elems(removed)
    && chan == chan0 + Payloads(entries0, removed)
  }

  /** The next sampled key is present, and has not been evicted yet. */
  lemma SnapshotNextPresent<T>(list: seq<uint64>, entries: map<uint64, CacheObject<T>>, chan: seq<T>,
                               list0: seq<uint64>, entries0: map<uint64, CacheObject<T>>, chan0: seq<T>,
                               keys: seq<uint64>, i: nat, expired: set<uint64>, removed: seq<uint64>)
    requires SnapshotSoFar(list, entries, chan, list0, entries0, chan0, keys, i, expired, removed)
    requires i < |keys| && StrictlyAscending(keys) && Elems(keys) <= entries0.Keys
    ensures keys[i] in entries && entries[keys[i]] == entries0[keys[i]]
    ensures keys[..i + 1] == keys[..i] + [keys[i]]
  {
    var k := keys[i];
    assert k !in keys[..i];
    assert k in Elems(keys);
    assert k !in Elems(removed);
  }

  /** Checking the next sampled key advances the snapshot sweep by one key. */
  lemma SnapshotSoFarStep<T>(list: seq<uint64>, entries: map<uint64, CacheObject<T>>, chan: seq<T>,
                             list0: seq<uint64>, entries0: map<uint64, CacheObject<T>>, chan0: seq<T>,
                             keys: seq<uint64>, i: nat, now: int, removed: seq<uint64>,
                             list': seq<uint64>, entries': map<uint64, CacheObject<T>>, chan': seq<T>)
    requires SnapshotSoFar(list, entries, chan, list0, entries0, chan0, keys, i, ExpiredKeys(entries0, now), removed)
    requires i < |keys| && StrictlyAscending(keys) && Elems(keys) <= entries0.Keys
    requires CheckKeyEffect(keys[i], now, list, entries, chan, list', entries', chan')
    ensures SnapshotSoFar(list', entries', chan', list0, entries0, chan0, keys, i + 1, ExpiredKeys(entries0, now),
                          if keys[i] in ExpiredKeys(entries0, now) then removed + [keys[i]] else removed)
  {
    var k := keys[i];
    SnapshotNextPresent(list, entries, chan, list0, entries0, chan0, keys, i, ExpiredKeys(entries0, now), removed);
    if k in ExpiredKeys(entries0, now) {
      EvictOneMore(entries0, removed, k);
      SortLists.RemoveKeepsIndex(list, k);
    }
  }

  /** A finished snapshot sweep has evicted exactly the expired sampled keys; a full one leaves only live entries. */
  lemma SnapshotSoFarDone<T>(list: seq<uint64>, entries: map<uint64, CacheObject<T>>, chan: seq<T>,
                             list0: seq<uint64>, entries0: map<uint64, CacheObject<T>>, chan0: seq<T>,
                             keys: seq<uint64>, now: int, removed: seq<uint64>)
    requires SnapshotSoFar(list, entries, chan, list0, entries0, chan0, keys, |keys|, ExpiredKeys(entries0, now), removed)
    ensures removed == SelectExpired(keys, ExpiredKeys(entries0, now))
    ensures list == SortLists.RemoveAll(list0, removed)
    ensures entries == entries0 - Elems(removed)
    ensures chan == chan0 + Payloads(entries0, removed)
    ensures keys == list0 && Elems(list0) == entries0.Keys ==>
      && entries.Keys == entries0.Keys - ExpiredKeys(entries0, now)
      && forall k :: k in entries ==> entries[k].IsAlive(now)
  {
    assert keys[..|keys|] == keys;
    if keys == list0 && Elems(list0) == entries0.Keys {
      FullSnapshotLeavesLive(entries0, list0, now);
    }
  }

  /** After a full snapshot sweep exactly the expired keys are gone, and every remaining entry is alive. */
  lemma FullSnapshotLeavesLive<T>(entries0: map<uint64, CacheObject<T>>, list0: seq<uint64>, now: int)
    requires Elems(list0) == entries0.Keys
    ensures
      var rest := entries0 - Elems(SelectExpired(list0, ExpiredKeys(entries0, now)));
      && rest.Keys == entries0.Keys - ExpiredKeys(entries0, now)
      && forall k :: k in rest ==> rest[k].IsAlive(now)
  {
  }

  // ---------------------------------------------------------------------------
  // The safe map.

  /**
   * `Uint64SafeCacheMap`: the map, its key index and the payloads sent on the
   * callback channel (oldest first). `mutexCnt` is the length of `mutexList`,
   * the number of shard locks; the cleaning hour goes only to `runTimer`
   * (`RunTimer` below), so the map does not keep it.
   */
  class Uint64SafeCacheMap<T> {
    const m: Uint64CacheMap<T>
    var keyList: SortLists.SortList
    var callbackChan: seq<T>
    const mutexCnt: nat

    ghost predicate Valid()
      reads this, m
    {
      mutexCnt > 0 && IndexMirrors(keyList.list, m.entries)
    }

    /** `NewUint64SafeCacheMap`: an empty map, an empty index and nothing sent. */
    constructor (mutexCnt: nat)
      requires mutexCnt > 0
      ensures Valid() && fresh(m)
      ensures m.entries == map[] && keyList.list == [] && callbackChan == []
      ensures this.mutexCnt == mutexCnt
    {
      m := new Uint64CacheMap();
      keyList := SortLists.CreateSortList();
      callbackChan := [];
      this.mutexCnt := mutexCnt;
    }

    /** `Put`: sets the entry and inserts the key into the index. */
    method Put(key: uint64, obj: CacheObject<T>)
      requires Valid()
      modifies this, m
      ensures Valid()
      ensures m.entries == old(m.entries)[key := obj]
      ensures keyList.list == SortLists.Insert(old(keyList.list), key)
      ensures callbackChan == old(callbackChan)
    {
      m.Put(key, obj);
      keyList := SortLists.ListPush(keyList, key);
    }

    /**
     * `checkKey`: an entry expired at `now` leaves the map and the index, and its
     * payload is sent once; anything else changes nothing.
     */
    method CheckKeyLocked(key: uint64, now: int)
      requires Valid()
      modifies this, m
      ensures Valid()
      ensures IsExpiredIn(old(m.entries), key, now) ==>
        && m.entries == old(m.entries) - {key}
        && keyList.list == SortLists.Remove(old(keyList.list), key)
        && callbackChan == old(callbackChan) + [old(m.entries)[key].obj]
      ensures !IsExpiredIn(old(m.entries), key, now) ==>
        m.entries == old(m.entries) && keyList == old(keyList) && callbackChan == old(callbackChan)
    {
      var ret := m.Expired(key, now);
      if ret.Some? {
        var _ := m.Delete(key);
        keyList := SortLists.ListPop(keyList, key);
        callbackChan := callbackChan + [ret.value];
      }
    }

    /** `CheckKey`: `checkKey` under the key's shard lock, with the same effect. */
    method CheckKey(key: uint64, now: int)
      requires Valid()
      modifies this, m
      ensures Valid()
      ensures CheckKeyEffect(key, now, old(keyList.list), old(m.entries), old(callbackChan),
                             keyList.list, m.entries, callbackChan)
    {
      CheckKeyLocked(key, now);
    }

    /**
     * `Get`: a live entry's payload, with nothing changed; an expired entry is
     * evicted (removed from map and index, payload sent once) and reported
     * missing; an absent key is reported missing.
     */
    method Get(key: uint64, now: int) returns (r: Option<T>)
      requires Valid()
      modifies this, m
      ensures Valid()
      ensures r.Some? <==> key in old(m.entries) && old(m.entries)[key].IsAlive(now)
      ensures r.Some? ==> r.value == old(m.entries)[key].obj
      ensures IsExpiredIn(old(m.entries), key, now) ==>
        && m.entries == old(m.entries) - {key}
        && keyList.list == SortLists.Remove(old(keyList.list), key)
        && callbackChan == old(callbackChan) + [old(m.entries)[key].obj]
      ensures !IsExpiredIn(old(m.entries), key, now) ==>
        m.entries == old(m.entries) && keyList == old(keyList) && callbackChan == old(callbackChan)
    {
      CheckKeyLocked(key, now);
      r := m.Get(key, now);
    }

    /**
     * `Delete(key)` at the instant `now`: always true; an entry alive at `now`
     * leaves the map and the index and its payload is sent once; an absent or
     * already expired key changes nothing.
     */
    method Delete(key: uint64, now: int) returns (ok: bool)
      requires Valid()
      modifies this, m
      ensures Valid()
      ensures ok
      ensures key in old(m.entries) && old(m.entries)[key].IsAlive(now) ==>
        && m.entries == old(m.entries) - {key}
        && keyList.list == SortLists.Remove(old(keyList.list), key)
        && callbackChan == old(callbackChan) + [old(m.entries)[key].obj]
      ensures !(key in old(m.entries) && old(m.entries)[key].IsAlive(now)) ==>
        m.entries == old(m.entries) && keyList == old(keyList) && callbackChan == old(callbackChan)
    {
      var ret := m.Get(key, now);
      if ret.Some? {
        var _ := m.Delete(key);
        keyList := SortLists.ListPop(keyList, key);
        callbackChan := callbackChan + [ret.value];
      }
      return true;
    }

    /** `Size`: the number of entries, which is the length of the index. */
    function Size(): (n: nat)
      reads this, m
      ensures Valid() ==> n == keyList.Len()
    {
      IndexSize(keyList.list, m.entries);
      |m.entries|
    }

    /**
     * `process(isTotal)` as written, at the instant `now` and with `rand.Perm`
     * passed in as `perm`: the index and the map end as `SweepAsWritten` says,
     * every evicted key was expired, and the evicted payloads are sent in order.
     */
    method Process(isTotal: bool, now: int, perm: seq<int>)
      requires Valid()
      requires SortLists.IsPermutation(perm, |keyList.list|)
      modifies this, m
      ensures Valid()
      ensures
        var swept := SweepAsWritten(old(keyList.list),
          SortLists.RandCheckList(|old(keyList.list)|, CheckCount, isTotal, perm),
          ExpiredKeys(old(m.entries), now));
        && keyList.list == swept.0
        && m.entries == old(m.entries) - Elems(swept.1)
        && callbackChan == old(callbackChan) + Payloads(old(m.entries), swept.1)
    {
      var randList := SortLists.RandCheckList(keyList.Len(), CheckCount, isTotal, perm);
      ghost var expired := ExpiredKeys(m.entries, now);
      ghost var total := SweepAsWritten(keyList.list, randList, expired);
      ghost var removed: seq<uint64> := [];
      var i := 0;
      while i < |randList|
        invariant 0 <= i <= |randList| && mutexCnt > 0
        invariant SweepSoFar(keyList.list, m.entries, callbackChan, old(m.entries), old(callbackChan),
                             randList[i..], expired, total, removed)
      {
        var index := randList[i];
        var ckId := keyList.Get(index);
        if ckId.None? {
          // The index panics past the end of the shrunken list; `recover` ends the sweep.
          break;
        }
        ghost var (list, entries, chan) := (keyList.list, m.entries, callbackChan);
        CheckKey(ckId.value, now);
        SweepSoFarStep(list, entries, chan, old(m.entries), old(callbackChan), randList[i..], now,
                       total, removed, keyList.list, m.entries, callbackChan);
        assert randList[i..][1..] == randList[i + 1..];
        if ckId.value in expired {
          removed := removed + [ckId.value];
        }
        i := i + 1;
      }
      SweepSoFarDone(keyList.list, m.entries, callbackChan, old(m.entries), old(callbackChan),
                     randList[i..], expired, total, removed);
    }

    /**
     * `process` with the intended full sweep: the keys at the sampled positions are
     * read before any is evicted, so every sampled key that is expired is evicted,
     * and a full sweep leaves only live entries.
     */
    method ProcessSnapshot(isTotal: bool, now: int, perm: seq<int>)
      requires Valid()
      requires SortLists.IsPermutation(perm, |keyList.list|)
      modifies this, m
      ensures Valid()
      ensures
        var keys := SampledKeys(old(keyList.list),
          SortLists.RandCheckList(|old(keyList.list)|, CheckCount, isTotal, perm));
        var removed := SelectExpired(keys, ExpiredKeys(old(m.entries), now));
        && keyList.list == SortLists.RemoveAll(old(keyList.list), removed)
        && m.entries == old(m.entries) - Elems(removed)
        && callbackChan == old(callbackChan) + Payloads(old(m.entries), removed)
      ensures isTotal ==> m.entries.Keys == old(m.entries).Keys - ExpiredKeys(old(m.entries), now)
      ensures isTotal ==> forall k :: k in m.entries ==> m.entries[k].IsAlive(now)
    {
      var randList := SortLists.RandCheckList(keyList.Len(), CheckCount, isTotal, perm);
      var keys := SampledKeys(keyList.list, randList);
      ghost var expired := ExpiredKeys(m.entries, now);
      ghost var removed: seq<uint64> := [];
      var i := 0;
      while i < |keys|
        invariant 0 <= i <= |keys| && mutexCnt > 0
        invariant SnapshotSoFar(keyList.list, m.entries, callbackChan, old(keyList.list), old(m.entries),
                                old(callbackChan), keys, i, expired, removed)
      {
        ghost var (list, entries, chan) := (keyList.list, m.entries, callbackChan);
        CheckKey(keys[i], now);
        SnapshotSoFarStep(list, entries, chan, old(keyList.list), old(m.entries), old(callbackChan),
                          keys, i, now, removed, keyList.list, m.entries, callbackChan);
        if keys[i] in expired {
          removed := removed + [keys[i]];
        }
        i := i + 1;
      }
      SnapshotSoFarDone(keyList.list, m.entries, callbackChan, old(keyList.list), old(m.entries), old(callbackChan),
                        keys, now, removed);
      if isTotal {
        assert keys == old(keyList.list);
      }
    }
  }

  // ---------------------------------------------------------------------------
  // Shards and the sweep timer.

  /** The shard lock of `key` (`lock`/`unlock`): `key % len(mutexList)`, which Go needs non-zero. */
  function ShardIndex(key: uint64, mutexCnt: nat): (i: nat)
    requires mutexCnt > 0
    ensures i < mutexCnt
    ensures key < mutexCnt ==> i == key
  {
    key % mutexCnt
  }

  /**
   * One tick of `runTimer`: the new `isSweep` and the result sent to the sweeper
   * (true asks for a full sweep).
   */
  function TimerStep(isSweep: bool, hour: int, cleanTime: int): (r: (bool, bool))
    ensures r.0 <==> hour > cleanTime
    ensures r.1 <==> !isSweep && hour > cleanTime
  {
    if hour > cleanTime then
      if !isSweep then (true, true) else (true, false)
    else (false, false)
  }

  /** A full sweep is asked for at tick `i` exactly when the hour has just climbed past the cutoff. */
  ghost predicate FullSweepAt(hours: seq<int>, cleanTime: int, i: int)
    requires 0 <= i < |hours|
  {
    0 < i && hours[i - 1] <= cleanTime < hours[i]
  }

  /**
   * `runTimer` over the ticks whose hours are `hours`: the results sent, one per
   * tick, starting from `isSweep = true`.
   */
  method RunTimer(hours: seq<int>, cleanTime: int) returns (results: seq<bool>)
    ensures |results| == |hours|
    ensures forall i :: 0 <= i < |hours| ==> (results[i] <==> FullSweepAt(hours, cleanTime, i))
  {
    var isSweep, result := true, false;
    results := [];
    var i := 0;
    while i < |hours|
      invariant 0 <= i <= |hours| && |results| == i
      invariant isSweep <==> i == 0 || hours[i - 1] > cleanTime
      invariant forall j :: 0 <= j < i ==> (results[j] <==> FullSweepAt(hours, cleanTime, j))
    {
      var step := TimerStep(isSweep, hours[i], cleanTime);
      isSweep, result := step.0, step.1;
      results := results + [result];
      i := i + 1;
    }
  }

  /** The first tick never asks for a full sweep. */
  lemma FirstTickNotFull(hours: seq<int>, cleanTime: int)
    requires |hours| > 0
    ensures !FullSweepAt(hours, cleanTime, 0)
  {
  }

  /** Between two ticks that ask for a full sweep there is a tick at or below the cutoff hour. */
  lemma FullSweepsSeparated(hours: seq<int>, cleanTime: int, i: int, j: int)
    requires 0 <= i < j < |hours|
    requires FullSweepAt(hours, cleanTime, i) && FullSweepAt(hours, cleanTime, j)
    ensures exists k :: i < k < j && hours[k] <= cleanTime
  {
    assert hours[j - 1] <= cleanTime;
  }
}
