/**
 * The scenarios of cache_map_test.go, run against the model. Sleeping is the
 * clock moving forward; the background sweep that the safe map's goroutine runs
 * on a timer tick is an explicit call of `Process`.
 */
module Scenarios {
  import opened Common
  import opened CacheObjects
  import opened CacheMaps

  /** One second and one millisecond, the test's sleep, in nanoseconds. */
  const Sleep: int := 1_001_000_000

  /**
   * `TestCacheMap`: an entry with a one-second lifetime is found at once, is
   * gone after the sleep, and an absent key is never found.
   */
  method CacheMapScenario(now: int) returns (first: Option<int>, later: Option<int>, missing: Option<int>)
    ensures first == Some(100)
    ensures later == None
    ensures missing == None
  {
    var m := new Uint64CacheMap<int>();
    m.Put(1, NewCacheObject(100, now, 1));
    first := m.Get(1, now);
    later := m.Get(1, now + Sleep);
    missing := m.Get(2, now + Sleep);
  }

  /** A sweep of the one-key index `[1]` whose key is expired evicts it and empties the index. */
  lemma SweepOfOneExpiredKey()
    ensures SortLists.IsPermutation([0], 1)
    ensures SortLists.RandCheckList(1, CheckCount, false, [0]) == [0]
    ensures SweepAsWritten([1], [0], {1}).0 == []
    ensures SweepAsWritten([1], [0], {1}).1 == [1]
  {
    assert SortLists.IsPermutation([0], 1);
    var picked := SortLists.RandCheckList(1, CheckCount, false, [0]);
    assert picked == [0];
    assert SortLists.Remove([1], 1) == [];
    var index: seq<uint64> := [1];
    var positions: seq<int> := [0];
    SweepStep(index, positions, {1});
    assert index[positions[0]] == 1;
    assert SortLists.Remove(index, 1) == [];
    assert positions[1..] == [];
    var rest := SweepAsWritten([], [], {1});
    assert rest.0 == [] && rest.1 == [];
    assert SweepAsWritten(index, positions, {1}) == (rest.0, [1] + rest.1);
  }

  /**
   * The first half of `TestSafeCacheMap`: a new safe map given one entry with a
   * one-second lifetime counts it in the map and the index, and finds it at once.
   */
  method SafeMapWithOneEntry(now: int)
    returns (m: Uint64SafeCacheMap<int>, size: nat, indexLen: nat, hit: Option<int>)
    ensures fresh(m) && fresh(m.m) && m.Valid()
    ensures m.m.entries == map[1 := NewCacheObject(100, now, 1)]
    ensures m.keyList.list == [1] && m.callbackChan == []
    ensures size == 1 && indexLen == 1
    ensures hit == Some(100)
  {
    m := new Uint64SafeCacheMap<int>(4);
    m.Put(1, NewCacheObject(100, now, 1));
    assert m.keyList.list == [1];
    size := m.Size();
    indexLen := m.keyList.Len();
    assert size == 1 && indexLen == 1;
    hit := m.Get(1, now);
  }

  /**
   * `TestSafeCacheMap`: one entry is counted by the map and the index and is
   * found at once; after the sleep a sweep evicts it, sending its payload once,
   * and both counts drop to zero.
   */
  method SafeCacheMapScenario(now: int)
    returns (size: nat, indexLen: nat, hit: Option<int>, sizeAfter: nat, indexLenAfter: nat,
             stale: Option<int>, missing: Option<int>, sent: seq<int>)
    ensures size == 1 && indexLen == 1
    ensures hit == Some(100)
    ensures sizeAfter == 0 && indexLenAfter == 0
    ensures stale == None && missing == None
    ensures sent == [100]
  {
    var m;
    m, size, indexLen, hit := SafeMapWithOneEntry(now);
    var later := now + Sleep;
    ghost var entries := m.m.entries;
    assert ExpiredKeys(entries, later) == {1};
    SweepOfOneExpiredKey();
    assert Payloads(entries, [1]) == [100];
    assert entries - Elems([1]) == map[];
    m.Process(false, later, [0]);
    assert m.m.entries == map[] && m.keyList.list == [] && m.callbackChan == [100];
    sizeAfter := m.Size();
    assert sizeAfter == 0;
    indexLenAfter := m.keyList.Len();
    stale := m.Get(1, later);
    assert stale == None && m.m.entries == map[];
    missing := m.Get(2, later);
    sent := m.callbackChan;
  }
}
