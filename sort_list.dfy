/**
 * The sorted key index (sort_list.go): an ascending, duplicate-free list of keys,
 * updated copy-on-write by `ListPush` and `ListPop`, searched by the hand-written
 * binary search `listFind`, and sampled by `RandCheckList`.
 */
module SortLists {
  import opened Common

  /** Go's `List`: a slice of keys. */
  type List = seq<uint64>

  // The `List` accessors; indexing outside the slice panics in Go, so callers
  // must stay inside it.

  function Len(list: List): nat
  {
    |list|
  }

  predicate Equal(list: List, index: int, userId: uint64)
    requires 0 <= index < |list|
  {
    list[index] == userId
  }

  predicate Less(list: List, index: int, userId: uint64)
    requires 0 <= index < |list|
  {
    list[index] < userId
  }

  /** Go's `SortList`; its reader/writer lock is not part of this model. */
  datatype SortList = SortList(list: List)
  {
    /** `SortList.Get`: `None` stands for the index-out-of-range panic. */
    function Get(index: int): (r: Option<uint64>)
      ensures r.Some? <==> 0 <= index < |list|
      ensures r.Some? ==> r.value == list[index]
    {
      if 0 <= index < |list| then Some(list[index]) else None
    }

    /** `SortList.Len`. */
    function Len(): nat
    {
      |list|
    }

    /** `SortList.List`: a copy of the keys, which for a value is the keys themselves. */
    function ListCopy(): List
    {
      list
    }
  }

  /** `CreateSortList`: an empty index, which is trivially ascending. */
  function CreateSortList(): (r: SortList)
    ensures r.list == [] && r.Len() == 0
    ensures StrictlyAscending(r.list)
  {
    SortList([])
  }

  // ---------------------------------------------------------------------------
  // Reference definitions of the index updates, by walking the list.

  /** The ascending `list` with `k` added in its place (unchanged if present). */
  function Insert(list: List, k: uint64): List
  {
    if list == [] then [k]
    else if k < list[0] then [k] + list
    else if k == list[0] then list
    else [list[0]] + Insert(list[1..], k)
  }

  /** `list` without its first occurrence of `k` (unchanged if absent). */
  function Remove(list: List, k: uint64): List
  {
    if list == [] then []
    else if list[0] == k then list[1..]
    else [list[0]] + Remove(list[1..], k)
  }

  /** `Remove` applied for every id of `ids`, in order. */
  function RemoveAll(list: List, ids: seq<uint64>): List
    decreases |ids|
  {
    if ids == [] then list
    else Remove(RemoveAll(list, ids[..|ids| - 1]), ids[|ids| - 1])
  }

  /** `p` is where `k` belongs in `list`: everything before is smaller, everything after larger. */
  ghost predicate InsertionPoint(list: List, k: uint64, p: int)
  {
    && 0 <= p <= |list|
    && (forall j :: 0 <= j < p ==> list[j] < k)
    && (forall j :: p <= j < |list| ==> k < list[j])
  }

  lemma ConsAscending(x: uint64, s: List)
    requires StrictlyAscending(s)
    requires forall y :: y in Elems(s) ==> x < y
    ensures StrictlyAscending([x] + s)
  {
    var t := [x] + s;
    forall i, j | 0 <= i < j < |t|
      ensures t[i] < t[j]
    {
      assert t[j] == s[j - 1];
      if i == 0 {
        assert s[j - 1] in Elems(s);
      } else {
        assert t[i] == s[i - 1];
      }
    }
  }

  lemma SnocAscending(s: seq<int>, x: int)
    requires StrictlyAscending(s)
    requires forall y :: y in s ==> y < x
    ensures StrictlyAscending(s + [x])
  {
    var t := s + [x];
    forall i, j | 0 <= i < j < |t|
      ensures t[i] < t[j]
    {
      assert t[i] == s[i];
      if j == |s| {
        assert s[i] in s;
      }
    }
  }

  lemma ElemsCons<T>(x: T, s: seq<T>)
    ensures Elems([x] + s) == {x} + Elems(s)
  {
    assert forall y :: y in [x] + s <==> y == x || y in s;
  }

  lemma AscendingSplit(list: List)
    requires StrictlyAscending(list) && list != []
    ensures StrictlyAscending(list[1..])
    ensures forall y :: y in Elems(list[1..]) ==> list[0] < y
    ensures Elems(list) == {list[0]} + Elems(list[1..])
  {
    assert list == [list[0]] + list[1..];
    forall y | y in Elems(list[1..])
      ensures list[0] < y
    {
      var j :| 0 <= j < |list[1..]| && list[1..][j] == y;
      assert list[j + 1] == y;
    }
  }

  /** Insertion keeps the index ascending and adds exactly `k` to its key set. */
  lemma {:induction false} InsertKeepsIndex(list: List, k: uint64)
    requires StrictlyAscending(list)
    ensures StrictlyAscending(Insert(list, k))
    ensures Elems(Insert(list, k)) == Elems(list) + {k}
  {
    if list == [] {
    } else {
      AscendingSplit(list);
      if k < list[0] {
        ConsAscending(k, list);
      } else if k > list[0] {
        var tail := list[1..];
        InsertKeepsIndex(tail, k);
        forall y | y in Elems(Insert(tail, k))
          ensures list[0] < y
        {
          assert y == k || y in Elems(tail);
        }
        ConsAscending(list[0], Insert(tail, k));
        ElemsCons(list[0], Insert(tail, k));
      }
    }
  }

  /** Inserting a key that is already present changes nothing. */
  lemma {:induction false} InsertPresent(list: List, k: uint64)
    requires StrictlyAscending(list) && k in list
    ensures Insert(list, k) == list
  {
    AscendingSplit(list);
    if k != list[0] {
      InsertPresent(list[1..], k);
    }
  }

  /** For an absent key, insertion splices it in at its insertion point. */
  lemma {:induction false} InsertAt(list: List, k: uint64, p: int)
    requires InsertionPoint(list, k, p)
    ensures Insert(list, k) == list[..p] + [k] + list[p..]
  {
    if p > 0 {
      assert InsertionPoint(list[1..], k, p - 1);
      InsertAt(list[1..], k, p - 1);
      assert list[..p] == [list[0]] + list[1..][..p - 1];
      assert list[p..] == list[1..][p - 1..];
    }
  }

  /** Removal keeps the index ascending and takes exactly `k` out of its key set. */
  lemma {:induction false} RemoveKeepsIndex(list: List, k: uint64)
    requires StrictlyAscending(list)
    ensures StrictlyAscending(Remove(list, k))
    ensures Elems(Remove(list, k)) == Elems(list) - {k}
  {
    if list != [] {
      AscendingSplit(list);
      if list[0] != k {
        var tail := list[1..];
        RemoveKeepsIndex(tail, k);
        forall y | y in Elems(Remove(tail, k))
          ensures list[0] < y
        {
          assert y in Elems(tail);
        }
        ConsAscending(list[0], Remove(tail, k));
        ElemsCons(list[0], Remove(tail, k));
      }
    }
  }

  /** Removing an absent key changes nothing. */
  lemma {:induction false} RemoveAbsent(list: List, k: uint64)
    requires k !in list
    ensures Remove(list, k) == list
  {
    if list != [] {
      assert k !in list[1..];
      RemoveAbsent(list[1..], k);
    }
  }

  /** For a key at position `p` of an ascending list, removal cuts out position `p`. */
  lemma {:induction false} RemoveAt(list: List, p: int)
    requires StrictlyAscending(list) && 0 <= p < |list|
    ensures Remove(list, list[p]) == list[..p] + list[p + 1..]
  {
    if p > 0 {
      var tail := list[1..];
      assert list[0] < list[p];
      assert tail[p - 1] == list[p];
      assert StrictlyAscending(tail);
      RemoveAt(tail, p - 1);
      assert Remove(list, list[p]) == [list[0]] + Remove(tail, list[p]);
      assert list[..p] == [list[0]] + tail[..p - 1];
      assert list[p + 1..] == tail[p..];
    }
  }

  /** Round trip: removing a freshly inserted key gives back the original index. */
  lemma {:induction false} RemoveInsert(list: List, k: uint64)
    requires StrictlyAscending(list) && k !in list
    ensures Remove(Insert(list, k), k) == list
  {
    if list != [] && k > list[0] {
      AscendingSplit(list);
      RemoveInsert(list[1..], k);
    }
  }

  /** Round trip: re-inserting a removed key gives back the original index. */
  lemma {:induction false} InsertRemove(list: List, k: uint64)
    requires StrictlyAscending(list) && k in list
    ensures Insert(Remove(list, k), k) == list
  {
    AscendingSplit(list);
    if list[0] == k {
      if list[1..] != [] {
        assert k < list[1..][0];
      }
    } else {
      InsertRemove(list[1..], k);
      RemoveKeepsIndex(list[1..], k);
      assert k in list[1..];
    }
  }

  /** Removing a list of ids keeps the index ascending and takes out exactly those ids. */
  lemma {:induction false} RemoveAllKeepsIndex(list: List, ids: seq<uint64>)
    requires StrictlyAscending(list)
    ensures StrictlyAscending(RemoveAll(list, ids))
    ensures Elems(RemoveAll(list, ids)) == Elems(list) - Elems(ids)
    decreases |ids|
  {
    if ids != [] {
      var init, last := ids[..|ids| - 1], ids[|ids| - 1];
      RemoveAllKeepsIndex(list, init);
      RemoveKeepsIndex(RemoveAll(list, init), last);
      assert ids == init + [last];
      assert Elems(ids) == Elems(init) + {last};
    }
  }

  /** An ascending duplicate-free list is determined by its key set. */
  lemma {:induction false} AscendingDeterminedByElems(a: List, b: List)
    requires StrictlyAscending(a) && StrictlyAscending(b)
    requires Elems(a) == Elems(b)
    ensures a == b
  {
    assert a != [] ==> a[0] in Elems(a);
    assert b != [] ==> b[0] in Elems(b);
    if a != [] && b != [] {
      AscendingSplit(a);
      AscendingSplit(b);
      assert a[0] in Elems(b) && b[0] in Elems(a);
      assert a[0] == b[0];
      assert a[0] !in Elems(a[1..]) && b[0] !in Elems(b[1..]);
      assert Elems(a[1..]) == Elems(a) - {a[0]};
      assert Elems(b[1..]) == Elems(b) - {b[0]};
      AscendingDeterminedByElems(a[1..], b[1..]);
      assert a == [a[0]] + a[1..];
      assert b == [b[0]] + b[1..];
    }
  }

  // ---------------------------------------------------------------------------
  // The operations.

  /**
   * Go's `x / 2` on `int`, which truncates toward zero: `-1 / 2` is `0` in Go,
   * where Dafny's `/` would give `-1`.
   */
  function Half(x: int): (h: int)
    ensures 0 <= x ==> 2 * h <= x <= 2 * h + 1
    ensures x < 0 ==> 2 * h - 1 <= x <= 2 * h
  {
    if x >= 0 then x / 2 else -((-x) / 2)
  }

  /**
   * `listFind`: binary search. The position is always inside `[0, |list|]` and a
   * reported match is genuine; on an ascending list the key is found exactly when
   * present, and otherwise the position is its insertion point.
   */
  method ListFind(list: List, userId: uint64) returns (pos: int, exist: bool)
    requires |list| > 0
    ensures 0 <= pos <= |list|
    ensures exist ==> pos < |list| && list[pos] == userId
    ensures StrictlyAscending(list) ==> (exist <==> userId in list)
    ensures StrictlyAscending(list) && !exist ==> InsertionPoint(list, userId, pos)
  {
    var startPos := 0;
    var endPos := Len(list) - 1;
    var middlePos := Half(startPos + endPos);
    while !Equal(list, middlePos, userId) && startPos < endPos
      invariant 0 <= startPos <= endPos + 1 <= |list|
      invariant middlePos == Half(startPos + endPos)
      invariant 0 <= middlePos < |list|
      invariant startPos <= endPos ==> startPos <= middlePos <= endPos
      invariant StrictlyAscending(list) ==> forall j :: 0 <= j < startPos ==> list[j] < userId
      invariant StrictlyAscending(list) ==> forall j :: endPos < j < |list| ==> userId < list[j]
      decreases endPos - startPos
    {
      if Less(list, middlePos, userId) {
        startPos := middlePos + 1;
      } else {
        endPos := middlePos - 1;
      }
      middlePos := Half(startPos + endPos);
    }
    exist := false;
    if Equal(list, middlePos, userId) {
      exist := true;
    } else if Less(list, middlePos, userId) {
      middlePos := middlePos + 1;
    }
    pos := middlePos;
  }

  /**
   * Go's built-in `copy(dst[at:], src)`: copies `min(len(dst) - at, len(src))`
   * keys, returns that count, and leaves the rest of `dst` alone.
   */
  method CopyInto(dst: array<uint64>, at: nat, src: seq<uint64>) returns (n: nat)
    requires at <= dst.Length
    modifies dst
    ensures n == if dst.Length - at < |src| then dst.Length - at else |src|
    ensures forall j :: 0 <= j < at ==> dst[j] == old(dst[j])
    ensures forall j :: 0 <= j < n ==> dst[at + j] == src[j]
    ensures forall j :: at + n <= j < dst.Length ==> dst[j] == old(dst[j])
  {
    n := if dst.Length - at < |src| then dst.Length - at else |src|;
    var i := 0;
    while i < n
      invariant 0 <= i <= n
      invariant forall j :: 0 <= j < at ==> dst[j] == old(dst[j])
      invariant forall j :: 0 <= j < i ==> dst[at + j] == src[j]
      invariant forall j :: at + n <= j < dst.Length ==> dst[j] == old(dst[j])
    {
      dst[at + i] := src[i];
      i := i + 1;
    }
  }

  lemma SpliceIn(a: List, list: List, index: int, k: uint64)
    requires 0 <= index <= |list| && |a| == |list| + 1
    requires forall j :: 0 <= j < index ==> a[j] == list[j]
    requires a[index] == k
    requires forall j :: index < j < |a| ==> a[j] == list[j - 1]
    ensures a == list[..index] + [k] + list[index..]
  {
  }

  lemma SpliceOut(a: List, list: List, index: int)
    requires 0 <= index < |list| && |a| == |list| - 1
    requires forall j :: 0 <= j < index ==> a[j] == list[j]
    requires forall j :: index <= j < |a| ==> a[j] == list[j + 1]
    ensures a == list[..index] + list[index + 1..]
  {
  }

  /**
   * The new slice of `ListPush`: a fresh array one longer than `list`, holding
   * the keys before `index`, then `userId`, then the keys from `index` on.
   */
  method SplicedIn(list: List, index: int, userId: uint64) returns (s: List)
    requires 0 <= index <= |list|
    ensures s == list[..index] + [userId] + list[index..]
  {
    var newList := new uint64[|list| + 1];
    var route := CopyInto(newList, 0, list[..index]);
    newList[route] := userId;
    var _ := CopyInto(newList, route + 1, list[index..]);
    forall j | index < j < newList.Length
      ensures newList[j] == list[j - 1]
    {
      assert newList[route + 1 + (j - index - 1)] == list[index..][j - index - 1];
    }
    SpliceIn(newList[..], list, index, userId);
    s := newList[..];
  }

  /**
   * The new slice of `ListPop`: a fresh array one shorter than `list`, holding
   * the keys before `index` and then those after it.
   */
  method SplicedOut(list: List, index: int) returns (s: List)
    requires 0 <= index < |list|
    ensures s == list[..index] + list[index + 1..]
  {
    var newList := new uint64[|list| - 1];
    var roult := CopyInto(newList, 0, list[..index]);
    var _ := CopyInto(newList, roult, list[index + 1..]);
    forall j | index <= j < newList.Length
      ensures newList[j] == list[j + 1]
    {
      assert newList[roult + (j - index)] == list[index + 1..][j - index];
    }
    SpliceOut(newList[..], list, index);
    s := newList[..];
  }

  /**
   * `ListPush`: the index with `userId` added, built in a fresh array when the
   * key is new. The result is the reference insertion, so it stays ascending and
   * holds the old keys plus `userId`.
   */
  method ListPush(sortList: SortList, userId: uint64) returns (r: SortList)
    requires StrictlyAscending(sortList.list)
    ensures r.list == Insert(sortList.list, userId)
    ensures StrictlyAscending(r.list)
    ensures Elems(r.list) == Elems(sortList.list) + {userId}
  {
    InsertKeepsIndex(sortList.list, userId);
    var list := sortList.list;
    var length := Len(list);
    if length == 0 {
      return SortList([userId]);
    }
    var index, exist := ListFind(list, userId);
    if exist {
      InsertPresent(list, userId);
      return sortList;
    }
    var newList := SplicedIn(list, index, userId);
    InsertAt(list, userId, index);
    r := SortList(newList);
  }

  /**
   * `ListPop`: the index without `userId`, built in a fresh array when the key is
   * present. The result is the reference removal, so it stays ascending and holds
   * the old keys minus `userId`.
   */
  method ListPop(sortList: SortList, userId: uint64) returns (r: SortList)
    requires StrictlyAscending(sortList.list)
    ensures r.list == Remove(sortList.list, userId)
    ensures StrictlyAscending(r.list)
    ensures Elems(r.list) == Elems(sortList.list) - {userId}
  {
    RemoveKeepsIndex(sortList.list, userId);
    var list := sortList.list;
    var length := Len(list);
    if length == 0 {
      return sortList;
    } else if length == 1 {
      if list[0] == userId {
        return SortList([]);
      } else {
        RemoveAbsent(list, userId);
        return sortList;
      }
    }
    var index, exist := ListFind(list, userId);
    if !exist {
      RemoveAbsent(list, userId);
      return sortList;
    }
    var newList := SplicedOut(list, index);
    RemoveAt(list, index);
    r := SortList(newList);
  }

  /** `ListPops`: `ListPop` for each id in turn, so exactly the ids leave the index. */
  method ListPops(sortList: SortList, idList: seq<uint64>) returns (r: SortList)
    requires StrictlyAscending(sortList.list)
    ensures r.list == RemoveAll(sortList.list, idList)
    ensures StrictlyAscending(r.list)
    ensures Elems(r.list) == Elems(sortList.list) - Elems(idList)
  {
    r := sortList;
    var i := 0;
    while i < |idList|
      invariant 0 <= i <= |idList|
      invariant r.list == RemoveAll(sortList.list, idList[..i])
      invariant StrictlyAscending(r.list)
    {
      r := ListPop(r, idList[i]);
      assert idList[..i + 1][..i] == idList[..i];
      i := i + 1;
    }
    assert idList[..i] == idList;
    RemoveAllKeepsIndex(sortList.list, idList);
  }

  // ---------------------------------------------------------------------------
  // Sampling positions for the sweep.

  /** What `rand.Perm(n)` returns: every position of `[0, n)` exactly once. */
  ghost predicate IsPermutation(perm: seq<int>, n: nat)
  {
    && |perm| == n
    && NoDup(perm)
    && (forall x :: x in perm ==> 0 <= x < n)
    && (forall i :: 0 <= i < n ==> i in perm)
  }

  /**
   * The positions of `[0, n)` that are in `chosen`, ascending: what sorting a
   * duplicate-free slice of such positions yields (Go's `IntSlice.Sort`).
   */
  function SortedPositions(chosen: set<int>, n: nat): (r: seq<int>)
    ensures StrictlyAscending(r)
    ensures forall x :: x in r <==> 0 <= x < n && x in chosen
  {
    if n == 0 then []
    else
      var prefix := SortedPositions(chosen, n - 1);
      if n - 1 in chosen then
        SnocAscending(prefix, n - 1);
        prefix + [n - 1]
      else prefix
  }

  lemma {:induction false} SortedPositionsAll(chosen: set<int>, n: nat)
    requires forall i :: 0 <= i < n ==> i in chosen
    ensures |SortedPositions(chosen, n)| == n
    ensures forall i :: 0 <= i < n ==> SortedPositions(chosen, n)[i] == i
  {
    if n > 0 {
      SortedPositionsAll(chosen, n - 1);
    }
  }

  /**
   * `RandCheckList(length, checkCnt, isTotal)` with `rand.Perm(length)` passed in
   * as `perm`: distinct positions of `[0, length)` in ascending order; every
   * position when `isTotal` or `length <= checkCnt`, otherwise the first
   * `checkCnt` positions of the permutation.
   */
  function RandCheckList(length: nat, checkCnt: nat, isTotal: bool, perm: seq<int>): (r: seq<int>)
    requires IsPermutation(perm, length)
    ensures StrictlyAscending(r)
    ensures forall i :: 0 <= i < |r| ==> 0 <= r[i] < length
    ensures |r| == if isTotal || length <= checkCnt then length else checkCnt
    ensures isTotal || length <= checkCnt ==> forall i :: 0 <= i < |r| ==> r[i] == i
    ensures !isTotal && length > checkCnt ==> forall x :: x in r <==> x in perm[..checkCnt]
  {
    var picked := if !isTotal && length > checkCnt then perm[..checkCnt] else perm;
    var r := SortedPositions(Elems(picked), length);
    assert forall x :: x in picked ==> x in perm;
    assert Elems(r) == Elems(picked);
    AscendingNoDup(r);
    DistinctCard(r);
    assert NoDup(picked);
    DistinctCard(picked);
    assert forall i :: 0 <= i < |r| ==> r[i] in r;
    if isTotal || length <= checkCnt then
      SortedPositionsAll(Elems(picked), length);
      r
    else
      r
  }
}
