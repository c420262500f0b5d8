/** Types and sequence facts shared by the cache model. */
module Common {

  /** Go's `uint64`, the key type of the cache. */
  type uint64 = x: int | 0 <= x < 0x1_0000_0000_0000_0000

  /** A Go `(value, ok)` result: `None` stands for `(nil, false)`. */
  datatype Option<T> = None | Some(value: T)

  /** The set of elements of a sequence. */
  function Elems<T(==)>(s: seq<T>): set<T>
  {
    set x | x in s
  }

  /** No element occurs twice. */
  ghost predicate NoDup<T>(s: seq<T>)
  {
    forall i, j :: 0 <= i < j < |s| ==> s[i] != s[j]
  }

  /** Ascending and duplicate-free. */
  predicate StrictlyAscending(s: seq<int>)
  {
    forall i, j :: 0 <= i < j < |s| ==> s[i] < s[j]
  }

  lemma AscendingNoDup(s: seq<int>)
    requires StrictlyAscending(s)
    ensures NoDup(s)
  {
  }

  /** A sequence without repetitions has as many distinct elements as positions. */
  lemma {:induction false} DistinctCard<T>(s: seq<T>)
    requires NoDup(s)
    ensures |Elems(s)| == |s|
  {
    if s != [] {
      var init, last := s[..|s| - 1], s[|s| - 1];
      assert s == init + [last];
      assert NoDup(init);
      DistinctCard(init);
      assert last !in Elems(init);
      assert Elems(s) == Elems(init) + {last};
    }
  }
}
