/** Python's `sorted` / `list.sort`, modelled as an insertion sort under a
    comparator. Only the result matters to the core: an ordered permutation of
    the input. */
module Sorting {

  /** `le` is total and transitive, as Python's `<=` is on numbers and on tuples of numbers. */
  ghost predicate TotalPreorder<T(!new)>(le: (T, T) -> bool) {
    && (forall a, b :: le(a, b) || le(b, a))
    && (forall a, b, c :: le(a, b) && le(b, c) ==> le(a, c))
  }

  predicate SortedBy<T>(s: seq<T>, le: (T, T) -> bool) {
    forall i, j :: 0 <= i < j < |s| ==> le(s[i], s[j])
  }

  /** Inserts `x` before the first element it does not follow. */
  function Insert<T>(x: T, s: seq<T>, le: (T, T) -> bool): (r: seq<T>)
    ensures multiset(r) == multiset(s) + multiset{x}
    ensures |r| == |s| + 1
  {
    if s == [] then [x]
    else if le(x, s[0]) then [x] + s
    else
      assert s == [s[0]] + s[1..];
      [s[0]] + Insert(x, s[1..], le)
  }

  /** Inserting into an ordered sequence keeps it ordered. */
  lemma {:induction false} InsertSorted<T(!new)>(x: T, s: seq<T>, le: (T, T) -> bool)
    requires TotalPreorder(le) && SortedBy(s, le)
    ensures SortedBy(Insert(x, s, le), le)
  {
    if s != [] && !le(x, s[0]) {
      var s0, tail := s[0], s[1..];
      var rest := Insert(x, tail, le);
      InsertSorted(x, tail, le);
      assert le(s0, x) || le(x, s0);
      forall m | 0 <= m < |tail|
        ensures le(s0, tail[m])
      {
        assert tail[m] == s[m + 1];
      }
      InsertBounded(x, tail, le, s0);
      var r := [s0] + rest;
      forall i, j | 0 <= i < j < |r|
        ensures le(r[i], r[j])
      {
        assert r[j] == rest[j - 1];
        if 0 < i {
          assert r[i] == rest[i - 1];
        }
      }
    }
  }

  /** Inserting `x` into a sequence whose elements all follow `lo` gives one whose
      elements all follow `lo`, when `x` does too. */
  lemma {:induction false} InsertBounded<T>(x: T, s: seq<T>, le: (T, T) -> bool, lo: T)
    requires le(lo, x) && forall m :: 0 <= m < |s| ==> le(lo, s[m])
    ensures forall k :: 0 <= k < |Insert(x, s, le)| ==> le(lo, Insert(x, s, le)[k])
  {
    var r := Insert(x, s, le);
    if s == [] {
      assert r == [x];
    } else if le(x, s[0]) {
      assert r == [x] + s;
      forall k | 0 < k < |r|
        ensures le(lo, r[k])
      {
        assert r[k] == s[k - 1];
      }
    } else {
      var rest := Insert(x, s[1..], le);
      InsertBounded(x, s[1..], le, lo);
      assert r == [s[0]] + rest;
      forall k | 0 < k < |r|
        ensures le(lo, r[k])
      {
        assert r[k] == rest[k - 1];
      }
    }
  }

  /** `sorted(s)`: the elements of `s`, each as often as in `s`. */
  function SortBy<T>(s: seq<T>, le: (T, T) -> bool): (r: seq<T>)
    ensures multiset(r) == multiset(s)
    ensures |r| == |s|
  {
    if s == [] then []
    else
      assert s == [s[0]] + s[1..];
      Insert(s[0], SortBy(s[1..], le), le)
  }

  /** ... and in order. */
  lemma {:induction false} SortBySorted<T(!new)>(s: seq<T>, le: (T, T) -> bool)
    requires TotalPreorder(le)
    ensures SortedBy(SortBy(s, le), le)
  {
    if s != [] {
      SortBySorted(s[1..], le);
      InsertSorted(s[0], SortBy(s[1..], le), le);
    }
  }
}
