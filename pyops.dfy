/** The few Python built-ins the core relies on, written out: right bisection
    (`bisect.bisect`), indexing with negative indices, slicing, and `int()` on a
    float, which truncates toward zero. */
module PyOps {
  import opened Wrappers

  /** Every element is at most every later one. */
  predicate Sorted(a: seq<real>) {
    forall i, j :: 0 <= i <= j < |a| ==> a[i] <= a[j]
  }

  /** Every element is strictly smaller than every later one. */
  predicate StrictlyIncreasing(a: seq<real>) {
    forall i, j :: 0 <= i < j < |a| ==> a[i] < a[j]
  }

  /** A strictly increasing list is sorted. */
  lemma StrictlySorted(a: seq<real>)
    requires StrictlyIncreasing(a)
    ensures Sorted(a)
  {
    forall i, j | 0 <= i <= j < |a|
      ensures a[i] <= a[j]
    {
      if i < j {
        assert a[i] < a[j];
      }
    }
  }

  /** The binary search of `bisect.bisect_right` restricted to `a[lo..hi]`. On a
      sorted list whose prefix before `lo` is `<= x` and whose suffix from `hi` is
      `> x`, the result splits the whole list at `x`. */
  function BisectFrom(a: seq<real>, x: real, lo: nat, hi: nat): (i: nat)
    requires lo <= hi <= |a|
    ensures lo <= i <= hi
    ensures Sorted(a) && (forall k :: 0 <= k < lo ==> a[k] <= x) && (forall k :: hi <= k < |a| ==> x < a[k])
            ==> (forall k :: 0 <= k < i ==> a[k] <= x) && (forall k :: i <= k < |a| ==> x < a[k])
    decreases hi - lo
  {
    if lo < hi then
      var mid := (lo + hi) / 2;
      if x < a[mid] then BisectFrom(a, x, lo, mid) else BisectFrom(a, x, mid + 1, hi)
    else
      lo
  }

  /** `bisect.bisect(a, x)`: the insertion point of `x` after any entries equal to it.
      On a sorted list everything before it is `<= x` and everything from it on is `> x`. */
  function BisectRight(a: seq<real>, x: real): (i: nat)
    ensures i <= |a|
    ensures Sorted(a) ==> (forall k :: 0 <= k < i ==> a[k] <= x) && (forall k :: i <= k < |a| ==> x < a[k])
  {
    BisectFrom(a, x, 0, |a|)
  }

  /** `s[i]` with Python's meaning of a negative index; `IndexError` out of range. */
  function Index<T>(s: seq<T>, i: int): (r: Result<T>)
    ensures r.Ok? <==> -|s| <= i < |s|
    ensures 0 <= i < |s| ==> r == Ok(s[i])
    ensures -|s| <= i < 0 ==> r == Ok(s[|s| + i])
  {
    if 0 <= i < |s| then Ok(s[i])
    else if -|s| <= i < 0 then Ok(s[|s| + i])
    else Err(IndexError)
  }

  /** A slice bound as Python normalises it: negative counts from the end, then clamped. */
  function SliceBound(len: nat, b: int): (r: nat)
    ensures r <= len
    ensures 0 <= b <= len ==> r == b
    ensures b < 0 && 0 <= len + b ==> r == len + b
  {
    if b < 0 then (if len + b < 0 then 0 else len + b)
    else if b > len then len
    else b
  }

  /** `s[start:stop]`: empty when the normalised stop is not after the normalised start. */
  function Slice<T>(s: seq<T>, start: int, stop: int): (r: seq<T>)
    ensures var lo, hi := SliceBound(|s|, start), SliceBound(|s|, stop);
            r == if lo < hi then s[lo..hi] else []
  {
    var lo, hi := SliceBound(|s|, start), SliceBound(|s|, stop);
    if lo < hi then s[lo..hi] else []
  }

  /** `int(x)` on a float: truncation toward zero. */
  function Trunc(x: real): (n: int)
    ensures 0.0 <= x ==> 0 <= n && n as real <= x < n as real + 1.0
    ensures x < 0.0 ==> n <= 0 && n as real - 1.0 < x <= n as real
  {
    if 0.0 <= x then x.Floor else -((-x).Floor)
  }
}
