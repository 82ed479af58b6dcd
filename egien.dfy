/** The two in-place list transforms of `mathlib/egien.py`: running sums
    (`previous_sum`) and first differences (`discrete_differential`). Each
    rewrites the caller's list and hands the same list back. */
module Egien {
  import opened Wrappers

  /** The sum of the first `n` elements. */
  function SumTo(s: seq<real>, n: nat): real
    requires n <= |s|
  {
    if n == 0 then 0.0 else SumTo(s, n - 1) + s[n - 1]
  }

  /** Element `i` replaced by the sum of elements 0 to `i`. */
  function PrefixSums(s: seq<real>): (r: seq<real>)
    ensures |r| == |s|
  {
    seq(|s|, i requires 0 <= i < |s| => SumTo(s, i + 1))
  }

  /** Element `i` replaced by its step from element `i - 1`, and the first by 0. */
  function Differences(s: seq<real>): (r: seq<real>)
    ensures |r| == |s|
  {
    seq(|s|, i requires 0 <= i < |s| => if i == 0 then 0.0 else s[i] - s[i - 1])
  }

  /** `previous_sum(vals)`: each element becomes the sum of the original elements
      up to and including it, in place, and the same list is returned. */
  method PreviousSum(vals: array<real>) returns (r: array<real>)
    modifies vals
    ensures r == vals
    ensures vals[..] == PrefixSums(old(vals[..]))
  {
    ghost var orig := vals[..];
    var steps := if vals.Length == 0 then 0 else vals.Length - 1;
    for i := 0 to steps
      invariant forall k :: 0 <= k <= i && k < vals.Length ==> vals[k] == SumTo(orig, k + 1)
      invariant forall k :: i < k < vals.Length ==> vals[k] == orig[k]
    {
      vals[i + 1] := vals[i + 1] + vals[i];
    }
    assert vals[..] == PrefixSums(orig);
    return vals;
  }

  /** `discrete_differential(y_list)`: each element after the first loses the
      original element before it, read from a deep copy, and the first becomes 0.
      On an empty list the loop does nothing and `y_list[0] = 0` raises
      `IndexError`. */
  method DiscreteDifferential(yList: array<real>) returns (r: Result<array<real>>)
    modifies yList
    ensures yList.Length == 0 ==> r == Err(IndexError)
    ensures 0 < yList.Length ==> r == Ok(yList) && yList[..] == Differences(old(yList[..]))
  {
    var t := yList[..];
    var steps := if yList.Length == 0 then 0 else yList.Length - 1;
    for i := 0 to steps
      invariant forall k :: 0 < k <= i && k < yList.Length ==> yList[k] == t[k] - t[k - 1]
      invariant forall k :: 0 <= k < yList.Length && (k == 0 || i < k) ==> yList[k] == t[k]
    {
      yList[i + 1] := yList[i + 1] - t[i];
    }
    if yList.Length == 0 {
      return Err(IndexError);
    }
    yList[0] := 0.0;
    assert yList[..] == Differences(t);
    return Ok(yList);
  }

  /** A list of at most one element is its own running sum. */
  lemma PrefixSumsShort(s: seq<real>)
    requires |s| <= 1
    ensures PrefixSums(s) == s
  {
    if |s| == 1 {
      assert SumTo(s, 1) == s[0];
    }
  }

  /** Differencing the running sums gives back the list, except that its first
      element becomes 0: `discrete_differential` undoes `previous_sum`. */
  lemma DifferencesOfPrefixSums(s: seq<real>)
    requires s != []
    ensures Differences(PrefixSums(s)) == s[0 := 0.0]
  {
    var l, r := Differences(PrefixSums(s)), s[0 := 0.0];
    forall i | 0 <= i < |s|
      ensures l[i] == r[i]
    {
      if 0 < i {
        assert PrefixSums(s)[i] == SumTo(s, i) + s[i];
      }
    }
  }

  /** Running sums of the differences telescope to each element's distance from
      the first: `previous_sum` undoes `discrete_differential` up to that offset. */
  lemma PrefixSumsOfDifferences(s: seq<real>)
    requires s != []
    ensures forall i :: 0 <= i < |s| ==> PrefixSums(Differences(s))[i] == s[i] - s[0]
  {
    forall i | 0 <= i < |s|
      ensures PrefixSums(Differences(s))[i] == s[i] - s[0]
    {
      DifferencesTelescope(s, i + 1);
    }
  }

  lemma {:induction false} DifferencesTelescope(s: seq<real>, n: nat)
    requires 0 < n <= |s|
    ensures SumTo(Differences(s), n) == s[n - 1] - s[0]
  {
    if n > 1 {
      DifferencesTelescope(s, n - 1);
    }
  }
}
