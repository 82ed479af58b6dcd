/** The cumulative distribution functions of `math/cdf.py`: a Cdf is a pair of
    parallel lists, the values in ascending order and, for each, the fraction of
    the distribution at or below it. */
module Cdfs {
  import opened Wrappers
  import opened PyOps
  import opened Sorting
  import opened DictValues
  import opened Pmfs

  /** What `cdf_from_items` builds from non-negative counts: one probability per
      value, values ascending, probabilities non-decreasing from at least 0. */
  predicate WellFormed(xs: seq<real>, ps: seq<real>) {
    |xs| == |ps| && Sorted(xs) && Sorted(ps) && (|ps| > 0 ==> 0.0 <= ps[0])
  }

  // ---------------------------------------------------------------------------
  // Looking up CDF(x) and its inverse
  // ---------------------------------------------------------------------------

  /** `prob(x)`: 0 below the first value; otherwise the probability of the last
      value at or below `x`, found by right bisection. `xs[0]` on an empty Cdf
      raises `IndexError`. */
  function ProbAt(xs: seq<real>, ps: seq<real>, x: real): (r: Result<real>)
    ensures |xs| == 0 ==> r == Err(IndexError)
    ensures 0 < |xs| && x < xs[0] ==> r == Ok(0.0)
    ensures WellFormed(xs, ps) && 0 < |xs| && xs[0] <= x ==>
              r.Ok? && exists j :: 0 <= j < |xs| && xs[j] <= x && (forall k :: j < k < |xs| ==> x < xs[k]) && r.value == ps[j]
  {
    if |xs| == 0 then Err(IndexError)
    else if x < xs[0] then Ok(0.0)
    else
      var i := BisectRight(xs, x);
      Index(ps, i - 1)
  }

  /** The first index whose probability reaches `p`, by a scan from the front:
      the reference for what `value(p)` should pick. */
  function FirstAtLeast(ps: seq<real>, p: real): (k: nat)
    ensures k <= |ps|
    ensures forall j :: 0 <= j < k ==> ps[j] < p
    ensures k < |ps| ==> p <= ps[k]
  {
    if ps == [] then 0
    else if p <= ps[0] then 0
    else 1 + FirstAtLeast(ps[1..], p)
  }

  /** `value(p)`, the inverse CDF: `ValueError` outside [0, 1], the first value for
      0, the last for 1, and otherwise the value at the first probability above `p`
      unless the probability just before it equals `p`. When that first index is
      0, Python's `ps[-1]` is the probability compared. */
  function ValueAt(xs: seq<real>, ps: seq<real>, p: real): (r: Result<real>)
    ensures r == Err(ValueError) <==> p < 0.0 || 1.0 < p
    ensures 0 < |xs| && p == 0.0 ==> r == Ok(xs[0])
    ensures 0 < |xs| && p == 1.0 ==> r == Ok(xs[|xs| - 1])
    ensures |xs| == 0 && 0.0 <= p <= 1.0 ==> r == Err(IndexError)
  {
    if p < 0.0 || 1.0 < p then Err(ValueError)
    else if p == 0.0 then Index(xs, 0)
    else if p == 1.0 then Index(xs, -1)
    else
      var i := BisectRight(ps, p);
      match Index(ps, i - 1)
      case Err(e) => Err(e)
      case Ok(q) => if p == q then Index(xs, i - 1) else Index(xs, i)
  }

  /** `percentile(p)`: the value at fraction `p / 100`. */
  function PercentileAt(xs: seq<real>, ps: seq<real>, p: real): (r: Result<real>)
    ensures r == Err(ValueError) <==> p < 0.0 || 100.0 < p
    ensures 0 < |xs| && p == 0.0 ==> r == Ok(xs[0])
    ensures 0 < |xs| && p == 100.0 ==> r == Ok(xs[|xs| - 1])
  {
    ValueAt(xs, ps, p / 100.0)
  }

  /** With strictly increasing probabilities ending at 1, `value(p)` for an
      interior `p` is the smallest value whose probability reaches `p`. */
  lemma ValueIsQuantile(xs: seq<real>, ps: seq<real>, p: real)
    requires |xs| == |ps| && 0 < |ps| && StrictlyIncreasing(ps) && ps[|ps| - 1] == 1.0
    requires 0.0 < p < 1.0
    ensures FirstAtLeast(ps, p) < |ps|
    ensures ValueAt(xs, ps, p) == Ok(xs[FirstAtLeast(ps, p)])
  {
    StrictlySorted(ps);
    var i := BisectRight(ps, p);
    var n := |ps|;
    var k := FirstAtLeast(ps, p);
    assert ps[n - 1] > p;
    assert i < n;
    if i == 0 {
      assert Index(ps, i - 1) == Ok(ps[n - 1]);
      assert p <= ps[0];
      assert k == 0;
    } else if ps[i - 1] == p {
      assert Index(ps, i - 1) == Ok(p);
      forall j | 0 <= j < i - 1
        ensures ps[j] < p
      {
        assert ps[j] < ps[i - 1];
      }
      assert k == i - 1;
    } else {
      assert ps[i - 1] < p;
      forall j | 0 <= j < i
        ensures ps[j] < p
      {
        assert ps[j] <= ps[i - 1];
      }
      assert p < ps[i];
      assert p <= ps[k];
    }
  }

  /** `value` inverts `prob` on the Cdf's own values: `prob(xs[i]) == ps[i]` and
      `value(ps[i]) == xs[i]` when both lists strictly increase and the
      probabilities run from above 0 up to 1. */
  lemma ValueOfProb(xs: seq<real>, ps: seq<real>, i: nat)
    requires |xs| == |ps| && i < |xs|
    requires StrictlyIncreasing(xs) && StrictlyIncreasing(ps)
    requires 0.0 < ps[0] && ps[|ps| - 1] == 1.0
    ensures ProbAt(xs, ps, xs[i]) == Ok(ps[i])
    ensures ValueAt(xs, ps, ps[i]) == Ok(xs[i])
  {
    StrictlySorted(xs);
    StrictlySorted(ps);
    var b := BisectRight(xs, xs[i]);
    assert i < b;
    assert xs[b - 1] <= xs[i];
    if ps[i] != 1.0 {
      ValueIsQuantile(xs, ps, ps[i]);
    }
  }

  /** On a sorted, non-empty Cdf and `x` at or above its first value, `prob(x)`
      reads the probability just before the bisection point, which is at least 1. */
  lemma ProbIndex(xs: seq<real>, ps: seq<real>, x: real)
    requires Sorted(xs) && |ps| == |xs| && 0 < |xs| && xs[0] <= x
    ensures 1 <= BisectRight(xs, x)
    ensures ProbAt(xs, ps, x) == Ok(ps[BisectRight(xs, x) - 1])
  {
  }

  /** CDF(x) never decreases as `x` grows. */
  lemma ProbMonotone(xs: seq<real>, ps: seq<real>, x: real, y: real)
    requires WellFormed(xs, ps) && 0 < |xs| && x <= y
    ensures ProbAt(xs, ps, x).Ok? && ProbAt(xs, ps, y).Ok?
    ensures ProbAt(xs, ps, x).value <= ProbAt(xs, ps, y).value
  {
    if xs[0] <= y {
      ProbIndex(xs, ps, y);
      var j := BisectRight(xs, y);
      if x < xs[0] {
        assert ps[0] <= ps[j - 1];
      } else {
        ProbIndex(xs, ps, x);
        var i := BisectRight(xs, x);
        if 0 < i {
          assert xs[i - 1] <= x;
        }
        assert ps[i - 1] <= ps[j - 1];
      }
    }
  }

  // ---------------------------------------------------------------------------
  // The mean
  // ---------------------------------------------------------------------------

  /** The probability before index `i`, 0 before the first. */
  function PrevProb(ps: seq<real>, i: nat): real
    requires i <= |ps|
  {
    if i == 0 then 0.0 else ps[i - 1]
  }

  /** The sum over the first `n` pairs of the probability step at each value
      times that value. */
  function MeanOf(xs: seq<real>, ps: seq<real>, n: nat): real
    requires n <= |xs| && n <= |ps|
  {
    if n == 0 then 0.0
    else MeanOf(xs, ps, n - 1) + Mul(ps[n - 1] - PrevProb(ps, n - 1), xs[n - 1])
  }

  lemma BoundStep(a: real, d: real, x: real, lo: real, hi: real, m: real)
    requires 0.0 <= d && lo <= x <= hi
    requires Mul(a, lo) <= m <= Mul(a, hi)
    ensures Mul(a + d, lo) <= m + Mul(d, x) <= Mul(a + d, hi)
  {
    assert d * (x - lo) >= 0.0;
    assert d * (hi - x) >= 0.0;
  }

  /** With non-decreasing probabilities from at least 0 and every value in
      [lo, hi], the sum lies between lo and hi times the probability reached. */
  lemma {:induction false} MeanOfBounds(xs: seq<real>, ps: seq<real>, n: nat, lo: real, hi: real)
    requires n <= |xs| && n <= |ps| && Sorted(ps) && (0 < n ==> 0.0 <= ps[0])
    requires forall i :: 0 <= i < n ==> lo <= xs[i] <= hi
    ensures Mul(PrevProb(ps, n), lo) <= MeanOf(xs, ps, n) <= Mul(PrevProb(ps, n), hi)
  {
    if n > 0 {
      MeanOfBounds(xs, ps, n - 1, lo, hi);
      var a := PrevProb(ps, n - 1);
      assert 0.0 <= ps[n - 1] - a;
      BoundStep(a, ps[n - 1] - a, xs[n - 1], lo, hi, MeanOf(xs, ps, n - 1));
    }
  }

  /** The probability steps telescope: weighting one value `c` everywhere gives `c`
      times the last probability reached, so on a Cdf ending at 1 the weights sum to 1. */
  lemma {:induction false} MeanOfConstant(xs: seq<real>, ps: seq<real>, n: nat, c: real)
    requires n <= |xs| && n <= |ps| && forall i :: 0 <= i < n ==> xs[i] == c
    ensures MeanOf(xs, ps, n) == Mul(PrevProb(ps, n), c)
  {
    if n > 0 {
      MeanOfConstant(xs, ps, n - 1, c);
      var a := PrevProb(ps, n - 1);
      assert Mul(a, c) + Mul(ps[n - 1] - a, c) == Mul(ps[n - 1], c);
    }
  }

  /** The mean of a Cdf that reaches 1 lies between its smallest and largest value. */
  lemma MeanWithinRange(xs: seq<real>, ps: seq<real>)
    requires WellFormed(xs, ps) && 0 < |xs| && ps[|ps| - 1] == 1.0
    ensures xs[0] <= MeanOf(xs, ps, |xs|) <= xs[|xs| - 1]
  {
    MeanOfBounds(xs, ps, |xs|, xs[0], xs[|xs| - 1]);
    UnitMul(xs[0]);
    UnitMul(xs[|xs| - 1]);
  }

  /** The smaller of two lengths: how far `zip` runs. */
  function MinLen(a: nat, b: nat): nat {
    if a <= b then a else b
  }

  // ---------------------------------------------------------------------------
  // Rendering as a step function
  // ---------------------------------------------------------------------------

  /** The points `render()` emits: a leading `(xs[0], 0)`, then for each `i` the
      point `(xs[i], ps[i])` and, unless `i` is the last value, `(xs[i+1], ps[i])`.
      Point `j` therefore carries `xs[j / 2]` and, after the first, `ps[(j - 1) / 2]`. */
  predicate Rendered(xs: seq<real>, ps: seq<real>, rx: seq<real>, rp: seq<real>)
    requires 0 < |xs| && |ps| <= |xs|
  {
    && |rx| == |rp| == (if |ps| == |xs| then 2 * |ps| else 2 * |ps| + 1)
    && (forall j :: 0 <= j < |rx| ==> rx[j] == xs[j / 2])
    && rp[0] == 0.0
    && (forall j :: 0 < j < |rp| ==> rp[j] == ps[(j - 1) / 2])
  }

  /** The rendered steps stay in order: the x coordinates when the values are
      sorted, the y coordinates when the probabilities are. */
  lemma RenderedSorted(xs: seq<real>, ps: seq<real>, rx: seq<real>, rp: seq<real>)
    requires 0 < |xs| && |ps| <= |xs| && Rendered(xs, ps, rx, rp)
    ensures Sorted(xs) ==> Sorted(rx)
    ensures Sorted(ps) && (0 < |ps| ==> 0.0 <= ps[0]) ==> Sorted(rp)
  {
    if Sorted(xs) {
      forall i, j | 0 <= i <= j < |rx|
        ensures rx[i] <= rx[j]
      {
        assert rx[i] == xs[i / 2] && rx[j] == xs[j / 2];
      }
    }
    if Sorted(ps) && (0 < |ps| ==> 0.0 <= ps[0]) {
      forall i, j | 0 <= i <= j < |rp|
        ensures rp[i] <= rp[j]
      {
        if 0 < i {
          assert rp[i] == ps[(i - 1) / 2] && rp[j] == ps[(j - 1) / 2];
        } else if 0 < j {
          assert rp[j] == ps[(j - 1) / 2];
          assert ps[0] <= ps[(j - 1) / 2];
        }
      }
    }
  }

  // ---------------------------------------------------------------------------
  // The Cdf object
  // ---------------------------------------------------------------------------

  class Cdf {
    var xs: seq<real>
    var ps: seq<real>
    var name: string

    constructor (xs: seq<real>, ps: seq<real>, name: string := "")
      ensures this.xs == xs && this.ps == ps && this.name == name
    {
      this.xs := xs;
      this.ps := ps;
      this.name := name;
    }

    /** `append(x, p)`: one more pair at the end; the caller keeps it a legal Cdf. */
    method Append(x: real, p: real)
      modifies this
      ensures xs == old(xs) + [x] && ps == old(ps) + [p] && name == old(name)
      ensures old(|xs| == |ps|) ==> |xs| == |ps|
    {
      xs := xs + [x];
      ps := ps + [p];
    }

    function Prob(x: real): Result<real>
      reads this
    {
      ProbAt(xs, ps, x)
    }

    function Value(p: real): Result<real>
      reads this
    {
      ValueAt(xs, ps, p)
    }

    function Percentile(p: real): Result<real>
      reads this
    {
      PercentileAt(xs, ps, p)
    }

    /** `mean()`: the probability step at each value times the value, summed over
      the pairs `zip` yields. */
    method Mean() returns (total: real)
      ensures total == MeanOf(xs, ps, MinLen(|xs|, |ps|))
    {
      var oldP := 0.0;
      total := 0.0;
      for i := 0 to MinLen(|xs|, |ps|)
        invariant total == MeanOf(xs, ps, i) && oldP == PrevProb(ps, i)
      {
        var p := ps[i] - oldP;
        total := total + p * xs[i];
        oldP := ps[i];
      }
    }

    /** `render()`: the corner points of the step function. `xs[0]` on an empty
      Cdf, and `xs[i]` once the probabilities outnumber the values, raise
      `IndexError`; the `IndexError` from `xs[i + 1]` at the last value is caught. */
    method Render() returns (r: Result<(seq<real>, seq<real>)>)
      ensures r.Err? <==> |xs| == 0 || |xs| < |ps|
      ensures r.Err? ==> r.error == IndexError
      ensures r.Ok? ==> 0 < |xs| && |ps| <= |xs| && Rendered(xs, ps, r.value.0, r.value.1)
    {
      if |xs| == 0 {
        return Err(IndexError);
      }
      var rx := [xs[0]];
      var rp := [0.0];
      var i := 0;
      while i < |ps|
        invariant 0 <= i <= |ps| && i <= |xs|
        invariant |rx| == |rp| == (if i == |xs| then 2 * i else 2 * i + 1)
        invariant forall j :: 0 <= j < |rx| ==> rx[j] == xs[j / 2]
        invariant rp[0] == 0.0
        invariant forall j :: 0 < j < |rp| ==> rp[j] == ps[(j - 1) / 2]
      {
        if i >= |xs| {
          return Err(IndexError);
        }
        rx := rx + [xs[i]];
        rp := rp + [ps[i]];
        if i + 1 < |xs| {
          rx := rx + [xs[i + 1]];
          rp := rp + [ps[i]];
        }
        i := i + 1;
      }
      return Ok((rx, rp));
    }
  }

  // ---------------------------------------------------------------------------
  // Building a Cdf from (value, count) pairs
  // ---------------------------------------------------------------------------

  /** Python's order on `(value, count)` tuples: by value, then by count. */
  function PairLe(a: (real, real), b: (real, real)): bool {
    a.0 < b.0 || (a.0 == b.0 && a.1 <= b.1)
  }

  lemma PairLeTotal()
    ensures TotalPreorder(PairLe)
  {
  }

  /** `Running(s, n)` reads only the first `n` pairs. */
  lemma {:induction false} RunningTake<V>(s: seq<(V, real)>, n: nat)
    requires n <= |s|
    ensures Running(s, n) == Running(s[..n], n)
    decreases n
  {
    if n > 0 {
      RunningTake(s, n - 1);
      RunningTake(s[..n], n - 1);
      assert s[..n][..n - 1] == s[..n - 1];
    }
  }

  /** Taking out the pair at `j` takes its count out of the total. */
  lemma {:induction false} RunningRemoveAt<V>(s: seq<(V, real)>, j: nat)
    requires j < |s|
    ensures Running(s, |s|) == Running(s[..j] + s[j + 1..], |s| - 1) + s[j].1
    decreases |s|
  {
    var n := |s| - 1;
    var r := s[..j] + s[j + 1..];
    if j == n {
      assert r == s[..j];
      RunningTake(s, j);
    } else {
      var s' := s[..n];
      var r' := s'[..j] + s'[j + 1..];
      RunningRemoveAt(s', j);
      RunningTake(s, n);
      assert r[..n - 1] == r' && r[n - 1] == s[n];
      RunningTake(r, n - 1);
    }
  }

  lemma RemoveAtMultiset<T>(s: seq<T>, j: nat)
    requires j < |s|
    ensures multiset(s[..j] + s[j + 1..]) == multiset(s) - multiset{s[j]}
  {
    assert s == s[..j] + [s[j]] + s[j + 1..];
  }

  /** The total of the counts does not depend on their order. */
  lemma {:induction false} RunningPermutation<V>(s: seq<(V, real)>, t: seq<(V, real)>)
    requires multiset(s) == multiset(t)
    ensures Running(s, |s|) == Running(t, |t|)
    decreases |t|
  {
    if t == [] {
      assert |s| == |multiset(s)| == 0;
    } else {
      var n := |t| - 1;
      var e := t[n];
      assert e in multiset(s);
      var j :| 0 <= j < |s| && s[j] == e;
      RemoveAtMultiset(s, j);
      RemoveAtMultiset(t, n);
      assert t[..n] + t[n + 1..] == t[..n];
      RunningPermutation(s[..j] + s[j + 1..], t[..n]);
      RunningRemoveAt(s, j);
      RunningTake(t, n);
    }
  }

  /** What `cdf_from_items(items)` computes: the pairs sorted, their values in
      that order, and each running count over the total. An empty list gives an
      empty Cdf; a non-empty one whose counts add up to 0 divides by zero. */
  function ItemsCdf(items: seq<(real, real)>): (r: Result<(seq<real>, seq<real>)>)
    ensures r.Err? <==> items != [] && Running(items, |items|) == 0.0
    ensures r.Err? ==> r.error == ZeroDivisionError
    ensures r.Ok? ==> |r.value.0| == |r.value.1| == |items|
    ensures r.Ok? && items != [] ==> r.value.1[|items| - 1] == 1.0
  {
    var s := SortBy(items, PairLe);
    RunningPermutation(s, items);
    var total := Running(s, |s|);
    if s != [] && total == 0.0 then Err(ZeroDivisionError)
    else if s == [] then Ok(([], []))
    else
      FractionsEnd(s, total);
      Ok((Firsts(s), Fractions(s, total)))
  }

  /** The values of the pairs, in order. */
  function Firsts(s: seq<(real, real)>): (r: seq<real>)
    ensures |r| == |s| && forall i :: 0 <= i < |s| ==> r[i] == s[i].0
  {
    seq(|s|, i requires 0 <= i < |s| => s[i].0)
  }

  /** Each running count over `total`. */
  function Fractions(s: seq<(real, real)>, total: real): (r: seq<real>)
    requires total != 0.0
    ensures |r| == |s| && forall i :: 0 <= i < |s| ==> r[i] == Running(s, i + 1) / total
  {
    seq(|s|, i requires 0 <= i < |s| => Running(s, i + 1) / total)
  }

  lemma FractionsOrdered(s: seq<(real, real)>, total: real, i: nat, j: nat)
    requires i <= j < |s| && 0.0 < total
    requires forall k :: 0 <= k < |s| ==> 0.0 <= s[k].1
    ensures Fractions(s, total)[i] <= Fractions(s, total)[j]
  {
    RunningMonotone(s, i + 1, j + 1);
    DivMonotone(Running(s, i + 1), Running(s, j + 1), total);
  }

  /** Whatever the signs of the counts, the last running fraction of a non-zero
      total is the total over itself. */
  lemma FractionsEnd(s: seq<(real, real)>, total: real)
    requires s != [] && total == Running(s, |s|) && total != 0.0
    ensures Fractions(s, total)[|s| - 1] == 1.0
  {
    assert Fractions(s, total)[|s| - 1] == Running(s, |s|) / total;
    DivSelf(total);
  }

  lemma DivSelf(t: real)
    requires t != 0.0
    ensures t / t == 1.0
  {
  }

  /** With non-negative counts, the running fractions of the total climb from at
      least 0 to exactly 1. */
  lemma FractionsClimb(s: seq<(real, real)>, total: real)
    requires s != [] && total == Running(s, |s|) && total != 0.0
    requires forall k :: 0 <= k < |s| ==> 0.0 <= s[k].1
    ensures Sorted(Fractions(s, total)) && 0.0 <= Fractions(s, total)[0]
    ensures Fractions(s, total)[|s| - 1] == 1.0
  {
    var ps := Fractions(s, total);
    RunningMonotone(s, 0, |s|);
    forall i, j | 0 <= i <= j < |ps|
      ensures ps[i] <= ps[j]
    {
      FractionsOrdered(s, total, i, j);
    }
    RunningMonotone(s, 0, 1);
    DivMonotone(0.0, Running(s, 1), total);
    FractionsEnd(s, total);
  }

  /** The values of the Cdf are in ascending order and are exactly the values
      occurring among the items. */
  lemma ItemsCdfValues(items: seq<(real, real)>)
    requires ItemsCdf(items).Ok?
    ensures Sorted(ItemsCdf(items).value.0)
    ensures forall x :: x in ItemsCdf(items).value.0 <==> exists j :: 0 <= j < |items| && items[j].0 == x
  {
    var s := SortBy(items, PairLe);
    PairLeTotal();
    SortBySorted(items, PairLe);
    assert ItemsCdf(items).value.0 == Firsts(s);
    FirstsSorted(s);
    FirstsOfPermutation(items, s);
  }

  /** Pairs in tuple order have their values in ascending order. */
  lemma FirstsSorted(s: seq<(real, real)>)
    requires SortedBy(s, PairLe)
    ensures Sorted(Firsts(s))
  {
    var xs := Firsts(s);
    forall i, j | 0 <= i <= j < |xs|
      ensures xs[i] <= xs[j]
    {
      if i < j {
        assert PairLe(s[i], s[j]);
      }
    }
  }

  /** A reordering of the pairs has the same values. */
  lemma FirstsOfPermutation(items: seq<(real, real)>, s: seq<(real, real)>)
    requires multiset(s) == multiset(items)
    ensures forall x :: x in Firsts(s) <==> exists j :: 0 <= j < |items| && items[j].0 == x
  {
    var xs := Firsts(s);
    forall x
      ensures x in xs <==> exists j :: 0 <= j < |items| && items[j].0 == x
    {
      if x in xs {
        var i :| 0 <= i < |xs| && xs[i] == x;
        assert s[i] in multiset(items);
        var j :| 0 <= j < |items| && items[j] == s[i];
      }
      if exists j :: 0 <= j < |items| && items[j].0 == x {
        var j :| 0 <= j < |items| && items[j].0 == x;
        assert items[j] in multiset(s);
        var i :| 0 <= i < |s| && s[i] == items[j];
        assert xs[i] == x;
      }
    }
  }

  lemma RunningMonotone<V>(s: seq<(V, real)>, i: nat, j: nat)
    requires i <= j <= |s| && forall k :: 0 <= k < |s| ==> 0.0 <= s[k].1
    ensures Running(s, i) <= Running(s, j)
    decreases j - i
  {
    if i < j {
      RunningMonotone(s, i, j - 1);
    }
  }

  lemma DivMonotone(a: real, b: real, t: real)
    requires a <= b && 0.0 < t
    ensures a / t <= b / t
  {
    assert b / t - a / t == (b - a) / t;
  }

  /** From non-negative counts that are not all 0, `cdf_from_items` builds a
      well-formed Cdf (its last probability is 1 for any non-zero total). */
  lemma ItemsCdfProbs(items: seq<(real, real)>)
    requires items != [] && ItemsCdf(items).Ok?
    requires forall j :: 0 <= j < |items| ==> 0.0 <= items[j].1
    ensures WellFormed(ItemsCdf(items).value.0, ItemsCdf(items).value.1)
  {
    ItemsCdfValues(items);
    var s := SortBy(items, PairLe);
    forall k | 0 <= k < |s|
      ensures 0.0 <= s[k].1
    {
      assert s[k] in multiset(items);
      var j :| 0 <= j < |items| && items[j] == s[k];
    }
    FractionsClimb(s, Running(s, |s|));
  }

  /** The loops of `cdf_from_items`: the running sum over the sorted pairs, then
      each running count divided by the total. */
  method CumulativeFromItems(items: seq<(real, real)>) returns (r: Result<(seq<real>, seq<real>)>)
    ensures r == ItemsCdf(items)
  {
    var sorted := SortBy(items, PairLe);
    var xs, cs, runsum := RunningCounts(sorted);
    var total := runsum;
    if cs != [] && total == 0.0 {
      return Err(ZeroDivisionError);
    }
    var ps := Divided(cs, total);
    r := Ok((xs, ps));
    assert xs == Firsts(sorted);
    if sorted != [] {
      assert ps == Fractions(sorted, total);
    }
  }

  /** The first loop of `cdf_from_items`: each value in order, with the running
      count up to and including it. */
  method RunningCounts(sorted: seq<(real, real)>) returns (xs: seq<real>, cs: seq<real>, runsum: real)
    ensures |xs| == |cs| == |sorted| && runsum == Running(sorted, |sorted|)
    ensures forall k :: 0 <= k < |sorted| ==> xs[k] == sorted[k].0 && cs[k] == Running(sorted, k + 1)
  {
    runsum := 0.0;
    xs := [];
    cs := [];
    for i := 0 to |sorted|
      invariant |xs| == |cs| == i && runsum == Running(sorted, i)
      invariant forall k :: 0 <= k < i ==> xs[k] == sorted[k].0 && cs[k] == Running(sorted, k + 1)
    {
      assert Running(sorted, i + 1) == runsum + sorted[i].1;
      runsum := runsum + sorted[i].1;
      xs := xs + [sorted[i].0];
      cs := cs + [runsum];
    }
  }

  /** The second loop of `cdf_from_items`: each running count over the total. */
  method Divided(cs: seq<real>, total: real) returns (ps: seq<real>)
    requires cs != [] ==> total != 0.0
    ensures |ps| == |cs| && forall k :: 0 <= k < |cs| ==> ps[k] == cs[k] / total
  {
    ps := [];
    for i := 0 to |cs|
      invariant |ps| == i && forall k :: 0 <= k < i ==> ps[k] == cs[k] / total
    {
      ps := ps + [cs[i] / total];
    }
  }

  /** `cdf_from_items(items, name)`. */
  method CdfFromItems(items: seq<(real, real)>, name: string := "") returns (r: Result<Cdf>)
    ensures r.Err? <==> items != [] && Running(items, |items|) == 0.0
    ensures r.Err? ==> r.error == ZeroDivisionError
    ensures r.Ok? ==> fresh(r.value) && (r.value.xs, r.value.ps) == ItemsCdf(items).value && r.value.name == name
  {
    var built := CumulativeFromItems(items);
    match built
    case Err(e) =>
      r := Err(e);
    case Ok(pair) =>
      var cdf := new Cdf(pair.0, pair.1, name);
      r := Ok(cdf);
  }

  /** `d.items()`: every key with its weight, once each, in some order. */
  method DictItems<V(==)>(d: map<V, real>) returns (items: seq<(V, real)>)
    ensures Enumerates(items, d)
  {
    items := [];
    var todo := d.Keys;
    while todo != {}
      invariant todo <= d.Keys && |items| + |todo| == |d.Keys|
      invariant forall i :: 0 <= i < |items| ==> items[i].0 in d && items[i].0 !in todo && d[items[i].0] == items[i].1
      invariant forall i, j :: 0 <= i < j < |items| ==> items[i].0 != items[j].0
      decreases |todo|
    {
      var x :| x in todo;
      items := items + [(x, d[x])];
      todo := todo - {x};
    }
  }

  /** From the weights of a dict listed once each, the Cdf fails exactly when the
      dict is non-empty with total 0, holds its keys, ends at 1 when the dict is
      non-empty, and, with non-negative weights, is well formed. */
  lemma EnumeratedCdf(items: seq<(real, real)>, d: map<real, real>)
    requires Enumerates(items, d)
    ensures ItemsCdf(items).Err? <==> d != map[] && Total(d) == 0.0
    ensures ItemsCdf(items).Ok? ==> |ItemsCdf(items).value.0| == |ItemsCdf(items).value.1| == |d|
    ensures ItemsCdf(items).Ok? ==> forall x :: x in ItemsCdf(items).value.0 <==> x in d
    ensures ItemsCdf(items).Ok? && d != map[] ==> ItemsCdf(items).value.1[|d| - 1] == 1.0
    ensures ItemsCdf(items).Ok? && d != map[] && (forall x :: x in d ==> 0.0 <= d[x]) ==>
              WellFormed(ItemsCdf(items).value.0, ItemsCdf(items).value.1)
  {
    EnumerationTotal(items, d);
    assert items == [] <==> d == map[] by {
      if d != map[] {
        var k := Pick(d);
        assert |d| > 0;
      }
    }
    if ItemsCdf(items).Ok? {
      ItemsCdfValues(items);
      forall x | x in d
        ensures exists j :: 0 <= j < |items| && items[j].0 == x
      {
        KeyListed(items, d, x);
      }
      if d != map[] && (forall x :: x in d ==> 0.0 <= d[x]) {
        ItemsCdfProbs(items);
      }
    }
  }

  /** Every key of the dict appears among its listed items. */
  lemma KeyListed<V>(items: seq<(V, real)>, d: map<V, real>, x: V)
    requires Enumerates(items, d) && x in d
    ensures exists j :: 0 <= j < |items| && items[j].0 == x
  {
    var listed := set j | 0 <= j < |items| :: items[j].0;
    assert listed <= d.Keys;
    if x !in listed {
      assert listed <= d.Keys - {x};
      assert |listed| <= |d.Keys - {x}| < |d.Keys| by {
        SubsetCard(listed, d.Keys - {x});
      }
      DistinctCard(items);
    }
  }

  lemma SubsetCard<T>(a: set<T>, b: set<T>)
    requires a <= b
    ensures |a| <= |b|
  {
    assert b == a + (b - a);
  }

  /** Listing `n` distinct keys names `n` keys. */
  lemma {:induction false} DistinctCard<V>(items: seq<(V, real)>)
    requires forall i, j :: 0 <= i < j < |items| ==> items[i].0 != items[j].0
    ensures |set j | 0 <= j < |items| :: items[j].0| == |items|
    decreases |items|
  {
    if items != [] {
      var n := |items| - 1;
      var front := items[..n];
      DistinctCard(front);
      var a := set j | 0 <= j < |front| :: front[j].0;
      var b := set j | 0 <= j < |items| :: items[j].0;
      assert b == a + {items[n].0};
      assert items[n].0 !in a;
    }
  }

  /** `cdf_from_dict(d, name)`: the Cdf of the dict's (value, frequency) items. */
  method CdfFromDict(d: map<real, real>, name: string := "") returns (r: Result<Cdf>)
    ensures r.Err? <==> d != map[] && Total(d) == 0.0
    ensures r.Err? ==> r.error == ZeroDivisionError
    ensures r.Ok? ==> fresh(r.value) && r.value.name == name && |r.value.xs| == |r.value.ps| == |d|
    ensures r.Ok? ==> forall x :: x in r.value.xs <==> x in d
    ensures r.Ok? && d != map[] ==> r.value.ps[|r.value.ps| - 1] == 1.0
    ensures r.Ok? && d != map[] && (forall x :: x in d ==> 0.0 <= d[x]) ==> WellFormed(r.value.xs, r.value.ps)
  {
    var items := DictItems(d);
    EnumeratedCdf(items, d);
    r := CdfFromItems(items, name);
  }

  /** `cdf_from_hist(hist, name)`: the Cdf of the histogram's (value, count) items. */
  method CdfFromHist(hist: Hist<real>, name: string := "") returns (r: Result<Cdf>)
    ensures r.Err? <==> hist.d != map[] && hist.Total() == 0
    ensures r.Err? ==> r.error == ZeroDivisionError
    ensures r.Ok? ==> fresh(r.value) && r.value.name == name && |r.value.xs| == |r.value.ps| == |hist.d|
    ensures r.Ok? ==> forall x :: x in r.value.xs <==> x in hist.d
    ensures r.Ok? && hist.d != map[] ==> r.value.ps[|r.value.ps| - 1] == 1.0
    ensures r.Ok? && hist.d != map[] && (forall x :: x in hist.d ==> 0 <= hist.d[x]) ==>
              WellFormed(r.value.xs, r.value.ps)
  {
    var weights := AsWeights(hist.d);
    var items := DictItems(weights);
    AsWeightsTotal(hist.d);
    EnumeratedCdf(items, weights);
    r := CdfFromItems(items, name);
  }

  /** `cdf_from_pmf(pmf, name)`: the Cdf of the Pmf's (value, probability) items,
      named after the Pmf unless a name is given. */
  method CdfFromPmf(pmf: Pmf<real>, name: Option<string> := None) returns (r: Result<Cdf>)
    ensures r.Err? <==> pmf.d != map[] && pmf.Total() == 0.0
    ensures r.Err? ==> r.error == ZeroDivisionError
    ensures r.Ok? ==> fresh(r.value) && r.value.name == (if name.Some? then name.value else pmf.name)
    ensures r.Ok? ==> |r.value.xs| == |r.value.ps| == |pmf.d|
    ensures r.Ok? ==> forall x :: x in r.value.xs <==> x in pmf.d
    ensures r.Ok? && pmf.d != map[] ==> r.value.ps[|r.value.ps| - 1] == 1.0
    ensures r.Ok? && pmf.d != map[] && (forall x :: x in pmf.d ==> 0.0 <= pmf.d[x]) ==>
              WellFormed(r.value.xs, r.value.ps)
  {
    var cdfName := if name.Some? then name.value else pmf.name;
    var items := DictItems(pmf.d);
    EnumeratedCdf(items, pmf.d);
    r := CdfFromItems(items, cdfName);
  }

  /** `cdf_from_list(seq, name)`: the Cdf of the histogram of `t`. It never fails:
      its values are the distinct elements of `t`, ascending, and on a non-empty
      list the probabilities climb to 1. */
  method CdfFromList(t: seq<real>, name: string := "") returns (cdf: Cdf)
    ensures fresh(cdf) && cdf.name == name
    ensures forall x :: x in cdf.xs <==> x in t
    ensures WellFormed(cdf.xs, cdf.ps)
    ensures t != [] ==> 0 < |cdf.ps| && cdf.ps[|cdf.ps| - 1] == 1.0
  {
    var hist := HistFromList(t);
    var r := CdfFromHist(hist, name);
    if t == [] {
      assert hist.d == map[];
    } else {
      assert t[0] in hist.d;
    }
    cdf := r.value;
    if t == [] {
      assert |cdf.xs| == 0;
    }
  }
}
