/** The numeric helpers of `mathlib/statics/util.py`, whose `trim`, `binom` and
    `interpolator` are repeated word for word in `math/util.py`: the mean and
    variance of a list, trimming its extremes, memoised binomial coefficients
    and linear interpolation between two sorted lists. */
module StatUtil {
  import opened Wrappers
  import opened PyOps
  import opened Sorting

  // ---------------------------------------------------------------------------
  // mean, variance, mean_variance
  // ---------------------------------------------------------------------------

  /** `sum(t)`, added from the left. */
  function Sum(t: seq<real>): real {
    if t == [] then 0.0 else Sum(t[..|t| - 1]) + t[|t| - 1]
  }

  function Scaled(n: nat, c: real): real {
    n as real * c
  }

  /** Every element in [lo, hi] puts the sum between `|t|` times each. */
  lemma {:induction false} SumBounds(t: seq<real>, lo: real, hi: real)
    requires forall i :: 0 <= i < |t| ==> lo <= t[i] <= hi
    ensures Scaled(|t|, lo) <= Sum(t) <= Scaled(|t|, hi)
  {
    if t != [] {
      SumBounds(t[..|t| - 1], lo, hi);
      assert Scaled(|t|, lo) == Scaled(|t| - 1, lo) + lo;
      assert Scaled(|t|, hi) == Scaled(|t| - 1, hi) + hi;
    }
  }

  /** `mean(t)`: `sum(t) / len(t)`, dividing by zero on an empty list. */
  function Mean(t: seq<real>): (r: Result<real>)
    ensures r.Err? <==> t == []
    ensures r.Err? ==> r.error == ZeroDivisionError
  {
    if t == [] then Err(ZeroDivisionError) else Ok(Sum(t) / |t| as real)
  }

  lemma DivBounds(s: real, n: nat, lo: real, hi: real)
    requires 0 < n && Scaled(n, lo) <= s <= Scaled(n, hi)
    ensures lo <= s / n as real <= hi
  {
    var m := n as real;
    assert s / m - lo == (s - m * lo) / m;
    assert hi - s / m == (m * hi - s) / m;
  }

  /** The mean lies between the smallest and the largest element. */
  lemma MeanBetween(t: seq<real>, lo: real, hi: real)
    requires t != [] && forall i :: 0 <= i < |t| ==> lo <= t[i] <= hi
    ensures lo <= Mean(t).value <= hi
  {
    SumBounds(t, lo, hi);
    DivBounds(Sum(t), |t|, lo, hi);
  }

  function Square(x: real): real {
    x * x
  }

  /** The squared deviations `[(x - mu)**2 for x in t]`. */
  function Deviations(t: seq<real>, mu: real): (r: seq<real>)
    ensures |r| == |t| && forall i :: 0 <= i < |t| ==> r[i] == Square(t[i] - mu)
  {
    seq(|t|, i requires 0 <= i < |t| => Square(t[i] - mu))
  }

  /** `variance(t, mu)`: the mean squared deviation from `mu`, which defaults to
      `mean(t)`; an empty list divides by zero either way. */
  function Variance(t: seq<real>, mu: Option<real> := None): (r: Result<real>)
    ensures r.Err? <==> t == []
    ensures r.Err? ==> r.error == ZeroDivisionError
  {
    var centre := if mu.Some? then Ok(mu.value) else Mean(t);
    match centre
    case Err(e) => Err(e)
    case Ok(c) => Mean(Deviations(t, c))
  }

  /** A sum of non-negative terms is non-negative, and 0 when every term is. */
  lemma {:induction false} SumNonNegative(t: seq<real>)
    requires forall i :: 0 <= i < |t| ==> 0.0 <= t[i]
    ensures 0.0 <= Sum(t)
    ensures (forall i :: 0 <= i < |t| ==> t[i] == 0.0) ==> Sum(t) == 0.0
  {
    if t != [] {
      SumNonNegative(t[..|t| - 1]);
    }
  }

  /** The variance around the centre actually used is never negative, and it is
      0 when every element equals that centre. */
  lemma VarianceNonNegative(t: seq<real>, mu: Option<real>)
    requires t != []
    ensures var c := if mu.Some? then mu.value else Mean(t).value;
            && 0.0 <= Variance(t, mu).value
            && ((forall i :: 0 <= i < |t| ==> t[i] == c) ==> Variance(t, mu).value == 0.0)
  {
    var c := if mu.Some? then mu.value else Mean(t).value;
    var dev := Deviations(t, c);
    forall i | 0 <= i < |dev|
      ensures 0.0 <= dev[i] && (t[i] == c ==> dev[i] == 0.0)
    {
    }
    SumNonNegative(dev);
    var n := |t| as real;
    assert Variance(t, mu).value == Sum(dev) / n;
  }

  /** `mean_variance(t)`: the mean and the variance around it. */
  function MeanVariance(t: seq<real>): (r: Result<(real, real)>)
    ensures r.Err? <==> t == []
    ensures r.Ok? ==> r.value.0 == Mean(t).value && r.value.1 == Variance(t, Some(r.value.0)).value
  {
    match Mean(t)
    case Err(e) => Err(e)
    case Ok(mu) =>
      match Variance(t, Some(mu))
      case Err(e) => Err(e)
      case Ok(v) => Ok((mu, v))
  }

  // ---------------------------------------------------------------------------
  // trim
  // ---------------------------------------------------------------------------

  /** Python's `<=` on floats, the order `list.sort` uses. */
  function RealLe(a: real, b: real): bool {
    a <= b
  }

  /** Sorting reals puts them in ascending order and keeps every element. */
  lemma SortedReals(s: seq<real>)
    ensures Sorted(SortBy(s, RealLe)) && multiset(SortBy(s, RealLe)) == multiset(s)
  {
    SortBySorted(s, RealLe);
    var r := SortBy(s, RealLe);
    forall i, j | 0 <= i <= j < |r|
      ensures r[i] <= r[j]
    {
      if i < j {
        assert RealLe(r[i], r[j]);
      }
    }
  }

  /** How many elements `trim` drops from each end: `int(p * len(t))`. */
  function TrimCount(len: nat, p: real): int {
    Trunc(p * len as real)
  }

  /** `t[n:-n]` on the sorted list, as the source writes it. */
  function TrimmedSlice(sorted: seq<real>, p: real): seq<real> {
    var n := TrimCount(|sorted|, p);
    Slice(sorted, n, -n)
  }

  /** As written, `trim` returns the middle `len - 2n` elements once at least one
      is dropped from each end, and nothing at all when the count is 0, since
      `t[0:-0]` is `t[0:0]`. */
  lemma TrimmedSliceCases(sorted: seq<real>, p: real)
    ensures var n := TrimCount(|sorted|, p);
            && (n == 0 ==> TrimmedSlice(sorted, p) == [])
            && (1 <= n && 2 * n <= |sorted| ==> TrimmedSlice(sorted, p) == sorted[n..|sorted| - n])
  {
  }

  /** The default `p = 0.01` on a list of three: nothing is to be trimmed, yet the
      result is empty, not the three elements. */
  lemma TrimDropsEverything()
    ensures TrimCount(3, 0.01) == 0
    ensures TrimmedSlice([1.0, 2.0, 3.0], 0.01) == []
    ensures TrimmedMiddle([1.0, 2.0, 3.0], 0.01) == [1.0, 2.0, 3.0]
  {
    assert 0.01 * 3 as real == 0.03;
  }

  /** The evidently intended `t[n:len(t) - n]`: the middle once `n` elements are
      dropped from each end. */
  function TrimmedMiddle(sorted: seq<real>, p: real): (r: seq<real>)
    ensures var n := TrimCount(|sorted|, p);
            0 <= n && 2 * n <= |sorted| ==> r == sorted[n..|sorted| - n] && |r| == |sorted| - 2 * n
  {
    var n := TrimCount(|sorted|, p);
    Slice(sorted, n, |sorted| - n)
  }

  /** For a fraction in [0, 1/2] the intended trim keeps exactly the elements
      from position `n` to `len - n`, the whole list when `n` is 0. */
  lemma TrimmedMiddleKeeps(sorted: seq<real>, p: real)
    requires 0.0 <= p <= 0.5
    ensures var n := TrimCount(|sorted|, p);
            0 <= n && 2 * n <= |sorted| && TrimmedMiddle(sorted, p) == sorted[n..|sorted| - n]
  {
    TrimCountHalf(|sorted|, p);
  }

  /** At most half the list is dropped from each end when `p` is at most 1/2. */
  lemma TrimCountHalf(len: nat, p: real)
    requires 0.0 <= p <= 0.5
    ensures 0 <= TrimCount(len, p) && 2 * TrimCount(len, p) <= len
  {
    var lr := len as real;
    var x := p * lr;
    HalfBound(p, lr);
    assert 0.0 <= x && 2.0 * x <= lr;
    var n := Trunc(x);
    assert 0 <= n && n as real <= x;
    assert (2 * n) as real <= lr;
  }

  lemma HalfBound(p: real, len: real)
    requires 0.0 <= p <= 0.5 && 0.0 <= len
    ensures 0.0 <= p * len && 2.0 * (p * len) <= len
  {
    assert (0.5 - p) * len >= 0.0;
  }

  /** `trim(t, p)`: sorts `t` in place, then returns its middle slice as written. */
  method Trim(t: array<real>, p: real) returns (r: seq<real>)
    modifies t
    ensures t[..] == SortBy(old(t[..]), RealLe)
    ensures r == TrimmedSlice(t[..], p)
  {
    var sorted := SortBy(t[..], RealLe);
    Overwrite(t, sorted);
    var n := TrimCount(|sorted|, p);
    r := Slice(sorted, n, -n);
  }

  /** Stores `s` into `t` element by element, as `list.sort` leaves its list. */
  method Overwrite(t: array<real>, s: seq<real>)
    requires |s| == t.Length
    modifies t
    ensures t[..] == s
  {
    for i := 0 to t.Length
      invariant forall k :: 0 <= k < i ==> t[k] == s[k]
    {
      t[i] := s[i];
    }
  }

  // ---------------------------------------------------------------------------
  // binom
  // ---------------------------------------------------------------------------

  /** Pascal's rule as `binom` applies it: 1 for k = 0, 0 for n = 0 otherwise,
      and the sum of the two coefficients one row up. */
  function Pascal(n: nat, k: int): nat {
    if k == 0 then 1
    else if n == 0 then 0
    else Pascal(n - 1, k) + Pascal(n - 1, k - 1)
  }

  function Fact(n: nat): (r: nat)
    ensures 1 <= r
  {
    if n == 0 then 1 else n * Fact(n - 1)
  }

  /** No ways to choose more than `n`. */
  lemma {:induction false} PascalAbove(n: nat, k: int)
    requires n < k
    ensures Pascal(n, k) == 0
  {
    if n > 0 {
      PascalAbove(n - 1, k);
      PascalAbove(n - 1, k - 1);
    }
  }

  /** No ways to choose a negative number. */
  lemma {:induction false} PascalNegative(n: nat, k: int)
    requires k < 0
    ensures Pascal(n, k) == 0
  {
    if n > 0 {
      PascalNegative(n - 1, k);
      PascalNegative(n - 1, k - 1);
    }
  }

  /** One way to choose all `n`. */
  lemma {:induction false} PascalDiagonal(n: nat)
    ensures Pascal(n, n) == 1
  {
    if n > 0 {
      PascalAbove(n - 1, n);
      PascalDiagonal(n - 1);
    }
  }

  lemma PascalStep(a: int, b: int, fk: int, fk1: int, fm: int, fm1: int, f: int, n: int, k: int)
    requires fk == k * fk1 && fm == (n - k) * fm1
    requires a * (fk * fm1) == f && b * (fk1 * fm) == f
    ensures (a + b) * (fk * fm) == n * f
  {
    calc {
      (a + b) * (fk * fm);
      a * (fk * fm) + b * (fk * fm);
      { assert a * (fk * fm) == (n - k) * (a * (fk * fm1)); }
      (n - k) * f + b * (fk * fm);
      { assert b * (fk * fm) == k * (b * (fk1 * fm)); }
      (n - k) * f + k * f;
    }
  }

  /** `binom(n, k)` is n! / (k! (n - k)!) for 0 <= k <= n. */
  lemma {:induction false} PascalFactorial(n: nat, k: nat)
    requires k <= n
    ensures Pascal(n, k) * (Fact(k) * Fact(n - k)) == Fact(n)
  {
    if k == 0 {
    } else if k == n {
      PascalDiagonal(n);
    } else {
      PascalFactorial(n - 1, k);
      PascalFactorial(n - 1, k - 1);
      PascalStep(Pascal(n - 1, k), Pascal(n - 1, k - 1), Fact(k), Fact(k - 1), Fact(n - k), Fact(n - 1 - k),
                 Fact(n - 1), n, k);
    }
  }

  /** `binom` with its memo dict `d`, which Python shares across calls through the
      mutable default argument: here an object that outlives each call. */
  class BinomCache {
    var d: map<(int, int), int>

    /** Every cached coefficient is the one Pascal's rule gives. */
    ghost predicate Valid()
      reads this
    {
      forall key :: key in d ==> 0 <= key.0 && d[key] == Pascal(key.0, key.1)
    }

    constructor ()
      ensures d == map[] && Valid()
    {
      d := map[];
    }

    /** `binom(n, k, d)`. A negative `n` with `k != 0` recurses forever in Python,
        so `n` must be a count. */
    method Binom(n: int, k: int) returns (r: int)
      requires 0 <= n && Valid()
      modifies this
      ensures Valid() && r == Pascal(n, k)
      ensures old(d).Keys <= d.Keys
      decreases n
    {
      if k == 0 {
        return 1;
      }
      if n == 0 {
        return 0;
      }
      if (n, k) in d {
        return d[(n, k)];
      }
      var a := Binom(n - 1, k);
      var b := Binom(n - 1, k - 1);
      r := a + b;
      d := d[(n, k) := r];
    }
  }

  // ---------------------------------------------------------------------------
  // interpolator
  // ---------------------------------------------------------------------------

  /** `interpolator(xs, ys)`: a piecewise-linear map between two sorted lists. */
  datatype Interpolator = Interpolator(xs: seq<real>, ys: seq<real>) {
    /** `lookup(x)`. */
    function Lookup(x: real): Result<real> {
      Interpolate(x, xs, ys)
    }

    /** `reverse(y)`: the same routine with the lists swapped. */
    function Reverse(y: real): Result<real> {
      Interpolate(y, ys, xs)
    }
  }

  /** `y0 + frac * (y1 - y0)`. */
  function Lerp(y0: real, y1: real, frac: real): real {
    y0 + frac * (y1 - y0)
  }

  /** `_bisect(x, xs, ys)`: `ys[0]` at or below `xs[0]`, `ys[-1]` at or above
      `xs[-1]`, and otherwise the point on the segment between the knots that
      right bisection finds around `x`. Short lists raise `IndexError` and equal
      neighbouring knots `ZeroDivisionError`. */
  function Interpolate(x: real, xs: seq<real>, ys: seq<real>): (r: Result<real>)
    ensures |xs| == 0 ==> r == Err(IndexError)
    ensures 0 < |xs| && x <= xs[0] ==> r == Index(ys, 0)
    ensures 0 < |xs| && xs[0] < x && xs[|xs| - 1] <= x ==> r == Index(ys, -1)
  {
    if |xs| == 0 then Err(IndexError)
    else if x <= xs[0] then Index(ys, 0)
    else if xs[|xs| - 1] <= x then Index(ys, -1)
    else
      var i := BisectRight(xs, x);
      match Index(xs, i - 1)
      case Err(e) => Err(e)
      case Ok(x0) =>
        match Index(xs, i)
        case Err(e) => Err(e)
        case Ok(x1) =>
          if x1 - x0 == 0.0 then Err(ZeroDivisionError)
          else
            var frac := (x - x0) / (x1 - x0);
            match Index(ys, i - 1)
            case Err(e) => Err(e)
            case Ok(y0) =>
              match Index(ys, i)
              case Err(e) => Err(e)
              case Ok(y1) => Ok(Lerp(y0, y1, frac))
  }

  /** Strictly inside a sorted `xs`, bisection brackets `x` between two knots. */
  lemma InteriorSegment(x: real, xs: seq<real>)
    requires Sorted(xs) && 0 < |xs| && xs[0] < x < xs[|xs| - 1]
    ensures var i := BisectRight(xs, x); 0 < i < |xs| && xs[i - 1] <= x < xs[i]
  {
  }

  lemma PositiveProduct(a: real, b: real)
    requires 0.0 < a && 0.0 < b
    ensures 0.0 < a * b
  {
  }

  lemma FractionBelowOne(a: real, d: real)
    requires 0.0 <= a < d
    ensures 0.0 <= a / d < 1.0 && (a / d) * d == a
  {
  }

  /** A fraction `f` in [0, 1] of a non-negative width `w` is between 0 and `w`,
      and strictly below it when `f < 1` and `w > 0`. */
  lemma PartOfWidth(f: real, w: real)
    requires 0.0 <= f <= 1.0 && 0.0 <= w
    ensures 0.0 <= f * w <= w
    ensures f < 1.0 && 0.0 < w ==> f * w < w
  {
    assert w - f * w == (1.0 - f) * w;
    if f < 1.0 && 0.0 < w {
      PositiveProduct(1.0 - f, w);
    }
  }

  /** The fraction of the way from `x0` to `x1` lies in [0, 1) and puts the
      result between `y0` and `y1`. */
  lemma LerpBetween(x: real, x0: real, x1: real, y0: real, y1: real)
    requires x0 <= x < x1
    ensures var frac := (x - x0) / (x1 - x0);
            0.0 <= frac < 1.0 && Between(Lerp(y0, y1, frac), y0, y1)
  {
    var frac := (x - x0) / (x1 - x0);
    FractionBelowOne(x - x0, x1 - x0);
    if y0 <= y1 {
      PartOfWidth(frac, y1 - y0);
    } else {
      PartOfWidth(frac, y0 - y1);
      assert frac * (y1 - y0) == -(frac * (y0 - y1));
    }
  }

  predicate Between(y: real, a: real, b: real) {
    if a <= b then a <= y <= b else b <= y <= a
  }

  /** Strictly inside a sorted `xs` with one `y` per knot, interpolation succeeds
      and lands between the `y`s of the two knots around `x`. */
  lemma InterpolateBracketed(x: real, xs: seq<real>, ys: seq<real>)
    requires Sorted(xs) && |ys| == |xs| && 0 < |xs| && xs[0] < x < xs[|xs| - 1]
    ensures Interpolate(x, xs, ys).Ok?
    ensures var i := BisectRight(xs, x);
            0 < i < |xs| && xs[i - 1] <= x < xs[i] && Between(Interpolate(x, xs, ys).value, ys[i - 1], ys[i])
  {
    InteriorSegment(x, xs);
    var i := BisectRight(xs, x);
    LerpBetween(x, xs[i - 1], xs[i], ys[i - 1], ys[i]);
  }

  /** Right bisection on a strictly increasing list at a point of the segment
      starting at knot `i - 1` returns `i`. */
  lemma BisectInSegment(a: seq<real>, x: real, i: nat)
    requires StrictlyIncreasing(a) && 0 < i < |a| && a[i - 1] <= x < a[i]
    ensures BisectRight(a, x) == i
  {
    StrictlySorted(a);
    var b := BisectRight(a, x);
    if 0 < b {
      assert a[b - 1] <= x;
    }
    if b < |a| {
      assert x < a[b];
    }
  }

  lemma ProductOverWidth(f: real, w: real)
    requires w != 0.0
    ensures (f * w) / w == f
  {
  }

  /** At a knot, interpolation returns that knot's `y` exactly. */
  lemma InterpolateAtKnot(xs: seq<real>, ys: seq<real>, j: nat)
    requires StrictlyIncreasing(xs) && |ys| == |xs| && j < |xs|
    ensures Interpolate(xs[j], xs, ys) == Ok(ys[j])
  {
    var n := |xs|;
    if 0 < j < n - 1 {
      assert xs[0] < xs[j] < xs[n - 1] && xs[j] < xs[j + 1];
      BisectInSegment(xs, xs[j], j + 1);
      StrictlySorted(xs);
      InterpolateInterior(xs[j], xs, ys, j + 1);
      assert (xs[j] - xs[j]) / (xs[j + 1] - xs[j]) == 0.0;
    } else if j == n - 1 && 0 < j {
      assert xs[0] < xs[j];
    }
  }

  /** Between two knots of a sorted `xs`, interpolation is the point that
      fraction of the way along the segment. */
  lemma InterpolateInterior(x: real, xs: seq<real>, ys: seq<real>, i: nat)
    requires Sorted(xs) && |ys| == |xs| && 0 < i < |xs| && xs[i - 1] <= x < xs[i]
    requires xs[0] < x < xs[|xs| - 1] && BisectRight(xs, x) == i
    ensures Interpolate(x, xs, ys) == Ok(Lerp(ys[i - 1], ys[i], (x - xs[i - 1]) / (xs[i] - xs[i - 1])))
  {
    assert Index(xs, i - 1) == Ok(xs[i - 1]) && Index(xs, i) == Ok(xs[i]);
    assert Index(ys, i - 1) == Ok(ys[i - 1]) && Index(ys, i) == Ok(ys[i]);
  }

  /** Running the interpolation forward then back, over `xs` and `ys` that both
      strictly increase, returns to the start: `reverse(lookup(x)) == x` for
      every `x` between the first and last knot. */
  lemma ReverseInvertsLookup(xs: seq<real>, ys: seq<real>, x: real)
    requires StrictlyIncreasing(xs) && StrictlyIncreasing(ys) && |ys| == |xs| && 0 < |xs|
    requires xs[0] <= x <= xs[|xs| - 1]
    ensures Interpolator(xs, ys).Lookup(x).Ok?
    ensures Interpolator(xs, ys).Reverse(Interpolator(xs, ys).Lookup(x).value) == Ok(x)
  {
    var n := |xs|;
    StrictlySorted(xs);
    StrictlySorted(ys);
    if x == xs[0] {
    } else if x == xs[n - 1] {
      assert ys[0] < ys[n - 1];
    } else {
      ReverseInterior(xs, ys, x);
    }
  }

  lemma ReverseInterior(xs: seq<real>, ys: seq<real>, x: real)
    requires StrictlyIncreasing(xs) && StrictlyIncreasing(ys) && |ys| == |xs| && 0 < |xs|
    requires Sorted(xs) && Sorted(ys) && xs[0] < x < xs[|xs| - 1]
    ensures Interpolate(x, xs, ys).Ok?
    ensures Interpolate(Interpolate(x, xs, ys).value, ys, xs) == Ok(x)
  {
    var n := |xs|;
    InteriorSegment(x, xs);
    var i := BisectRight(xs, x);
    var x0, x1, y0, y1 := xs[i - 1], xs[i], ys[i - 1], ys[i];
    InterpolateInterior(x, xs, ys, i);
    var frac := (x - x0) / (x1 - x0);
    var y := Lerp(y0, y1, frac);
    LerpInverse(x, x0, x1, y0, y1);
    assert ys[0] < y by {
      if i == 1 {
        FractionPositive(x - x0, x1 - x0);
        assert y0 < y1;
        PositiveProduct(frac, y1 - y0);
        assert y == y0 + frac * (y1 - y0);
      } else {
        assert ys[0] < y0;
      }
    }
    assert y1 <= ys[n - 1];
    BisectInSegment(ys, y, i);
    InterpolateInterior(y, ys, xs, i);
  }

  lemma FractionPositive(a: real, d: real)
    requires 0.0 < a && 0.0 < d
    ensures 0.0 < a / d
  {
  }

  /** Within one segment the two directions undo each other: the fraction read
      back from the `y` side is the fraction put in, and it leads back to `x`. */
  lemma LerpInverse(x: real, x0: real, x1: real, y0: real, y1: real)
    requires x0 <= x < x1 && y0 < y1
    ensures var frac := (x - x0) / (x1 - x0);
            var y := Lerp(y0, y1, frac);
            y0 <= y < y1 && (y - y0) / (y1 - y0) == frac && Lerp(x0, x1, (y - y0) / (y1 - y0)) == x
  {
    var frac := (x - x0) / (x1 - x0);
    FractionBelowOne(x - x0, x1 - x0);
    PartOfWidth(frac, y1 - y0);
    var y := Lerp(y0, y1, frac);
    assert y - y0 == frac * (y1 - y0);
    ProductOverWidth(frac, y1 - y0);
  }
}
