/** Histograms and probability mass functions: a dict from values to integer
    frequencies (`Hist`) or to real weights (`Pmf`), with point updates, the
    histogram algebra, normalisation, and the free builders and combinators. */
module Pmfs {
  import opened Wrappers
  import opened DictValues
  import opened PyOps

  // ---------------------------------------------------------------------------
  // Histograms
  // ---------------------------------------------------------------------------

  /** How often each element occurs in `t`: the dict `hist_from_list(t)` builds. */
  function Counts<V>(t: seq<V>): (r: map<V, int>)
    ensures r.Keys == set x | x in t
    ensures forall x :: x in r ==> r[x] == multiset(t)[x] > 0
  {
    map x | x in t :: multiset(t)[x]
  }

  /** Counting one more element bumps exactly that element's count. */
  lemma CountsSnoc<V>(t: seq<V>, x: V)
    ensures Counts(t + [x]) == Counts(t)[x := GetInt(Counts(t), x) + 1]
  {
    assert multiset(t + [x]) == multiset(t) + multiset{x};
    var a, b := Counts(t + [x]), Counts(t)[x := GetInt(Counts(t), x) + 1];
    assert a.Keys == b.Keys;
    forall y | y in a
      ensures a[y] == b[y]
    {
    }
  }

  /** The counts of a list add up to its length. */
  lemma {:induction false} CountsTotal<V>(t: seq<V>)
    ensures TotalInt(Counts(t)) == |t|
  {
    if t == [] {
      assert Counts(t) == map[];
    } else {
      var s, x := t[..|t| - 1], t[|t| - 1];
      assert t == s + [x];
      CountsTotal(s);
      CountsSnoc(s, x);
      TotalIntUpdate(Counts(s), x, GetInt(Counts(s), x) + 1);
    }
  }

  /** The count total of `a` minus `b`, value by value: what `subtract` leaves. */
  function Difference<V>(a: map<V, int>, b: map<V, int>): (r: map<V, int>)
    ensures r.Keys == a.Keys + b.Keys
    ensures forall v :: v in r ==> r[v] == GetInt(a, v) - GetInt(b, v)
  {
    map v | v in a.Keys + b.Keys :: GetInt(a, v) - GetInt(b, v)
  }

  /** Every count of `a` is at most the count of the same value in `b`. */
  predicate SubsetOf<V>(a: map<V, int>, b: map<V, int>) {
    forall v :: v in a ==> a[v] <= GetInt(b, v)
  }

  /** Leaving one entry of `b` out changes only that entry of the difference. */
  lemma DifferenceRemove<V>(a: map<V, int>, b: map<V, int>, k: V)
    requires k in b
    ensures Difference(a, b) == Difference(a, b - {k})[k := GetInt(a, k) - b[k]]
  {
    var l, r := Difference(a, b), Difference(a, b - {k})[k := GetInt(a, k) - b[k]];
    assert l.Keys == r.Keys;
    forall v | v in l
      ensures l[v] == r[v]
    {
    }
  }

  /** A map with the keys of `a` and `b` holding their differences, once nothing of
      `b` is left to subtract, is `a - b`. */
  lemma DifferenceExt<V>(a: map<V, int>, b: map<V, int>, rest: map<V, int>, r: map<V, int>)
    requires rest == map[]
    requires r.Keys == a.Keys + (b.Keys - rest.Keys)
    requires forall v :: v in r ==> r[v] == GetInt(a, v) - (if v in rest then 0 else GetInt(b, v))
    ensures r == Difference(a, b)
  {
  }

  /** Subtracting one more entry of `b` takes that entry off the total. */
  lemma DifferenceTotalStep<V>(a: map<V, int>, b: map<V, int>, k: V)
    requires k in b
    ensures TotalInt(Difference(a, b)) == TotalInt(Difference(a, b - {k})) - b[k]
  {
    DifferenceRemove(a, b, k);
    var r' := Difference(a, b - {k});
    assert GetInt(r', k) == GetInt(a, k);
    TotalIntUpdate(r', k, GetInt(a, k) - b[k]);
  }

  /** Subtracting a histogram takes its total off the total. */
  lemma {:induction false} DifferenceTotal<V>(a: map<V, int>, b: map<V, int>)
    ensures TotalInt(Difference(a, b)) == TotalInt(a) - TotalInt(b)
    decreases |b|
  {
    if b == map[] {
      assert Difference(a, b) == a;
    } else {
      var k :| k in b;
      CardRemove(b, k);
      DifferenceTotal(a, b - {k});
      TotalIntRemove(b, k);
      DifferenceTotalStep(a, b, k);
    }
  }

  /** `a` is a subset of `b` exactly when `a - b` has no positive count. */
  lemma SubsetIffDifferenceNonPositive<V>(a: map<V, int>, b: map<V, int>)
    ensures SubsetOf(a, b) <==> forall v :: GetInt(Difference(a, b), v) <= 0 || v !in a
  {
  }

  /** `[x] * n`: `x` repeated `n` times, nothing when `n <= 0`. */
  function Repeat<V>(x: V, n: int): (r: seq<V>)
    ensures forall y :: y in r ==> y == x
    ensures multiset(r)[x] == if n > 0 then n else 0
    decreases n
  {
    if n <= 0 then [] else [x] + Repeat(x, n - 1)
  }

  /** `list(key) * n` on a key that is itself a sequence: the key's elements,
      repeated `n` times, nothing when `n <= 0`. */
  function RepeatSeq<E>(s: seq<E>, n: int): (r: seq<E>)
    ensures forall e :: e in r ==> e in s
    decreases n
  {
    if n <= 0 then [] else s + RepeatSeq(s, n - 1)
  }

  /** `Hist.to_list` as written, over the histogram's items in iteration order:
      each key is expanded into its own elements (`list(key) * value`), so the
      result holds elements of the keys rather than the keys. */
  function ExpandAsWritten<E>(items: seq<(seq<E>, int)>): (r: seq<E>)
    ensures forall e :: e in r ==> exists i :: 0 <= i < |items| && e in items[i].0
  {
    if items == [] then []
    else
      var n := |items| - 1;
      var r := ExpandAsWritten(items[..n]) + RepeatSeq(items[n].0, items[n].1);
      assert forall e :: e in r ==> e in ExpandAsWritten(items[..n]) || e in items[n].0;
      r
  }

  /** A list holding the one string "ab" gives a histogram with the one key "ab"
      counted once, yet `to_list` as written returns the two characters of that
      key: the result is neither the original list nor of its length. */
  lemma ToListAsWrittenNotInverse()
    ensures Counts(["ab"]) == map["ab" := 1]
    ensures ExpandAsWritten([("ab", 1)]) == ['a', 'b']
    ensures |ExpandAsWritten([("ab", 1)])| != |["ab"]|
  {
    assert multiset(["ab"])["ab"] == 1;
    assert ExpandAsWritten([("ab", 1)]) == ExpandAsWritten<char>([]) + RepeatSeq("ab", 1);
  }

  /** One step of `subtract`: taking the count of `v` off moves `v` from the
      pending items to the done ones. */
  lemma SubtractStep<V>(d0: map<V, int>, items: map<V, int>, rest: map<V, int>, d: map<V, int>, v: V)
    requires v in rest && rest.Keys <= items.Keys && forall u :: u in rest ==> rest[u] == items[u]
    requires d.Keys == d0.Keys + (items.Keys - rest.Keys)
    requires forall u :: u in d ==> d[u] == GetInt(d0, u) - (if u in rest then 0 else GetInt(items, u))
    ensures var d1, rest1 := d[v := GetInt(d, v) - rest[v]], rest - {v};
            && d1.Keys == d0.Keys + (items.Keys - rest1.Keys)
            && forall u :: u in d1 ==> d1[u] == GetInt(d0, u) - (if u in rest1 then 0 else GetInt(items, u))
  {
    assert GetInt(d, v) == GetInt(d0, v);
  }

  /** A histogram: a dict from values to integer frequencies, with a name. */
  class Hist<V(==)> {
    var d: map<V, int>
    var name: string

    constructor (d: map<V, int>, name: string)
      ensures this.d == d && this.name == name
    {
      this.d := d;
      this.name := name;
    }

    /** `freq(x)`: the count of `x`; a value never counted has count 0 and
        asking for it never fails. */
    function Freq(x: V): (n: int)
      reads this
      ensures x in d ==> n == d[x]
      ensures x !in d ==> n == 0
    {
      GetInt(d, x)
    }

    /** `total()`: the sum of all counts. */
    ghost function Total(): int
      reads this
    {
      TotalInt(d)
    }

    /** `set(x, y)`: overwrites the count of `x`; nothing else changes. */
    method Set(x: V, y: int := 0)
      modifies this
      ensures d == old(d)[x := y] && name == old(name)
      ensures Total() == old(Total()) - old(Freq(x)) + y
    {
      TotalIntUpdate(d, x, y);
      d := d[x := y];
    }

    /** `incr(x, term)`: adds `term` to the count of `x`, an absent `x` counting
        as 0; nothing else changes. */
    method Incr(x: V, term: int := 1)
      modifies this
      ensures d == old(d)[x := old(Freq(x)) + term] && name == old(name)
      ensures Total() == old(Total()) + term
    {
      TotalIntUpdate(d, x, GetInt(d, x) + term);
      d := d[x := GetInt(d, x) + term];
    }

    /** `mult(x, factor)`: multiplies the count of `x` by `factor`, an absent `x`
        counting as 0 (and so becoming a key with count 0). */
    method Mult(x: V, factor: int)
      modifies this
      ensures d == old(d)[x := old(Freq(x)) * factor] && name == old(name)
      ensures Total() == old(Total()) - old(Freq(x)) + old(Freq(x)) * factor
    {
      TotalIntUpdate(d, x, GetInt(d, x) * factor);
      d := d[x := GetInt(d, x) * factor];
    }

    /** `remove(x)`: deletes exactly the key `x`; `KeyError` when it is absent. */
    method Remove(x: V) returns (o: Outcome)
      modifies this
      ensures x in old(d) ==> o == Pass && d == old(d) - {x} && Total() == old(Total()) - old(d)[x]
      ensures x !in old(d) ==> o == Fail(KeyError) && d == old(d)
      ensures name == old(name)
    {
      if x !in d {
        return Fail(KeyError);
      }
      TotalIntRemove(d, x);
      d := d - {x};
      o := Pass;
    }

    /** `maxlike()`: the largest count; `ValueError` on an empty histogram. */
    method MaxLike() returns (r: Result<int>)
      ensures r.Err? <==> d == map[]
      ensures r.Err? ==> r.error == ValueError
      ensures r.Ok? ==> r.value in d.Values && forall x :: x in d ==> d[x] <= r.value
    {
      var m := MaxValue(AsWeights(d));
      if m.Err? {
        return Err(m.error);
      }
      ghost var k :| k in d && AsWeights(d)[k] == m.value;
      assert m.value.Floor == d[k];
      r := Ok(m.value.Floor);
    }

    /** `copy(name)`: a new histogram with the same counts, named `name` or, when
        none is given, after this one. */
    method Copy(name: Option<string> := None) returns (h: Hist<V>)
      ensures fresh(h) && h.d == d
      ensures h.name == if name.Some? then name.value else this.name
    {
      var nm := if name.Some? then name.value else this.name;
      h := new Hist(d, nm);
    }

    /** `is_subset(other)`: true exactly when no value is counted more often here
        than in `other`. */
    method IsSubset(other: Hist<V>) returns (b: bool)
      ensures b <==> SubsetOf(d, other.d)
    {
      var rest := d;
      while rest != map[]
        invariant rest.Keys <= d.Keys
        invariant forall v :: v in d && v !in rest ==> d[v] <= other.Freq(v)
        invariant forall v :: v in rest ==> rest[v] == d[v]
        decreases |rest|
      {
        var v :| v in rest;
        CardRemove(rest, v);
        if rest[v] > other.Freq(v) {
          return false;
        }
        rest := rest - {v};
      }
      return true;
    }

    /** `subtract(other)`: takes every count of `other` off the count of the same
        value here. Values only `other` has appear with negative counts. The items
        of `other` are read up front, so subtracting a histogram from itself
        leaves every count 0. */
    method Subtract(other: Hist<V>)
      modifies this
      ensures d == Difference(old(d), old(other.d)) && name == old(name)
      ensures Total() == old(Total()) - old(other.Total())
    {
      var items := other.d;
      ghost var d0 := d;
      var rest := items;
      while rest != map[]
        invariant rest.Keys <= items.Keys
        invariant forall v :: v in rest ==> rest[v] == items[v]
        invariant d.Keys == d0.Keys + (items.Keys - rest.Keys)
        invariant forall v :: v in d ==> d[v] == GetInt(d0, v) - (if v in rest then 0 else GetInt(items, v))
        invariant name == old(name)
        decreases |rest|
      {
        var v :| v in rest;
        CardRemove(rest, v);
        SubtractStep(d0, items, rest, d, v);
        Incr(v, -rest[v]);
        rest := rest - {v};
      }
      DifferenceExt(d0, items, rest, d);
      DifferenceTotal(d0, items);
    }

    /** `to_list()` as evidently intended: every value repeated as often as it is
        counted (`[key] * value`), values with a count <= 0 left out. */
    method ToList() returns (r: seq<V>)
      ensures forall v :: multiset(r)[v] == if Freq(v) > 0 then Freq(v) else 0
    {
      r := [];
      var rest := d;
      while rest != map[]
        invariant rest.Keys <= d.Keys
        invariant forall v :: v in rest ==> rest[v] == d[v]
        invariant forall v :: multiset(r)[v] == if v in d && v !in rest && d[v] > 0 then d[v] else 0
        decreases |rest|
      {
        var v :| v in rest;
        CardRemove(rest, v);
        var more := Repeat(v, rest[v]);
        forall y | y != v
          ensures multiset(more)[y] == 0
        {
          assert y !in more;
        }
        r := r + more;
        rest := rest - {v};
      }
    }
  }

  /** `hist_from_list(t, name)`: counts every element of `t`, in order. */
  method HistFromList<V(==)>(t: seq<V>, name: string := "") returns (h: Hist<V>)
    ensures fresh(h) && h.d == Counts(t) && h.name == name
    ensures h.Total() == |t|
  {
    h := new Hist(map[], name);
    for i := 0 to |t|
      invariant h.d == Counts(t[..i]) && h.name == name
    {
      CountNext(h, t, i);
    }
    assert t[..|t|] == t;
    CountsTotal(t);
  }

  /** One step of `hist_from_list`: `hist.incr(t[i])`. */
  method CountNext<V(==)>(h: Hist<V>, t: seq<V>, i: nat)
    requires i < |t| && h.d == Counts(t[..i])
    modifies h
    ensures h.d == Counts(t[..i + 1]) && h.name == old(h.name)
  {
    CountsPrefix(t, i);
    assert h.Freq(t[i]) == GetInt(h.d, t[i]);
    h.Incr(t[i]);
  }

  /** Counting the prefix one element further bumps that element's count. */
  lemma CountsPrefix<V>(t: seq<V>, i: nat)
    requires i < |t|
    ensures Counts(t[..i + 1]) == Counts(t[..i])[t[i] := GetInt(Counts(t[..i]), t[i]) + 1]
  {
    assert t[..i + 1] == t[..i] + [t[i]];
    CountsSnoc(t[..i], t[i]);
  }

  /** Building a histogram from a list and listing it again gives back the same
      elements, each as often as before (in some order). */
  method ListRoundTrip<V(==)>(t: seq<V>) returns (r: seq<V>)
    ensures multiset(r) == multiset(t)
  {
    var h := HistFromList(t);
    r := h.ToList();
    forall v
      ensures multiset(r)[v] == multiset(t)[v]
    {
      if v in t {
        assert v in Counts(t);
      }
    }
  }

  // ---------------------------------------------------------------------------
  // Probability mass functions
  // ---------------------------------------------------------------------------

  /** The weights of `d` scaled so that they add up to `fraction`: what
      `normalize(fraction)` leaves when the total is not zero. */
  ghost function Normalized<V>(d: map<V, real>, fraction: real): (r: map<V, real>)
    requires Total(d) != 0.0
    ensures r.Keys == d.Keys
  {
    Scale(d, fraction / Total(d))
  }

  /** A map with the keys of `d` holding its weights times `c`, once no key is
      left to scale, is `Scale(d, c)`. */
  lemma ScaleExt<V>(d: map<V, real>, c: real, rest: set<V>, r: map<V, real>)
    requires rest == {}
    requires r.Keys == d.Keys
    requires forall x :: x in r ==> r[x] == if x in rest then d[x] else d[x] * c
    ensures r == Scale(d, c)
  {
  }

  lemma MulDivCancel(t: real, f: real)
    requires t != 0.0
    ensures Mul(t, f / t) == f
  {
  }

  /** Normalising to `fraction` leaves a total of exactly `fraction`. */
  lemma NormalizedTotal<V>(d: map<V, real>, fraction: real)
    requires Total(d) != 0.0
    ensures Total(Normalized(d, fraction)) == fraction
  {
    var c := fraction / Total(d);
    TotalScaled(d, Normalized(d, fraction), c);
    MulDivCancel(Total(d), fraction);
  }

  /** Normalising to the same non-zero fraction twice changes nothing the second
      time. */
  lemma NormalizeIdempotent<V>(d: map<V, real>, fraction: real)
    requires Total(d) != 0.0 && fraction != 0.0
    ensures Total(Normalized(d, fraction)) != 0.0
    ensures Normalized(Normalized(d, fraction), fraction) == Normalized(d, fraction)
  {
    NormalizedTotal(d, fraction);
    var n := Normalized(d, fraction);
    assert fraction / Total(n) == 1.0;
    assert Scale(n, 1.0) == n;
  }

  /** Normalising to 0 leaves a total of 0, so normalising again raises. */
  lemma NormalizeToZeroThenFails<V>(d: map<V, real>)
    requires Total(d) != 0.0
    ensures Total(Normalized(d, 0.0)) == 0.0
  {
    NormalizedTotal(d, 0.0);
  }

  /** The items of `d` listed once each, in some iteration order, with their
      weights. */
  predicate Enumerates<V>(items: seq<(V, real)>, d: map<V, real>) {
    && |items| == |d|
    && (forall i :: 0 <= i < |items| ==> items[i].0 in d && d[items[i].0] == items[i].1)
    && (forall i, j :: 0 <= i < j < |items| ==> items[i].0 != items[j].0)
  }

  /** The sum of the first `n` weights of `items`. */
  function Running<V>(items: seq<(V, real)>, n: nat): real
    requires n <= |items|
  {
    if n == 0 then 0.0 else Running(items, n - 1) + items[n - 1].1
  }

  /** Listing a dict's items and adding up their weights gives its total. */
  lemma {:induction false} EnumerationTotal<V>(items: seq<(V, real)>, d: map<V, real>)
    requires Enumerates(items, d)
    ensures Running(items, |items|) == Total(d)
    decreases |items|
  {
    if items != [] {
      var n := |items| - 1;
      var k := items[n].0;
      var init := items[..n];
      CardRemove(d, k);
      assert Enumerates(init, d - {k}) by {
        forall i | 0 <= i < n
          ensures init[i].0 in d - {k}
        {
          assert init[i] == items[i];
        }
      }
      EnumerationTotal(init, d - {k});
      assert Running(init, n) == Running(items, n) by {
        RunningPrefix(items, n, n);
      }
      TotalRemove(d, k);
    } else {
      assert d == map[];
    }
  }

  /** A running sum only looks at the items it adds up. */
  lemma {:induction false} RunningPrefix<V>(items: seq<(V, real)>, n: nat, m: nat)
    requires m <= n <= |items|
    ensures Running(items[..n], m) == Running(items, m)
    decreases m
  {
    if m > 0 {
      RunningPrefix(items, n, m - 1);
    }
  }

  /** When the draw is at most the total, some running sum reaches it, so the
      selection in `random` never falls through to its `assert False`. */
  lemma SelectionReachesTarget<V>(items: seq<(V, real)>, d: map<V, real>, target: real)
    requires Enumerates(items, d) && d != map[] && target <= Total(d)
    ensures exists n :: 1 <= n <= |items| && Running(items, n) >= target
  {
    EnumerationTotal(items, d);
    assert |items| > 0;
    assert Running(items, |items|) >= target;
  }

  /** A probability mass function: a dict from values to real weights, with a
      name. The weights need not add up to 1. */
  class Pmf<V(==)> {
    var d: map<V, real>
    var name: string

    constructor (d: map<V, real>, name: string)
      ensures this.d == d && this.name == name
    {
      this.d := d;
      this.name := name;
    }

    /** `prob(x, default)`: the weight of `x`, or `default` when `x` is absent;
        never fails. */
    function Prob(x: V, default: real := 0.0): (p: real)
      reads this
      ensures x in d ==> p == d[x]
      ensures x !in d ==> p == default
    {
      if x in d then d[x] else default
    }

    /** `total()`: the sum of all weights. */
    ghost function Total(): real
      reads this
    {
      DictValues.Total(d)
    }

    /** `set(x, y)`: overwrites the weight of `x`; nothing else changes. */
    method Set(x: V, y: real := 0.0)
      modifies this
      ensures d == old(d)[x := y] && name == old(name)
      ensures Total() == old(Total()) - old(Prob(x)) + y
    {
      TotalUpdate(d, x, y);
      d := d[x := y];
    }

    /** `incr(x, term)`: adds `term` to the weight of `x`, an absent `x` counting
        as 0; nothing else changes. */
    method Incr(x: V, term: real := 1.0)
      modifies this
      ensures d == old(d)[x := old(Prob(x)) + term] && name == old(name)
      ensures Total() == old(Total()) + term
    {
      TotalUpdate(d, x, Get(d, x) + term);
      d := d[x := Get(d, x) + term];
    }

    /** `mult(x, factor)`: multiplies the weight of `x` by `factor`, an absent
        `x` counting as 0 (and so becoming a key with weight 0). */
    method Mult(x: V, factor: real)
      modifies this
      ensures d == old(d)[x := old(Prob(x)) * factor] && name == old(name)
      ensures Total() == old(Total()) - old(Prob(x)) + old(Prob(x)) * factor
    {
      var p := Get(d, x);
      assert p == Prob(x);
      var v := p * factor;
      assert v == Prob(x) * factor;
      TotalUpdate(d, x, v);
      d := d[x := v];
    }

    /** `remove(x)`: deletes exactly the key `x`; `KeyError` when it is absent. */
    method Remove(x: V) returns (o: Outcome)
      modifies this
      ensures x in old(d) ==> o == Pass && d == old(d) - {x} && Total() == old(Total()) - old(d)[x]
      ensures x !in old(d) ==> o == Fail(KeyError) && d == old(d)
      ensures name == old(name)
    {
      if x !in d {
        return Fail(KeyError);
      }
      TotalRemove(d, x);
      d := d - {x};
      o := Pass;
    }

    /** `maxlike()`: the largest weight; `ValueError` on an empty Pmf. */
    method MaxLike() returns (r: Result<real>)
      ensures r.Err? <==> d == map[]
      ensures r.Err? ==> r.error == ValueError
      ensures r.Ok? ==> r.value in d.Values && forall x :: x in d ==> d[x] <= r.value
    {
      r := MaxValue(d);
    }

    /** `copy(name)`: a new Pmf with the same weights, named `name` or, when none
        is given, after this one. */
    method Copy(name: Option<string> := None) returns (p: Pmf<V>)
      ensures fresh(p) && p.d == d
      ensures p.name == if name.Some? then name.value else this.name
    {
      var nm := if name.Some? then name.value else this.name;
      p := new Pmf(d, nm);
    }

    /** `normalize(fraction)`: `ValueError` when the total is 0, leaving the Pmf
        as it was; otherwise every weight is multiplied by the same factor, the
        keys stay, and the weights add up to `fraction`. */
    method Normalize(fraction: real := 1.0) returns (o: Outcome)
      modifies this
      ensures old(Total()) == 0.0 ==> o == Fail(ValueError) && d == old(d)
      ensures old(Total()) != 0.0 ==> o == Pass && d == Normalized(old(d), fraction) && Total() == fraction
      ensures name == old(name)
    {
      var total := SumValues(d);
      if total == 0.0 {
        return Fail(ValueError);
      }
      var factor := fraction / total;
      ghost var d0 := d;
      var rest := d.Keys;
      while rest != {}
        invariant rest <= d0.Keys && d.Keys == d0.Keys
        invariant forall x :: x in d ==> d[x] == if x in rest then d0[x] else d0[x] * factor
        invariant name == old(name)
        decreases rest
      {
        var x :| x in rest;
        d := d[x := d[x] * factor];
        rest := rest - {x};
      }
      ScaleExt(d0, factor, rest, d);
      NormalizedTotal(d0, fraction);
      o := Pass;
    }

    /** The selection rule of `random()`, with the uniform draw `target` passed
        in and the dict's iteration order given by `items`: `ValueError` on an
        empty Pmf; otherwise the first value whose running sum of weights reaches
        `target`; `AssertionError` when no running sum does. */
    method Random(items: seq<(V, real)>, target: real) returns (r: Result<V>)
      requires Enumerates(items, d)
      ensures d == map[] ==> r == Err(ValueError)
      ensures r.Ok? ==> exists i :: 0 <= i < |items| && items[i].0 == r.value
                          && Running(items, i + 1) >= target
                          && forall n :: 1 <= n <= i ==> Running(items, n) < target
      ensures d != map[] ==> (r == Err(AssertionError) <==> forall n :: 1 <= n <= |items| ==> Running(items, n) < target)
      ensures d != map[] ==> r != Err(ValueError)
    {
      if |d| == 0 {
        return Err(ValueError);
      }
      var total := 0.0;
      for i := 0 to |items|
        invariant total == Running(items, i)
        invariant forall n :: 1 <= n <= i ==> Running(items, n) < target
      {
        total := total + items[i].1;
        if total >= target {
          assert Running(items, i + 1) == total;
          return Ok(items[i].0);
        }
      }
      return Err(AssertionError);
    }
  }

  // ---------------------------------------------------------------------------
  // Mean, variance and ranges of a Pmf over numbers
  // ---------------------------------------------------------------------------

  /** Each weight times its value: the terms `p * x` the mean adds up. */
  function WeightedValues(d: map<real, real>): (r: map<real, real>)
    ensures r.Keys == d.Keys
    ensures forall x :: x in d ==> r[x] == Mul(d[x], x)
  {
    map x | x in d :: Mul(d[x], x)
  }

  /** `a ** 2`. */
  function Square(a: real): real {
    a * a
  }

  /** Each weight times the squared distance of its value from `mu`: the terms
      `p * (x - mu) ** 2` the variance adds up. */
  function WeightedSquares(d: map<real, real>, mu: real): (r: map<real, real>)
    ensures r.Keys == d.Keys
    ensures forall x :: x in d ==> r[x] == Mul(d[x], Square(x - mu))
  {
    map x | x in d :: Mul(d[x], Square(x - mu))
  }

  lemma WeightedValuesRemove(d: map<real, real>, x: real)
    requires x in d
    ensures Total(WeightedValues(d)) == Mul(d[x], x) + Total(WeightedValues(d - {x}))
  {
    TotalRemove(WeightedValues(d), x);
    var l, r := WeightedValues(d) - {x}, WeightedValues(d - {x});
    assert l.Keys == r.Keys;
    assert forall y :: y in l ==> l[y] == r[y];
    assert l == r;
  }

  lemma WeightedSquaresRemove(d: map<real, real>, mu: real, x: real)
    requires x in d
    ensures Total(WeightedSquares(d, mu)) == Mul(d[x], Square(x - mu)) + Total(WeightedSquares(d - {x}, mu))
  {
    TotalRemove(WeightedSquares(d, mu), x);
    var l, r := WeightedSquares(d, mu) - {x}, WeightedSquares(d - {x}, mu);
    assert l.Keys == r.Keys;
    assert forall y :: y in l ==> l[y] == r[y];
    assert l == r;
  }

  /** `pmf.mean()`: the sum of `p * x` over the Pmf's items. */
  method Mean(pmf: Pmf<real>) returns (mu: real)
    ensures mu == Total(WeightedValues(pmf.d))
  {
    mu := 0.0;
    var rest := pmf.d;
    while rest != map[]
      invariant mu + Total(WeightedValues(rest)) == Total(WeightedValues(pmf.d))
      decreases |rest|
    {
      var x :| x in rest;
      CardRemove(rest, x);
      WeightedValuesRemove(rest, x);
      mu := mu + Mul(rest[x], x);
      rest := rest - {x};
    }
    assert WeightedValues(rest) == map[];
  }

  /** `pmf.variance(mu)`: the sum of `p * (x - mu) ** 2`, around the given `mu`
      or, when none is given, around the mean. */
  method Variance(pmf: Pmf<real>, mu: Option<real> := None) returns (v: real)
    ensures v == Total(WeightedSquares(pmf.d, if mu.Some? then mu.value else Total(WeightedValues(pmf.d))))
  {
    var m: real;
    if mu.Some? {
      m := mu.value;
    } else {
      m := Mean(pmf);
    }
    v := 0.0;
    var rest := pmf.d;
    while rest != map[]
      invariant v + Total(WeightedSquares(rest, m)) == Total(WeightedSquares(pmf.d, m))
      decreases |rest|
    {
      var x :| x in rest;
      CardRemove(rest, x);
      WeightedSquaresRemove(rest, m, x);
      v := v + Mul(rest[x], Square(x - m));
      rest := rest - {x};
    }
    assert WeightedSquares(rest, m) == map[];
  }

  /** With non-negative weights adding up to 1, the mean lies between the
      smallest and the largest value. */
  lemma MeanBetweenBounds(d: map<real, real>, lo: real, hi: real)
    requires forall x :: x in d ==> d[x] >= 0.0 && lo <= x <= hi
    requires Total(d) == 1.0
    ensures lo <= Total(WeightedValues(d)) <= hi
  {
    var w, a, b := WeightedValues(d), Scale(d, lo), Scale(d, hi);
    TermsBetween(d, lo, hi);
    TotalMonotone(a, w);
    TotalMonotone(w, b);
    UnitTotalScaled(d, lo);
    UnitTotalScaled(d, hi);
  }

  /** Scaling weights that add up to 1 by `c` gives weights that add up to `c`. */
  lemma UnitTotalScaled<V>(d: map<V, real>, c: real)
    requires Total(d) == 1.0
    ensures Total(Scale(d, c)) == c
  {
    TotalScaled(d, Scale(d, c), c);
  }

  lemma TermsBetween(d: map<real, real>, lo: real, hi: real)
    requires forall x :: x in d ==> d[x] >= 0.0 && lo <= x <= hi
    ensures forall x :: x in d ==> Scale(d, lo)[x] <= WeightedValues(d)[x] <= Scale(d, hi)[x]
  {
    forall x | x in d
      ensures Scale(d, lo)[x] <= WeightedValues(d)[x] <= Scale(d, hi)[x]
    {
      var p := d[x];
      assert Scale(d, lo)[x] == p * lo && Scale(d, hi)[x] == p * hi;
      assert WeightedValues(d)[x] == Mul(p, x);
      ScaleBetween(p, lo, x, hi);
    }
  }

  lemma ScaleBetween(p: real, lo: real, x: real, hi: real)
    requires p >= 0.0 && lo <= x <= hi
    ensures p * lo <= Mul(p, x) <= p * hi
  {
  }

  /** With non-negative weights the variance around any point is non-negative. */
  lemma VarianceNonNegative(d: map<real, real>, mu: real)
    requires forall x :: x in d ==> d[x] >= 0.0
    ensures Total(WeightedSquares(d, mu)) >= 0.0
  {
    var w := WeightedSquares(d, mu);
    forall x | x in w
      ensures w[x] >= 0.0
    {
      WeightedSquareNonNegative(d[x], x - mu);
    }
    TotalNonNegative(w);
  }

  lemma WeightedSquareNonNegative(p: real, dx: real)
    requires p >= 0.0
    ensures Mul(p, Square(dx)) >= 0.0
  {
  }

  /** The entries of `d` whose value is a whole number between `low` and `high`,
      inclusive: the ones `prob_range(pmf, low, high)` looks up. */
  function InRange(d: map<real, real>, low: int, high: int): (r: map<real, real>)
    ensures forall x :: x in r <==> x in d && x == x.Floor as real && low <= x.Floor <= high
    ensures forall x :: x in r ==> r[x] == d[x]
  {
    map x | x in d && x == x.Floor as real && low <= x.Floor <= high :: d[x]
  }

  /** Widening the range by one whole number adds that number's weight. */
  lemma InRangeStep(d: map<real, real>, low: int, w: int)
    requires low <= w
    ensures Total(InRange(d, low, w)) == Total(InRange(d, low, w - 1)) + Get(d, w as real)
  {
    var wide, narrow := InRange(d, low, w), InRange(d, low, w - 1);
    if w as real in d {
      assert wide == narrow[w as real := d[w as real]];
      assert w as real !in narrow;
      TotalUpdate(narrow, w as real, d[w as real]);
    } else {
      assert wide == narrow;
    }
  }

  /** `prob_range(pmf, low, high)`: the total weight of the whole numbers from
      `low` to `high`, inclusive, each looked up with `prob` (0 when absent). */
  method ProbRange(pmf: Pmf<real>, low: int, high: int) returns (total: real)
    ensures total == Total(InRange(pmf.d, low, high))
  {
    total := 0.0;
    var week := low;
    assert InRange(pmf.d, low, low - 1) == map[];
    while week <= high
      invariant week <= high + 1 || week == low
      invariant total == Total(InRange(pmf.d, low, week - 1))
      decreases high - week
    {
      InRangeStep(pmf.d, low, week);
      total := total + pmf.Prob(week as real);
      week := week + 1;
    }
    if week <= high + 1 {
      assert week == high + 1;
    } else {
      assert InRange(pmf.d, low, high) == map[];
    }
  }

  /** With non-negative weights, the weight of a range lies between 0 and the
      total weight. */
  lemma ProbRangeBounds(d: map<real, real>, low: int, high: int)
    requires forall x :: x in d ==> d[x] >= 0.0
    ensures 0.0 <= Total(InRange(d, low, high)) <= Total(d)
  {
    TotalNonNegative(InRange(d, low, high));
    TotalSubmap(InRange(d, low, high), d);
  }

  // ---------------------------------------------------------------------------
  // Rendering
  // ---------------------------------------------------------------------------

  /** The smallest number in a non-empty finite set. */
  function Least(s: set<real>): (m: real)
    requires s != {}
    ensures m in s && forall y :: y in s ==> m <= y
  {
    LeastExists(s);
    var m :| m in s && forall y :: y in s ==> m <= y;
    m
  }

  lemma {:induction false} LeastExists(s: set<real>)
    requires s != {}
    ensures exists m :: m in s && forall y :: y in s ==> m <= y
    decreases |s|
  {
    var x := PickElem(s);
    if s == {x} {
      assert forall y :: y in s ==> x <= y;
    } else {
      var s' := s - {x};
      LeastExists(s');
      var m :| m in s' && forall y :: y in s' ==> m <= y;
      var least := if x < m then x else m;
      forall y | y in s ensures least <= y { if y != x { assert y in s'; } }
      assert least in s;
    }
  }

  /** The numbers of `s` in ascending order. */
  function SortedKeys(s: set<real>): (r: seq<real>)
    ensures |r| == |s|
    ensures forall x :: x in r <==> x in s
    ensures StrictlyIncreasing(r)
    decreases |s|
  {
    if s == {} then []
    else
      var m := Least(s);
      var rest := SortedKeys(s - {m});
      SortedKeysStep(s, m, rest);
      [m] + rest
  }

  /** Putting the least number in front of the others in ascending order gives
      all of them in ascending order. */
  lemma SortedKeysStep(s: set<real>, m: real, rest: seq<real>)
    requires m in s && forall y :: y in s ==> m <= y
    requires |rest| == |s - {m}| && StrictlyIncreasing(rest)
    requires forall x :: x in rest <==> x in s - {m}
    ensures |[m] + rest| == |s|
    ensures forall x :: x in [m] + rest <==> x in s
    ensures StrictlyIncreasing([m] + rest)
  {
    var r := [m] + rest;
    forall i | 0 <= i < |rest|
      ensures m < rest[i]
    {
      var y := rest[i];
      assert y in rest;
      assert y in s - {m};
      assert y in s && y != m;
    }
    forall i, j | 0 <= i < j < |r|
      ensures r[i] < r[j]
    {
      assert r[j] == rest[j - 1];
      if 0 < i {
        assert r[i] == rest[i - 1];
      }
    }
  }

  /** `xs, ps = render()` on a Hist or Pmf over numbers: the values in ascending
      order and, at the same positions, their counts or weights. With no items,
      `zip(*[])` is a single empty list, so unpacking it into two lists raises
      `ValueError`. */
  function Render<W>(d: map<real, W>): (r: Result<(seq<real>, seq<W>)>)
    ensures r.Err? <==> d == map[]
    ensures r.Err? ==> r.error == ValueError
    ensures r.Ok? ==> |r.value.0| == |r.value.1| == |d|
    ensures r.Ok? ==> StrictlyIncreasing(r.value.0)
    ensures r.Ok? ==> forall x :: x in d <==> x in r.value.0
    ensures r.Ok? ==> forall i :: 0 <= i < |r.value.0| ==> r.value.0[i] in d && r.value.1[i] == d[r.value.0[i]]
  {
    if d == map[] then Err(ValueError)
    else
      var xs := SortedKeys(d.Keys);
      assert forall i :: 0 <= i < |xs| ==> xs[i] in d.Keys;
      Ok((xs, seq(|xs|, i requires 0 <= i < |xs| => d[xs[i]])))
  }

  // ---------------------------------------------------------------------------
  // Builders and combinators
  // ---------------------------------------------------------------------------

  /** A dict of counts read as weights. */
  function AsWeights<V>(d: map<V, int>): (r: map<V, real>)
    ensures r.Keys == d.Keys
    ensures forall x :: x in d ==> r[x] == d[x] as real
  {
    map x | x in d :: d[x] as real
  }

  /** Counts read as weights keep their total. */
  lemma {:induction false} AsWeightsTotal<V>(d: map<V, int>)
    ensures Total(AsWeights(d)) == TotalInt(d) as real
    decreases |d|
  {
    if d != map[] {
      var k := Pick(d);
      CardRemove(d, k);
      AsWeightsTotal(d - {k});
      TotalRemove(AsWeights(d), k);
      TotalIntRemove(d, k);
      var l, r := AsWeights(d) - {k}, AsWeights(d - {k});
      assert l.Keys == r.Keys;
      assert l == r;
    } else {
      assert AsWeights(d) == map[];
    }
  }

  /** `pmf_from_hist(hist, name)`: a Pmf with the histogram's counts scaled to add
      up to 1, named `name` or after the histogram; `ValueError` when the counts
      add up to 0. The histogram is left as it was. */
  method PmfFromHist<V(==)>(hist: Hist<V>, name: Option<string> := None) returns (r: Result<Pmf<V>>)
    ensures hist.Total() == 0 <==> Total(AsWeights(hist.d)) == 0.0
    ensures hist.Total() == 0 ==> r == Err(ValueError)
    ensures Total(AsWeights(hist.d)) != 0.0 ==>
              (r.Ok? && fresh(r.value)
               && r.value.d == Normalized(AsWeights(hist.d), 1.0) && r.value.Total() == 1.0
               && r.value.name == if name.Some? then name.value else hist.name)
  {
    var nm := if name.Some? then name.value else hist.name;
    var pmf := new Pmf(AsWeights(hist.d), nm);
    AsWeightsTotal(hist.d);
    var o := pmf.Normalize();
    if o.Fail? {
      return Err(o.error);
    }
    return Ok(pmf);
  }

  /** `pmf_from_dict(d, name)`: a Pmf with the weights of `d` scaled to add up to
      1; `ValueError` when they add up to 0. */
  method PmfFromDict<V(==)>(d: map<V, real>, name: string := "") returns (r: Result<Pmf<V>>)
    ensures Total(d) == 0.0 ==> r == Err(ValueError)
    ensures Total(d) != 0.0 ==>
              (r.Ok? && fresh(r.value)
               && r.value.d == Normalized(d, 1.0) && r.value.Total() == 1.0 && r.value.name == name)
  {
    var pmf := new Pmf(d, name);
    var o := pmf.Normalize();
    if o.Fail? {
      return Err(o.error);
    }
    return Ok(pmf);
  }

  /** The counts of a list, as weights: one key per distinct element, holding its
      number of occurrences, and the length as total. */
  lemma ListWeights<V>(t: seq<V>)
    ensures AsWeights(Counts(t)).Keys == set x | x in t
    ensures forall x :: x in t ==> AsWeights(Counts(t))[x] == multiset(t)[x] as real
    ensures Total(AsWeights(Counts(t))) == |t| as real
  {
    CountsTotal(t);
    AsWeightsTotal(Counts(t));
  }

  /** The Pmf of a non-empty list gives each distinct element its share of the
      list: its number of occurrences over the length. */
  lemma ListProbabilities<V>(t: seq<V>)
    requires |t| > 0
    ensures Total(AsWeights(Counts(t))) != 0.0
    ensures Normalized(AsWeights(Counts(t)), 1.0).Keys == set x | x in t
    ensures forall x :: x in t ==>
              Normalized(AsWeights(Counts(t)), 1.0)[x] == multiset(t)[x] as real / |t| as real
  {
    ListWeights(t);
    NormalizedShares(AsWeights(Counts(t)), |t| as real);
  }

  /** Normalizing to 1 divides every weight by the total. */
  lemma NormalizedShares<V>(d: map<V, real>, total: real)
    requires Total(d) == total && total != 0.0
    ensures forall x :: x in d ==> Normalized(d, 1.0)[x] == d[x] / total
  {
    var p := Normalized(d, 1.0);
    assert p == Scale(d, 1.0 / total);
    forall x | x in d
      ensures p[x] == d[x] / total
    {
      ShareOfTotal(d[x], total);
    }
  }

  lemma ShareOfTotal(a: real, n: real)
    requires n != 0.0
    ensures a * (1.0 / n) == a / n
  {
  }

  /** `pmf_from_list(t, name)`: the histogram of `t` made into a Pmf; each
      distinct element gets its number of occurrences over the length of `t`.
      `ValueError` on an empty list. */
  method PmfFromList<V(==)>(t: seq<V>, name: string := "") returns (r: Result<Pmf<V>>)
    ensures |t| == 0 ==> r == Err(ValueError)
    ensures |t| > 0 ==>
              (r.Ok? && fresh(r.value) && r.value.name == name
               && r.value.d.Keys == (set x | x in t)
               && forall x :: x in t ==> r.value.d[x] == multiset(t)[x] as real / |t| as real)
  {
    var hist := HistFromList(t, name);
    r := PmfFromHist(hist);
    if |t| > 0 {
      ListProbabilities(t);
    }
  }

  /** The weight before position `i` of a cumulative list: `ps[i - 1]`, or 0 at
      the start. */
  function Before(ps: seq<real>, i: nat): real
    requires i <= |ps|
  {
    if i == 0 then 0.0 else ps[i - 1]
  }

  /** The dict `pmf_from_cdf` builds from the first `n` points of a CDF: each
      value gains the step `ps[i] - ps[i - 1]` of its cumulative probability. */
  function CdfSteps(xs: seq<real>, ps: seq<real>, n: nat): (r: map<real, real>)
    requires n <= |xs| && n <= |ps|
  {
    if n == 0 then map[]
    else
      var m := CdfSteps(xs, ps, n - 1);
      m[xs[n - 1] := Get(m, xs[n - 1]) + (ps[n - 1] - Before(ps, n - 1))]
  }

  /** The dict holds exactly the values of the first `n` points as keys. */
  lemma {:induction false} CdfStepsKeys(xs: seq<real>, ps: seq<real>, n: nat)
    requires n <= |xs| && n <= |ps|
    ensures CdfSteps(xs, ps, n).Keys == set i | 0 <= i < n :: xs[i]
  {
    if n > 0 {
      CdfStepsKeys(xs, ps, n - 1);
      var before := set i | 0 <= i < n - 1 :: xs[i];
      var after := set i | 0 <= i < n :: xs[i];
      assert after == before + {xs[n - 1]} by {
        forall y | y in after
          ensures y in before + {xs[n - 1]}
        {
          var i :| 0 <= i < n && xs[i] == y;
          if i < n - 1 {
            assert y in before;
          }
        }
        forall y | y in before
          ensures y in after
        {
          var i :| 0 <= i < n - 1 && xs[i] == y;
          assert y in after;
        }
      }
    }
  }

  /** The steps telescope: together they weigh the last cumulative probability. */
  lemma {:induction false} CdfStepsTotal(xs: seq<real>, ps: seq<real>, n: nat)
    requires n <= |xs| && n <= |ps|
    ensures Total(CdfSteps(xs, ps, n)) == Before(ps, n)
  {
    if n > 0 {
      CdfStepsTotal(xs, ps, n - 1);
      var m := CdfSteps(xs, ps, n - 1);
      TotalUpdate(m, xs[n - 1], Get(m, xs[n - 1]) + (ps[n - 1] - Before(ps, n - 1)));
    }
  }

  /** With distinct values, each value weighs exactly its own step, so the Pmf
      undoes the running sum of a CDF. */
  lemma {:induction false} CdfStepsAt(xs: seq<real>, ps: seq<real>, n: nat, i: nat)
    requires n <= |xs| && n <= |ps| && i < n
    requires StrictlyIncreasing(xs)
    ensures xs[i] in CdfSteps(xs, ps, n)
    ensures CdfSteps(xs, ps, n)[xs[i]] == ps[i] - Before(ps, i)
  {
    if n == i + 1 {
      IncreasingDistinct(xs, i);
      CdfStepsFirst(xs, ps, i);
    } else {
      CdfStepsAt(xs, ps, n - 1, i);
      assert xs[i] < xs[n - 1];
      CdfStepsOther(xs, ps, n, xs[i]);
    }
  }

  /** A point with another value leaves the weight of `y` alone. */
  lemma CdfStepsOther(xs: seq<real>, ps: seq<real>, n: nat, y: real)
    requires 0 < n <= |xs| && n <= |ps| && xs[n - 1] != y && y in CdfSteps(xs, ps, n - 1)
    ensures y in CdfSteps(xs, ps, n) && CdfSteps(xs, ps, n)[y] == CdfSteps(xs, ps, n - 1)[y]
  {
  }

  /** In a strictly increasing list no other position holds the value at `i`. */
  lemma IncreasingDistinct(xs: seq<real>, i: nat)
    requires i < |xs| && StrictlyIncreasing(xs)
    ensures forall j :: 0 <= j < i ==> xs[j] != xs[i]
    ensures forall j :: i < j < |xs| ==> xs[j] != xs[i]
  {
    forall j | 0 <= j < i
      ensures xs[j] != xs[i]
    {
      assert xs[j] < xs[i];
    }
    forall j | i < j < |xs|
      ensures xs[j] != xs[i]
    {
      assert xs[i] < xs[j];
    }
  }

  /** The first point carrying a value gives it its own step. */
  lemma CdfStepsFirst(xs: seq<real>, ps: seq<real>, i: nat)
    requires i < |xs| && i < |ps| && forall j :: 0 <= j < i ==> xs[j] != xs[i]
    ensures xs[i] in CdfSteps(xs, ps, i + 1)
    ensures CdfSteps(xs, ps, i + 1)[xs[i]] == ps[i] - Before(ps, i)
  {
    CdfStepsAbsent(xs, ps, i, xs[i]);
  }

  /** A value none of the first `n` points carries has no weight yet. */
  lemma CdfStepsAbsent(xs: seq<real>, ps: seq<real>, n: nat, y: real)
    requires n <= |xs| && n <= |ps| && forall j :: 0 <= j < n ==> xs[j] != y
    ensures y !in CdfSteps(xs, ps, n) && Get(CdfSteps(xs, ps, n), y) == 0.0
  {
  }

  /** `pmf_from_cdf(cdf, name)`, over the Cdf's items `zip(xs, ps)`: each value
      gets the step of its cumulative probability over the previous one. The
      weights add up to the last cumulative probability. */
  method PmfFromCdf(xs: seq<real>, ps: seq<real>, cdfName: string, name: Option<string> := None)
    returns (pmf: Pmf<real>)
    ensures fresh(pmf)
    ensures var n := if |xs| <= |ps| then |xs| else |ps|;
            pmf.d == CdfSteps(xs, ps, n) && pmf.Total() == Before(ps, n)
    ensures pmf.name == if name.Some? then name.value else cdfName
  {
    var nm := if name.Some? then name.value else cdfName;
    pmf := new Pmf(map[], nm);
    var n := if |xs| <= |ps| then |xs| else |ps|;
    var prev := 0.0;
    for i := 0 to n
      invariant pmf.d == CdfSteps(xs, ps, i) && prev == Before(ps, i)
      invariant pmf.name == nm
    {
      pmf.Incr(xs[i], ps[i] - prev);
      prev := ps[i];
    }
    CdfStepsTotal(xs, ps, n);
  }

  /** `acc` plus the weights of `m` times `w`, key by key. */
  function AddScaled<V>(acc: map<V, real>, m: map<V, real>, w: real): (r: map<V, real>)
    ensures r.Keys == acc.Keys + m.Keys
    ensures forall x :: x in r ==> r[x] == Get(acc, x) + Mul(Get(m, x), w)
  {
    map x | x in acc.Keys + m.Keys :: Get(acc, x) + Mul(Get(m, x), w)
  }

  /** The dict `make_mixture` builds from its components, each a Pmf's weights
      paired with the probability of that Pmf. */
  function Mixture<V>(components: seq<(map<V, real>, real)>): map<V, real>
  {
    if components == [] then map[]
    else
      var n := |components| - 1;
      AddScaled(Mixture(components[..n]), components[n].0, components[n].1)
  }

  /** The probability of `x` under each component, weighted by that component's
      probability, summed over the components. */
  function MixedProb<V>(components: seq<(map<V, real>, real)>, x: V): real
  {
    if components == [] then 0.0
    else
      var n := |components| - 1;
      MixedProb(components[..n], x) + Mul(Get(components[n].0, x), components[n].1)
  }

  /** The total of each component, weighted by its probability, summed. */
  ghost function MixedTotal<V>(components: seq<(map<V, real>, real)>): real
  {
    if components == [] then 0.0
    else
      var n := |components| - 1;
      MixedTotal(components[..n]) + Mul(Total(components[n].0), components[n].1)
  }

  /** The sum of the components' probabilities. */
  function WeightSum<V>(components: seq<(map<V, real>, real)>): real
  {
    if components == [] then 0.0
    else WeightSum(components[..|components| - 1]) + components[|components| - 1].1
  }

  /** A mixture gives each value the weighted sum of its component probabilities. */
  lemma {:induction false} MixtureAt<V>(components: seq<(map<V, real>, real)>, x: V)
    ensures Get(Mixture(components), x) == MixedProb(components, x)
  {
    if components != [] {
      MixtureAt(components[..|components| - 1], x);
    }
  }

  /** Adding a scaled dict adds the scaled total. */
  lemma AddScaledTotal<V>(acc: map<V, real>, m: map<V, real>, w: real)
    ensures Total(AddScaled(acc, m, w)) == Total(acc) + Mul(Total(m), w)
  {
    AddScaledIsPlus(acc, m, w);
    PlusTotal(acc, Scale(m, w));
    TotalScaled(m, Scale(m, w), w);
  }

  /** Adding a weighted component is adding the scaled component pointwise. */
  lemma AddScaledIsPlus<V>(acc: map<V, real>, m: map<V, real>, w: real)
    ensures AddScaled(acc, m, w) == Plus(acc, Scale(m, w))
  {
    var l, r := AddScaled(acc, m, w), Plus(acc, Scale(m, w));
    ScaleGet(m, w);
    assert l.Keys == r.Keys;
    assert forall x :: x in l ==> l[x] == r[x];
  }

  /** Read with a default of 0, the scaled weights are the weights times `w`. */
  lemma ScaleGet<V>(m: map<V, real>, w: real)
    ensures forall x :: Get(Scale(m, w), x) == Mul(Get(m, x), w)
  {
    forall x
      ensures Get(Scale(m, w), x) == Mul(Get(m, x), w)
    {
      if x in m {
        assert Get(Scale(m, w), x) == m[x] * w;
      }
    }
  }

  /** The mixture's total is the weighted sum of the component totals. */
  lemma {:induction false} MixtureTotal<V>(components: seq<(map<V, real>, real)>)
    ensures Total(Mixture(components)) == MixedTotal(components)
  {
    if components != [] {
      var n := |components| - 1;
      MixtureTotal(components[..n]);
      AddScaledTotal(Mixture(components[..n]), components[n].0, components[n].1);
    } else {
      assert Mixture(components) == map[];
    }
  }

  /** Mixing normalised Pmfs with probabilities that add up to 1 gives a
      normalised Pmf. */
  lemma {:induction false} MixtureConserves<V>(components: seq<(map<V, real>, real)>)
    requires forall i :: 0 <= i < |components| ==> Total(components[i].0) == 1.0
    ensures MixedTotal(components) == WeightSum(components)
  {
    if components != [] {
      var n := |components| - 1;
      MixtureConserves(components[..n]);
      assert Total(components[n].0) == 1.0;
      UnitMul(components[n].1);
    }
  }

  lemma UnitMul(w: real)
    ensures Mul(1.0, w) == w
  {
  }

  /** Moving one more key `x` of `m` into the part already added changes only
      the entry at `x`. */
  lemma AddScaledGrow<V>(acc: map<V, real>, m: map<V, real>, w: real, todo: set<V>, x: V)
    requires x in todo && x in m
    ensures AddScaled(acc, m - (todo - {x}), w)
         == AddScaled(acc, m - todo, w)[x := Get(AddScaled(acc, m - todo, w), x) + Mul(m[x], w)]
  {
    var before := AddScaled(acc, m - todo, w);
    var l, r := AddScaled(acc, m - (todo - {x}), w), before[x := Get(before, x) + Mul(m[x], w)];
    assert Get(before, x) == Get(acc, x);
    assert l.Keys == r.Keys;
    forall y | y in l
      ensures l[y] == r[y]
    {
      if y != x {
        assert Get(m - (todo - {x}), y) == Get(m - todo, y);
      }
    }
  }

  lemma AddScaledNone<V>(acc: map<V, real>, m: map<V, real>, w: real)
    ensures AddScaled(acc, m - m.Keys, w) == acc
  {
    var l := AddScaled(acc, m - m.Keys, w);
    assert l.Keys == acc.Keys;
    assert forall y :: y in l ==> l[y] == acc[y];
  }

  /** The inner loop of `make_mixture`: adds the weights of one component Pmf,
      times that Pmf's probability, into `mix`. */
  method AddComponent<V(==)>(mix: Pmf<V>, m: map<V, real>, w: real)
    modifies mix
    ensures mix.d == AddScaled(old(mix.d), m, w) && mix.name == old(mix.name)
  {
    ghost var acc := mix.d;
    var todo := m.Keys;
    AddScaledNone(acc, m, w);
    while todo != {}
      invariant todo <= m.Keys
      invariant mix.d == AddScaled(acc, m - todo, w)
      invariant mix.name == old(mix.name)
      decreases |todo|
    {
      var x :| x in todo;
      AddOneWeight(mix, acc, m, w, todo, x);
      todo := todo - {x};
    }
    assert m - todo == m;
  }

  /** One step of `AddComponent`: adds the scaled weight of `x` into `mix`. */
  method AddOneWeight<V(==)>(mix: Pmf<V>, ghost acc: map<V, real>, m: map<V, real>, w: real, ghost todo: set<V>, x: V)
    requires x in todo && todo <= m.Keys && mix.d == AddScaled(acc, m - todo, w)
    modifies mix
    ensures mix.d == AddScaled(acc, m - (todo - {x}), w) && mix.name == old(mix.name)
  {
    AddScaledGrow(acc, m, w, todo, x);
    assert mix.Prob(x) == Get(mix.d, x);
    mix.Incr(x, Mul(m[x], w));
  }

  /** `make_mixture(pmfs, name)`, over the items of `pmfs`, each a Pmf's weights
      paired with the probability of that Pmf: every value gets its weight in each
      Pmf times that Pmf's probability, added up. */
  method MakeMixture<V(==)>(components: seq<(map<V, real>, real)>, name: string := "mix") returns (mix: Pmf<V>)
    ensures fresh(mix) && mix.d == Mixture(components) && mix.name == name
  {
    mix := new Pmf(map[], name);
    for i := 0 to |components|
      invariant mix.d == Mixture(components[..i]) && mix.name == name
    {
      assert components[..i + 1][..i] == components[..i];
      AddComponent(mix, components[i].0, components[i].1);
    }
    assert components[..|components|] == components;
  }

  /** The entries of `d` that `filter` rejects: what `condition_pmf` keeps. */
  function Kept<V>(d: map<V, real>, filter: V -> bool): (r: map<V, real>)
    ensures r.Keys == set x | x in d && !filter(x)
    ensures forall x :: x in r ==> r[x] == d[x]
  {
    map x | x in d && !filter(x) :: d[x]
  }

  /** The conditional Pmf keeps exactly the rejected values, each with its weight
      over the weight they have together, and adds up to 1. */
  lemma ConditionedWeights<V>(d: map<V, real>, filter: V -> bool)
    requires Total(Kept(d, filter)) != 0.0
    ensures Normalized(Kept(d, filter), 1.0).Keys == set x | x in d && !filter(x)
    ensures forall x :: x in d && !filter(x) ==>
              Normalized(Kept(d, filter), 1.0)[x] == d[x] / Total(Kept(d, filter))
    ensures Total(Normalized(Kept(d, filter), 1.0)) == 1.0
  {
    NormalizedTotal(Kept(d, filter), 1.0);
    forall x | x in d && !filter(x)
      ensures Normalized(Kept(d, filter), 1.0)[x] == d[x] / Total(Kept(d, filter))
    {
      ShareOfTotal(d[x], Total(Kept(d, filter)));
    }
  }

  /** A map that is `d` without the keys `vals - rest`, once `rest` is empty and
      `vals` holds exactly the values `filter` accepts, is `Kept(d, filter)`. */
  lemma KeptExt<V>(d: map<V, real>, filter: V -> bool, vals: set<V>, rest: set<V>, r: map<V, real>)
    requires vals == set x | x in d && filter(x)
    requires rest == {}
    requires r == d - (vals - rest)
    ensures r == Kept(d, filter)
  {
    var k := Kept(d, filter);
    assert r.Keys == k.Keys;
  }

  /** `condition_pmf(pmf, filter, name)`: a copy of `pmf` named `name` without
      every value for which `filter` is true, normalised to 1; `ValueError` when
      the remaining weights add up to 0. `pmf` itself is left as it was. */
  method ConditionPmf<V(==)>(pmf: Pmf<V>, filter: V -> bool, name: string := "conditional")
    returns (r: Result<Pmf<V>>)
    ensures Total(Kept(pmf.d, filter)) == 0.0 ==> r == Err(ValueError)
    ensures Total(Kept(pmf.d, filter)) != 0.0 ==>
              (r.Ok? && fresh(r.value)
               && r.value.d == Normalized(Kept(pmf.d, filter), 1.0) && r.value.name == name)
  {
    var cond := pmf.Copy(Some(name));
    var vals := set v | v in pmf.d && filter(v);
    var rest := vals;
    while rest != {}
      invariant rest <= vals
      invariant cond.d == pmf.d - (vals - rest) && cond.name == name
      decreases rest
    {
      var v :| v in rest;
      var o := cond.Remove(v);
      rest := rest - {v};
      assert cond.d == pmf.d - (vals - rest);
    }
    KeptExt(pmf.d, filter, vals, rest, cond.d);
    var o := cond.Normalize();
    if o.Fail? {
      return Err(o.error);
    }
    return Ok(cond);
  }
}
