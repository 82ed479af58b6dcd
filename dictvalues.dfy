/** Aggregates over the values of a Python dict: `d.get(x, 0)`, `sum(d.itervalues())`
    and `max(d.itervalues())`. A dict is a `map`; iteration order is arbitrary, so a
    loop over a dict picks its next key with `:|`. */
module DictValues {
  import opened Wrappers

  /** `d.get(x, 0)` on a dict of weights. */
  function Get<V>(d: map<V, real>, x: V): real {
    if x in d then d[x] else 0.0
  }

  /** `d.get(x, 0)` on a dict of counts. */
  function GetInt<V>(d: map<V, int>, x: V): int {
    if x in d then d[x] else 0
  }

  /** The sum of all weights, in no particular order. */
  ghost function Total<V>(d: map<V, real>): real
    decreases |d|
  {
    if d == map[] then 0.0
    else
      var k := Pick(d);
      CardRemove(d, k);
      d[k] + Total(d - {k})
  }

  /** Some key of a non-empty dict. */
  ghost function Pick<V, W>(d: map<V, W>): (k: V)
    requires d != map[]
    ensures k in d
  {
    var k :| k in d; k
  }

  /** Some element of a non-empty set. */
  ghost function PickElem<T>(s: set<T>): (x: T)
    requires s != {}
    ensures x in s
  {
    var x :| x in s; x
  }

  /** The sum of all counts, in no particular order. */
  ghost function TotalInt<V>(d: map<V, int>): int
    decreases |d|
  {
    if d == map[] then 0
    else
      var k := Pick(d);
      CardRemove(d, k);
      d[k] + TotalInt(d - {k})
  }

  lemma CardRemove<V, W>(d: map<V, W>, k: V)
    requires k in d
    ensures |d - {k}| == |d| - 1
  {
    assert (d - {k}).Keys == d.Keys - {k};
  }

  /** The total does not depend on which key is taken first. */
  lemma {:induction false} TotalRemove<V>(d: map<V, real>, k: V)
    requires k in d
    ensures Total(d) == d[k] + Total(d - {k})
    decreases |d|
  {
    var j := Pick(d);
    if j != k {
      CardRemove(d, j);
      CardRemove(d, k);
      TotalRemove(d - {j}, k);
      TotalRemove(d - {k}, j);
      assert d - {j} - {k} == d - {k} - {j};
    }
  }

  /** The count total does not depend on which key is taken first. */
  lemma {:induction false} TotalIntRemove<V>(d: map<V, int>, k: V)
    requires k in d
    ensures TotalInt(d) == d[k] + TotalInt(d - {k})
    decreases |d|
  {
    var j := Pick(d);
    if j != k {
      CardRemove(d, j);
      CardRemove(d, k);
      TotalIntRemove(d - {j}, k);
      TotalIntRemove(d - {k}, j);
      assert d - {j} - {k} == d - {k} - {j};
    }
  }

  /** Overwriting one entry moves the total by the difference. */
  lemma TotalUpdate<V>(d: map<V, real>, k: V, v: real)
    ensures Total(d[k := v]) == Total(d) - Get(d, k) + v
  {
    TotalRemove(d[k := v], k);
    if k in d {
      TotalRemove(d, k);
      assert d[k := v] - {k} == d - {k};
    } else {
      assert d[k := v] - {k} == d;
    }
  }

  /** Overwriting one count moves the count total by the difference. */
  lemma TotalIntUpdate<V>(d: map<V, int>, k: V, v: int)
    ensures TotalInt(d[k := v]) == TotalInt(d) - GetInt(d, k) + v
  {
    TotalIntRemove(d[k := v], k);
    if k in d {
      TotalIntRemove(d, k);
      assert d[k := v] - {k} == d - {k};
    } else {
      assert d[k := v] - {k} == d;
    }
  }

  /** Every weight multiplied by `c`. */
  function Scale<V>(d: map<V, real>, c: real): (r: map<V, real>)
    ensures r.Keys == d.Keys
    ensures forall x :: x in d ==> r[x] == d[x] * c
  {
    map x | x in d :: d[x] * c
  }

  /** The weights of `a` and `b` added key by key, a missing key counting as 0. */
  function Plus<V>(a: map<V, real>, b: map<V, real>): (r: map<V, real>)
    ensures r.Keys == a.Keys + b.Keys
    ensures forall x :: x in r ==> r[x] == Get(a, x) + Get(b, x)
  {
    map x | x in a.Keys + b.Keys :: Get(a, x) + Get(b, x)
  }

  lemma PlusRemove<V>(a: map<V, real>, b: map<V, real>, k: V)
    requires k in b
    ensures Plus(a, b) == Plus(a, b - {k})[k := Get(a, k) + b[k]]
  {
    var l, r := Plus(a, b), Plus(a, b - {k})[k := Get(a, k) + b[k]];
    assert l.Keys == r.Keys;
    forall x | x in l
      ensures l[x] == r[x]
    {
    }
  }

  lemma PlusTotalStep<V>(a: map<V, real>, b: map<V, real>, k: V)
    requires k in b
    ensures Total(Plus(a, b)) == Total(Plus(a, b - {k})) + b[k]
  {
    PlusRemove(a, b, k);
    var r' := Plus(a, b - {k});
    assert Get(r', k) == Get(a, k);
    TotalUpdate(r', k, Get(a, k) + b[k]);
  }

  /** Adding two dicts key by key adds their totals. */
  lemma {:induction false} PlusTotal<V>(a: map<V, real>, b: map<V, real>)
    ensures Total(Plus(a, b)) == Total(a) + Total(b)
    decreases |b|
  {
    if b == map[] {
      assert Plus(a, b) == a;
    } else {
      var k := Pick(b);
      CardRemove(b, k);
      PlusTotal(a, b - {k});
      TotalRemove(b, k);
      PlusTotalStep(a, b, k);
    }
  }

  /** Scaling every weight scales the total. */
  lemma TotalScale<V>(d: map<V, real>, c: real)
    ensures Total(Scale(d, c)) == Total(d) * c
  {
    TotalScaled(d, Scale(d, c), c);
  }

  /** `a * b`, kept behind a name so that the solver treats equal arguments as equal
      products without unfolding the totals inside them. */
  function Mul(a: real, b: real): real { a * b }

  /** A map whose every value is `c` times the value at the same key of `d`
      totals `c` times as much. */
  lemma {:induction false} TotalScaled<V>(d: map<V, real>, e: map<V, real>, c: real)
    requires d.Keys == e.Keys
    requires forall x :: x in d ==> e[x] == Mul(d[x], c)
    ensures Total(e) == Mul(Total(d), c)
    decreases |d|
  {
    if d != map[] {
      var k :| k in d;
      var d', e' := d - {k}, e - {k};
      assert d'.Keys == e'.Keys;
      CardRemove(d, k);
      TotalScaled(d', e', c);
      TotalRemove(d, k);
      TotalRemove(e, k);
      ScaleStep(Total(e), e[k], Total(e'), Total(d), d[k], Total(d'), c);
    } else {
      assert e == map[];
    }
  }

  lemma ScaleStep(ts: real, sk: real, srest: real, td: real, dk: real, drest: real, c: real)
    requires ts == sk + srest && sk == Mul(dk, c) && srest == Mul(drest, c) && td == dk + drest
    ensures ts == Mul(td, c)
  {
  }

  /** A total of non-negative weights is non-negative. */
  lemma {:induction false} TotalNonNegative<V>(d: map<V, real>)
    requires forall x :: x in d ==> d[x] >= 0.0
    ensures Total(d) >= 0.0
    decreases |d|
  {
    if d != map[] {
      var k := Pick(d);
      CardRemove(d, k);
      TotalNonNegative(d - {k});
    }
  }

  /** Raising weights key by key raises the total. */
  lemma {:induction false} TotalMonotone<V>(d: map<V, real>, e: map<V, real>)
    requires d.Keys == e.Keys
    requires forall x :: x in d ==> d[x] <= e[x]
    ensures Total(d) <= Total(e)
    decreases |d|
  {
    if d != map[] {
      var k := Pick(d);
      CardRemove(d, k);
      assert (d - {k}).Keys == (e - {k}).Keys;
      TotalMonotone(d - {k}, e - {k});
      TotalRemove(e, k);
    } else {
      assert e == map[];
    }
  }

  /** Leaving out keys of non-negative weight does not raise the total. */
  lemma {:induction false} TotalSubmap<V>(e: map<V, real>, d: map<V, real>)
    requires e.Keys <= d.Keys
    requires forall x :: x in e ==> e[x] == d[x]
    requires forall x :: x in d ==> d[x] >= 0.0
    ensures Total(e) <= Total(d)
    decreases |d|
  {
    if d != map[] {
      var k := Pick(d);
      CardRemove(d, k);
      if k in e {
        TotalRemove(e, k);
        TotalSubmap(e - {k}, d - {k});
      } else {
        assert e.Keys <= (d - {k}).Keys;
        TotalSubmap(e, d - {k});
      }
    } else {
      assert e == map[];
    }
  }

  /** `sum(d.itervalues())`: adds the weights one key at a time. */
  method SumValues<V>(d: map<V, real>) returns (t: real)
    ensures t == Total(d)
  {
    t := 0.0;
    var rest := d;
    while rest != map[]
      invariant t + Total(rest) == Total(d)
      decreases |rest|
    {
      var k :| k in rest;
      TotalRemove(rest, k);
      CardRemove(rest, k);
      t := t + rest[k];
      rest := rest - {k};
    }
  }

  /** `sum(d.itervalues())` on a dict of counts. */
  method SumCounts<V>(d: map<V, int>) returns (t: int)
    ensures t == TotalInt(d)
  {
    t := 0;
    var rest := d;
    while rest != map[]
      invariant t + TotalInt(rest) == TotalInt(d)
      decreases |rest|
    {
      var k :| k in rest;
      TotalIntRemove(rest, k);
      CardRemove(rest, k);
      t := t + rest[k];
      rest := rest - {k};
    }
  }

  /** `max(d.itervalues())`: `ValueError` on an empty dict, else the largest weight. */
  method MaxValue<V>(d: map<V, real>) returns (r: Result<real>)
    ensures r.Err? <==> d == map[]
    ensures r.Err? ==> r.error == ValueError
    ensures r.Ok? ==> r.value in d.Values && forall x :: x in d ==> d[x] <= r.value
  {
    if d == map[] {
      return Err(ValueError);
    }
    var k0 :| k0 in d;
    var m := d[k0];
    var rest := d - {k0};
    while rest != map[]
      invariant rest.Keys <= d.Keys
      invariant m in d.Values
      invariant forall x :: x in d && x !in rest ==> d[x] <= m
      decreases |rest|
    {
      var k :| k in rest;
      CardRemove(rest, k);
      if d[k] > m {
        m := d[k];
      }
      rest := rest - {k};
    }
    r := Ok(m);
  }
}
