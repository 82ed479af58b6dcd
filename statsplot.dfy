/** The two data helpers of `plot/stats_plot.py` that the plotting functions
    lean on: adjacent differences, which give `plot_hist` its bar widths, and
    `underride`, which fills in default keyword options. */
module StatsPlot {
  import opened PyOps
  import opened StatUtil

  /** `diff(t)`: the step from each element to the next, one fewer than there are
      elements (none for an empty list). */
  function Diff(t: seq<real>): (r: seq<real>)
    ensures |r| == if |t| == 0 then 0 else |t| - 1
    ensures forall i :: 0 <= i < |r| ==> t[i] + r[i] == t[i + 1]
  {
    if |t| == 0 then [] else seq(|t| - 1, i requires 0 <= i < |t| - 1 => t[i + 1] - t[i])
  }

  /** A list is sorted exactly when none of its steps is negative, which is what
      makes the differences usable as bar widths. */
  lemma DiffNonNegativeIffSorted(t: seq<real>)
    ensures Sorted(t) <==> forall i :: 0 <= i < |Diff(t)| ==> 0.0 <= Diff(t)[i]
  {
    var d := Diff(t);
    if forall i :: 0 <= i < |d| ==> 0.0 <= d[i] {
      forall i, j | 0 <= i <= j < |t|
        ensures t[i] <= t[j]
      {
        StepsClimb(t, i, j);
      }
    }
  }

  lemma {:induction false} StepsClimb(t: seq<real>, i: nat, j: nat)
    requires i <= j < |t| && forall k :: 0 <= k < |Diff(t)| ==> 0.0 <= Diff(t)[k]
    ensures t[i] <= t[j]
    decreases j - i
  {
    if i < j {
      StepsClimb(t, i, j - 1);
      assert t[j - 1] + Diff(t)[j - 1] == t[j];
    }
  }

  /** The steps add up to the distance from the first element to the last. */
  lemma DiffTelescopes(t: seq<real>)
    requires t != []
    ensures Sum(Diff(t)) == t[|t| - 1] - t[0]
  {
    StepSums(t, |t|);
    assert Diff(t)[..|t| - 1] == Diff(t);
  }

  lemma {:induction false} StepSums(t: seq<real>, n: nat)
    requires 0 < n <= |t|
    ensures Sum(Diff(t)[..n - 1]) == t[n - 1] - t[0]
  {
    if n > 1 {
      StepSums(t, n - 1);
      assert Diff(t)[..n - 1][..n - 2] == Diff(t)[..n - 2];
    }
  }

  /** A keyword-argument dict: option names to values. */
  class Options<V> {
    var items: map<string, V>

    constructor ()
      ensures items == map[]
    {
      items := map[];
    }
  }

  /** The dict `underride` leaves: every key of `base` with its own value, and
      every option `base` lacks with the option's value. */
  function WithDefaults<V>(base: map<string, V>, options: map<string, V>): (r: map<string, V>)
    ensures r.Keys == base.Keys + options.Keys
    ensures forall k :: k in base ==> r[k] == base[k]
    ensures forall k :: k in options && k !in base ==> r[k] == options[k]
  {
    options + base
  }

  /** Underriding again with the same options changes nothing. */
  lemma WithDefaultsIdempotent<V>(base: map<string, V>, options: map<string, V>)
    ensures WithDefaults(WithDefaults(base, options), options) == WithDefaults(base, options)
  {
  }

  /** `underride(d, **options)`: `setdefault` for every option on `d`, or on a
      fresh dict when `d` is `None`, returning that same dict. */
  method Underride<V>(d: Options?<V>, options: map<string, V>) returns (r: Options<V>)
    modifies d
    ensures d != null ==> r == d
    ensures d == null ==> fresh(r)
    ensures r.items == WithDefaults(if d == null then map[] else old(d.items), options)
  {
    if d == null {
      r := new Options();
    } else {
      r := d;
    }
    ghost var base := r.items;
    var todo := options.Keys;
    DefaultsNone(base, options);
    while todo != {}
      invariant todo <= options.Keys
      invariant r.items == WithDefaults(base, options - todo)
      decreases |todo|
    {
      var key :| key in todo;
      SetDefault(r, base, options, todo, key);
      todo := todo - {key};
    }
    assert options - todo == options;
  }

  /** Before any option is taken the defaults leave the dict as it was. */
  lemma DefaultsNone<V>(base: map<string, V>, options: map<string, V>)
    ensures WithDefaults(base, options - options.Keys) == base
  {
    assert options - options.Keys == map[];
  }

  /** `d.setdefault(key, options[key])`, one step of `Underride`: the option is
      added when `d` has no entry for `key`. */
  method SetDefault<V>(d: Options<V>, ghost base: map<string, V>, options: map<string, V>,
                       ghost todo: set<string>, key: string)
    requires todo <= options.Keys && key in todo
    requires d.items == WithDefaults(base, options - todo)
    modifies d
    ensures d.items == WithDefaults(base, options - (todo - {key}))
  {
    DefaultsGrow(base, options, todo, key);
    if key !in d.items {
      d.items := d.items[key := options[key]];
    }
  }

  /** Taking one more option into the defaults adds it exactly when the dict
      lacks it. */
  lemma DefaultsGrow<V>(base: map<string, V>, options: map<string, V>, todo: set<string>, key: string)
    requires todo <= options.Keys && key in todo
    ensures var before := WithDefaults(base, options - todo);
      WithDefaults(base, options - (todo - {key}))
        == if key in before then before else before[key := options[key]]
  {
    var before := WithDefaults(base, options - todo);
    var after := WithDefaults(base, options - (todo - {key}));
    assert key in before <==> key in base;
    var wanted := if key in before then before else before[key := options[key]];
    assert after.Keys == wanted.Keys;
  }
}
