# Think Stats distributions, modelled in Dafny

This project models the empirical-distribution toolkit of the pyscience
repository, together with its small sequence helpers:

- **Histograms and PMFs** (`math/pmf.py`). `Hist` and `Pmf` wrap a dict from
  values to integer frequencies or real weights. They provide point updates,
  the histogram algebra (`is_subset`, `subtract`), normalisation, the mean and
  variance, and the selection rule of `random`. The free builders are
  `hist_from_list`, `pmf_from_list`, `pmf_from_dict`, `pmf_from_hist`,
  `pmf_from_cdf`, `make_mixture`, `prob_range` and `condition_pmf`.
- **CDFs** (`math/cdf.py`). A `Cdf` is a pair of parallel lists `xs` and `ps`.
  The model covers the `prob` and `value` lookups by right bisection, the
  percentile, the telescoping mean, the staircase `render`, and `cdf_from_items`
  with its wrappers.
- **Numeric helpers** (`mathlib/statics/util.py`, duplicated in `math/util.py`):
  `mean`, `variance`, `mean_variance`, the in-place `trim`, the memoised
  `binom`, and the two-way linear `interpolator`. `math/util.py` repeats
  `trim` (lines 4-17), `binom` (lines 21-42) and the interpolator (lines
  64-73) with the same code, so one model covers both copies and the table
  below cites the `mathlib/statics/util.py` lines.
- **In-place sequence transforms**: `previous_sum` and `discrete_differential`
  (`mathlib/egien.py`), and `diff` and `underride` (`plot/stats_plot.py`).

How the Python maps to Dafny:

- Python dicts are `map`s.
- An object whose dict or lists are updated in place is a `class` with that
  field: `Hist`, `Pmf`, `Cdf`, the `binom` cache and the keyword-options dict.
- Lists rewritten in place (`trim`, `previous_sum`, `discrete_differential`)
  are `array`s.
- Probabilities, weights and the numbers being averaged are `real`, so float
  rounding is not modelled. The one exact float test, `total == 0.0`, stays an
  exact test.
- Python's exceptions are an `Error` value inside `Result` or `Outcome`.
- The order of dict iteration is arbitrary in this Python 2 code. Where the
  result depends on it (`Pmf.random`, `cdf_from_items` on dict items), the
  order is an explicit sequence of pairs, and the lemmas hold for every order.
- The uniform draw of `Pmf.random` is a parameter.

Two behaviours are modelled as the code does them, not as a reader might
expect:

- `condition_pmf` removes the values for which the filter is true and
  renormalises the rest.
- `Hist.to_list` as written expands each key into its own elements; see
  "Findings".

Modules:

| file | module | covers |
|---|---|---|
| `wrappers.dfy` | `Wrappers` | `Error`, `Result`, `Outcome`, `Option` |
| `pyops.dfy` | `PyOps` | `bisect.bisect`, negative indexing, slicing, `int()` truncation |
| `sorting.dfy` | `Sorting` | `list.sort` / `sorted` as an insertion sort proved sorted and a permutation |
| `dictvalues.dfy` | `DictValues` | sums and maxima of dict values |
| `pmfs.dfy` | `Pmfs` | `math/pmf.py` |
| `cdfs.dfy` | `Cdfs` | `math/cdf.py` |
| `statutil.dfy` | `StatUtil` | `mathlib/statics/util.py` and `math/util.py` |
| `egien.dfy` | `Egien` | `previous_sum` and `discrete_differential` |
| `statsplot.dfy` | `StatsPlot` | `diff` and `underride` |

## Model

| member | source | states |
|---|---|---|
| PyOps.BisectRight | math/cdf.py:61 | `bisect.bisect` on a sorted list returns the split point: everything before it is <= x and everything from it on is > x |
| PyOps.Index | math/cdf.py:62 | a list index succeeds exactly for -len <= i < len, and a negative index counts from the end |
| PyOps.Slice | mathlib/statics/util.py:73 | `s[a:b]` clamps both bounds, counts negative bounds from the end, and is empty when they cross |
| PyOps.Trunc | mathlib/statics/util.py:72 | `int(x)` truncates toward zero |
| PyOps.StrictlySorted | math/cdf.py:61 | a strictly increasing list is sorted |
| Sorting.SortBy | mathlib/statics/util.py:71 | sorting keeps the length and is a permutation (same multiset) |
| Sorting.SortBySorted | mathlib/statics/util.py:71 | for a total preorder, the sorted list is ordered by it |
| Sorting.InsertSorted | math/cdf.py:169 | inserting into a sorted list keeps it sorted |
| DictValues.SumValues | math/pmf.py:108-111 | `total()` of a Pmf: the loop's result is the sum of all the weights |
| DictValues.SumCounts | math/pmf.py:108-111 | `total()` of a Hist: the loop's result is the sum of all the counts |
| DictValues.MaxValue | math/pmf.py:113-115 | `maxlike()`: ValueError exactly on an empty dict; otherwise a stored weight that no weight exceeds |
| DictValues.TotalUpdate | math/pmf.py:71-96 | overwriting one key changes the total by the new value minus the old one (0 when absent) |
| DictValues.TotalRemove | math/pmf.py:98-106 | deleting a key lowers the total by its value |
| DictValues.PlusTotal | math/pmf.py:390-392 | the total of a pointwise sum of two dicts is the sum of their totals |
| DictValues.TotalScaled | math/pmf.py:215-217 | scaling every weight by c scales the total by c |
| DictValues.TotalNonNegative | math/pmf.py:108-111 | non-negative weights have a non-negative total |
| Pmfs.Hist.constructor | math/pmf.py:28-33 | a Hist wraps the given dict and name |
| Pmfs.Hist.Freq | math/pmf.py:134-143 | `freq(x)` never fails: the stored count, or 0 for an absent value |
| Pmfs.Hist.Set | math/pmf.py:71-78 | only entry x changes and is overwritten with y; the total moves by y minus the old count |
| Pmfs.Hist.Incr | math/pmf.py:80-87 | only entry x changes: old count (0 if absent) plus term; the total grows by term |
| Pmfs.Hist.Mult | math/pmf.py:89-96 | only entry x changes: old count (0 if absent) times factor |
| Pmfs.Hist.Remove | math/pmf.py:98-106 | deletes exactly key x and lowers the total by its count; KeyError and no change when x is absent |
| Pmfs.Hist.MaxLike | math/pmf.py:113-115 | the largest count; ValueError on an empty histogram |
| Pmfs.Hist.Copy | math/pmf.py:124-132 | a fresh Hist with an equal dict, named after the original unless a name is given |
| Pmfs.Hist.IsSubset | math/pmf.py:149-155 | true iff every own count is <= the other histogram's count for that value |
| Pmfs.Hist.Subtract | math/pmf.py:157-160 | every count becomes own minus other's, absent values created (possibly negative); the total drops by the other's total |
| Pmfs.Hist.ToList | math/pmf.py:162-167 | the corrected `to_list`: each value appears exactly as often as it is counted, and values with count <= 0 do not appear |
| Pmfs.Difference | math/pmf.py:157-160 | the dict `subtract` leaves: keys of both, each value own count minus other's |
| Pmfs.DifferenceTotal | math/pmf.py:157-160 | the total after subtracting is the difference of the totals |
| Pmfs.SubsetIffDifferenceNonPositive | math/pmf.py:149-160 | `is_subset` holds exactly when subtracting leaves no own value with a positive count |
| Pmfs.Counts | math/pmf.py:280-292 | the counting dict has exactly the distinct elements as keys, each with its multiplicity |
| Pmfs.CountsTotal | math/pmf.py:280-292 | the counts of a list add up to its length |
| Pmfs.HistFromList | math/pmf.py:280-292 | `hist_from_list(t)` holds the counts of t, and `total() == len(t)` |
| Pmfs.CountNext | math/pmf.py:291 | one `hist.incr(x)` turns the counts of a prefix of t into the counts of the prefix one longer |
| Pmfs.ListRoundTrip | math/pmf.py:162-167 | listing the histogram of t gives back t up to order (same multiset) |
| Pmfs.ExpandAsWritten | math/pmf.py:166 | `to_list` as written: every element of the result comes from inside some key, not the key itself |
| Pmfs.ToListAsWrittenNotInverse | math/pmf.py:166 | on the list ["ab"], `to_list` as written returns ['a', 'b'], so it does not undo `hist_from_list` |
| Pmfs.Pmf.constructor | math/pmf.py:28-33 | a Pmf wraps the given dict and name |
| Pmfs.Pmf.Prob | math/pmf.py:187-197 | `prob(x, default)` never fails: the stored weight, or `default` for an absent value |
| Pmfs.Pmf.Set | math/pmf.py:71-78 | only entry x changes and is overwritten with y; the total moves accordingly |
| Pmfs.Pmf.Incr | math/pmf.py:80-87 | only entry x changes: old weight (0 if absent) plus term; the total grows by term |
| Pmfs.Pmf.Mult | math/pmf.py:89-96 | only entry x changes: old weight (0 if absent) times factor |
| Pmfs.Pmf.Remove | math/pmf.py:98-106 | deletes exactly key x; KeyError and no change when x is absent |
| Pmfs.Pmf.MaxLike | math/pmf.py:113-115 | the largest weight; ValueError on an empty Pmf |
| Pmfs.Pmf.Copy | math/pmf.py:177-185 | a fresh Pmf with an equal dict, named after the original unless a name is given |
| Pmfs.Pmf.Normalize | math/pmf.py:203-217 | ValueError and no change when the total is 0; otherwise every weight is scaled by one factor, the keys are kept and the total becomes `fraction` |
| Pmfs.Normalized | math/pmf.py:203-217 | normalising keeps the key set |
| Pmfs.NormalizedTotal | math/pmf.py:203-217 | after normalising, the weights add up to `fraction` |
| Pmfs.NormalizeIdempotent | math/pmf.py:203-217 | normalising twice to the same non-zero fraction equals normalising once |
| Pmfs.NormalizeToZeroThenFails | math/pmf.py:203-217 | normalising to fraction 0 leaves total 0, so a second `normalize` raises |
| Pmfs.NormalizedShares | math/pmf.py:203-217 | normalising to 1 divides every weight by the (non-zero) total |
| Pmfs.Pmf.Random | math/pmf.py:219-236 | ValueError on an empty Pmf; otherwise the first value whose running sum reaches the draw, and AssertionError exactly when no running sum does |
| Pmfs.EnumerationTotal | math/pmf.py:229-231 | running through the items in any order sums to the Pmf's total |
| Pmfs.SelectionReachesTarget | math/pmf.py:228-236 | a draw no larger than the total is always reached, so `assert False` is not hit |
| Pmfs.WeightedValues | math/pmf.py:244-246 | the terms of `mean()`: weight times value for every value |
| Pmfs.Mean | math/pmf.py:238-247 | `mean()`: the loop returns the sum of weight times value |
| Pmfs.MeanBetweenBounds | math/pmf.py:238-247 | the mean of a normalised Pmf with non-negative weights lies within the range of its values |
| Pmfs.WeightedSquares | math/pmf.py:262-264 | the terms of `variance()`: weight times the squared distance from mu |
| Pmfs.Variance | math/pmf.py:249-265 | `variance(mu)`: the loop returns the weighted squared deviations around mu, or around the mean when mu is omitted |
| Pmfs.VarianceNonNegative | math/pmf.py:249-265 | with non-negative weights, the variance is non-negative |
| Pmfs.SortedKeys | math/pmf.py:62 | the keys in ascending order, each once |
| Pmfs.Render | math/pmf.py:56-62 | `xs, ps = render()`: ValueError exactly when there are no items (`zip(*[])` is one empty list, which cannot be unpacked into two); otherwise the values strictly ascending, each paired with its own count or weight |
| Pmfs.AsWeights | math/pmf.py:351-353 | integer counts become the same weights |
| Pmfs.AsWeightsTotal | math/pmf.py:351-353 | and keep their total |
| Pmfs.PmfFromHist | math/pmf.py:337-354 | ValueError when the histogram totals 0; otherwise a fresh Pmf of the normalised counts with total 1, named after the Hist unless a name is given |
| Pmfs.PmfFromDict | math/pmf.py:322-334 | ValueError when the dict totals 0; otherwise the normalised dict with total 1 |
| Pmfs.ListProbabilities | math/pmf.py:308-319 | for a non-empty list, each element's probability is its count divided by the length |
| Pmfs.PmfFromList | math/pmf.py:308-319 | ValueError on an empty list; otherwise the keys are the distinct elements, each with count / len |
| Pmfs.CdfStepsKeys | math/pmf.py:372-375 | the dict `pmf_from_cdf` builds has exactly the Cdf's values as keys |
| Pmfs.CdfStepsAt | math/pmf.py:372-375 | with distinct values, each value gets its probability step `ps[i] - ps[i-1]` (`ps[-1]` taken as 0) |
| Pmfs.CdfStepsTotal | math/pmf.py:372-375 | the steps telescope to the last probability |
| Pmfs.PmfFromCdf | math/pmf.py:357-377 | `pmf_from_cdf`: the dict of probability steps, totalling the last probability, named after the Cdf unless a name is given |
| Pmfs.AddScaled | math/pmf.py:391-392 | adding one weighted component: each value's weight grows by its weight there times the component's weight |
| Pmfs.AddScaledTotal | math/pmf.py:391-392 | and the total grows by the component's total times its weight |
| Pmfs.AddComponent | math/pmf.py:391-392 | the inner loop of `make_mixture` leaves exactly that dict |
| Pmfs.AddOneWeight | math/pmf.py:392 | one `mix.incr(x, p * prob)` adds exactly that scaled weight to the key |
| Pmfs.MixtureAt | math/pmf.py:380-393 | `mix.prob(x)` is the weighted sum of the components' `prob(x)` |
| Pmfs.MixtureTotal | math/pmf.py:380-393 | the mixture's total is the weighted sum of the components' totals |
| Pmfs.MixtureConserves | math/pmf.py:380-393 | when every component is normalised, the mixture totals the sum of the weights |
| Pmfs.MakeMixture | math/pmf.py:380-393 | `make_mixture` returns a fresh Pmf holding the mixture |
| Pmfs.InRange | math/pmf.py:406-408 | the values `prob_range` reads: integers from low to high that are present |
| Pmfs.ProbRange | math/pmf.py:395-409 | the loop returns the total weight of the integer values in [low, high] |
| Pmfs.ProbRangeBounds | math/pmf.py:395-409 | with non-negative weights, the result lies between 0 and the Pmf's total |
| Pmfs.Kept | math/pmf.py:425-427 | the values left after removing those the filter accepts |
| Pmfs.ConditionedWeights | math/pmf.py:411-430 | the conditional weights are the kept weights divided by their total, and they total 1 |
| Pmfs.ConditionPmf | math/pmf.py:411-430 | ValueError when nothing with weight is left; otherwise a fresh Pmf of the renormalised kept weights; the input is not modified |
| Cdfs.ProbAt | math/cdf.py:51-63 | IndexError on an empty Cdf; 0 below the first value; otherwise `ps[j]` for the last j with `xs[j] <= x` |
| Cdfs.ProbIndex | math/cdf.py:60-63 | at or above the first value, `prob(x)` is `ps[bisect(xs, x) - 1]` |
| Cdfs.ProbMonotone | math/cdf.py:51-63 | on a well-formed Cdf, `prob` is non-decreasing in x |
| Cdfs.FirstAtLeast | math/cdf.py:79-83 | reference for the inverse: the first index whose probability reaches p |
| Cdfs.ValueAt | math/cdf.py:65-83 | ValueError exactly outside [0, 1]; the first value at 0 and the last at 1; IndexError on an empty Cdf |
| Cdfs.ValueIsQuantile | math/cdf.py:79-83 | with strictly increasing probabilities ending at 1, `value(p)` is the smallest value whose probability reaches p |
| Cdfs.ValueOfProb | math/cdf.py:51-83 | `prob` and `value` are inverse on the Cdf's own points |
| Cdfs.PercentileAt | math/cdf.py:85-94 | `percentile(p)`: ValueError exactly outside [0, 100], the first value at 0 and the last at 100 |
| Cdfs.Cdf.constructor | math/cdf.py:24-27 | a Cdf holds the given lists and name |
| Cdfs.Cdf.Append | math/cdf.py:41-49 | both lists grow by one pair at the end, so equal lengths stay equal |
| Cdfs.Cdf.Mean | math/cdf.py:108-120 | the loop returns the sum over the zipped pairs of probability step times value |
| Cdfs.MeanOfConstant | math/cdf.py:114-119 | the probability steps add up to the last probability, so they add up to 1 on a Cdf ending at 1 |
| Cdfs.MeanOfBounds | math/cdf.py:114-119 | with non-decreasing probabilities, the partial sum is bounded by the value range times the probability reached |
| Cdfs.MeanWithinRange | math/cdf.py:108-120 | the mean of a well-formed Cdf ending at 1 lies between its first and last value |
| Cdfs.Cdf.Render | math/cdf.py:132-152 | IndexError exactly on an empty Cdf (or more ps than xs); otherwise a leading `(xs[0], 0.0)`, then `(xs[i], ps[i])` and, except after the last, `(xs[i+1], ps[i])` |
| Cdfs.RenderedSorted | math/cdf.py:132-152 | the rendered staircase keeps sorted values sorted and non-decreasing probabilities non-decreasing |
| Cdfs.PairLeTotal | math/cdf.py:169 | the tuple order `sorted` uses on pairs is a total preorder |
| Cdfs.RunningPermutation | math/cdf.py:169-172 | reordering the items does not change the running total |
| Cdfs.ItemsCdf | math/cdf.py:155-178 | ZeroDivisionError exactly for non-empty items whose counts sum to 0; an empty Cdf for no items; otherwise one value and one probability per item, the last probability being 1 whatever the signs of the counts |
| Cdfs.Fractions | math/cdf.py:174-175 | each probability is the running count divided by the total |
| Cdfs.FractionsEnd | math/cdf.py:174-175 | the last running count over a non-zero total is 1, with no condition on the counts |
| Cdfs.FractionsClimb | math/cdf.py:174-175 | with non-negative counts, the fractions are non-decreasing from at least 0 and end at 1 |
| Cdfs.ItemsCdfValues | math/cdf.py:169-171 | the values are sorted and are exactly the items' values |
| Cdfs.ItemsCdfProbs | math/cdf.py:165-175 | with non-negative counts, the Cdf is well formed: values and probabilities ascending, the first probability at least 0 |
| Cdfs.CumulativeFromItems | math/cdf.py:165-175 | the sorting, running-sum and dividing loops compute exactly that Cdf |
| Cdfs.RunningCounts | math/cdf.py:165-172 | the first loop lists the sorted values and, at the same positions, the running count up to each, ending at the total |
| Cdfs.Divided | math/cdf.py:174-175 | every running count over the total, in order |
| Cdfs.CdfFromItems | math/cdf.py:155-178 | `cdf_from_items` returns a fresh Cdf of those lists with the given name, or ZeroDivisionError |
| Cdfs.DictItems | math/cdf.py:191 | `d.iteritems()` lists every key once with its value |
| Cdfs.EnumeratedCdf | math/cdf.py:181-219 | over a dict's items in any order: fails exactly for a non-empty dict totalling 0; otherwise holds exactly its keys, ends at 1 when the dict is non-empty, and is well formed for non-negative weights |
| Cdfs.CdfFromDict | math/cdf.py:181-191 | `cdf_from_dict`: that Cdf over the dict's items |
| Cdfs.CdfFromHist | math/cdf.py:194-204 | `cdf_from_hist`: that Cdf over the histogram's counts |
| Cdfs.CdfFromPmf | math/cdf.py:207-219 | `cdf_from_pmf`: that Cdf over the Pmf's weights, named after the Pmf unless a name is given |
| Cdfs.CdfFromList | math/cdf.py:222-233 | `cdf_from_list` never fails: its values are the distinct elements, and on a non-empty list the probabilities climb to 1 |
| StatUtil.Mean | mathlib/statics/util.py:11-20 | ZeroDivisionError exactly on an empty list |
| StatUtil.MeanBetween | mathlib/statics/util.py:11-20 | the mean of values within [lo, hi] lies within [lo, hi] |
| StatUtil.Deviations | mathlib/statics/util.py:38 | one squared deviation from mu per element |
| StatUtil.Variance | mathlib/statics/util.py:23-40 | ZeroDivisionError exactly on an empty list |
| StatUtil.VarianceNonNegative | mathlib/statics/util.py:23-40 | the variance is non-negative, and it is 0 when every element equals the centre |
| StatUtil.MeanVariance | mathlib/statics/util.py:47-58 | fails exactly on an empty list; otherwise the mean and the variance around that mean |
| StatUtil.SortedReals | mathlib/statics/util.py:71 | `t.sort()` leaves the elements in ascending order, as a permutation |
| StatUtil.Trim | mathlib/statics/util.py:61-74 | sorts the array in place and returns `t[n:-n]` of the sorted list with `n = int(p * len(t))` |
| StatUtil.TrimmedSliceCases | mathlib/statics/util.py:72-73 | as written: empty when n == 0, the middle `len - 2n` elements when 1 <= n <= len/2 |
| StatUtil.TrimDropsEverything | mathlib/statics/util.py:72-73 | trimming [1, 2, 3] with p = 0.01 returns [] although nothing should be trimmed |
| StatUtil.TrimmedMiddle | mathlib/statics/util.py:72-73 | the corrected slice `t[n:len-n]`, the middle `len - 2n` elements |
| StatUtil.TrimmedMiddleKeeps | mathlib/statics/util.py:61-74 | for 0 <= p <= 1/2, the corrected trim always keeps the middle `len - 2n` elements, including when n == 0 |
| StatUtil.PascalAbove | mathlib/statics/util.py:121-131 | `binom(n, k) == 0` for k > n |
| StatUtil.PascalNegative | mathlib/statics/util.py:121-131 | `binom(n, k) == 0` for k < 0 |
| StatUtil.PascalDiagonal | mathlib/statics/util.py:121-131 | `binom(n, n) == 1` |
| StatUtil.PascalFactorial | mathlib/statics/util.py:121-131 | for 0 <= k <= n, Pascal's recurrence gives n! / (k! (n-k)!) |
| StatUtil.BinomCache.constructor | mathlib/statics/util.py:110 | the cache starts empty |
| StatUtil.BinomCache.Binom | mathlib/statics/util.py:110-131 | returns the recurrence value (1 for k == 0 first, then 0 for n == 0), keeps every cached entry equal to it, and only adds entries |
| StatUtil.Interpolate | mathlib/statics/util.py:153-162 | `_bisect`: IndexError on empty lists; `ys[0]` at or below the first x; `ys[-1]` at or above the last x |
| StatUtil.InteriorSegment | mathlib/statics/util.py:159 | for an interior x, the bisection index brackets it: `xs[i-1] <= x < xs[i]` |
| StatUtil.LerpBetween | mathlib/statics/util.py:160-161 | the fraction lies in [0, 1) and the result between the two ys |
| StatUtil.InterpolateInterior | mathlib/statics/util.py:159-162 | for an interior x, the result is the linear interpolation of its bracketing segment |
| StatUtil.InterpolateBracketed | mathlib/statics/util.py:159-162 | for an interior x, the result lies between `ys[i-1]` and `ys[i]` |
| StatUtil.InterpolateAtKnot | mathlib/statics/util.py:155-162 | with strictly increasing xs, interpolating at `xs[j]` gives exactly `ys[j]` |
| StatUtil.LerpInverse | mathlib/statics/util.py:160-161 | interpolating back from the interpolated y recovers x |
| StatUtil.ReverseInterior | mathlib/statics/util.py:145-162 | for an interior x, interpolating with the lists swapped undoes the lookup |
| StatUtil.ReverseInvertsLookup | mathlib/statics/util.py:145-151 | with both lists strictly increasing, `reverse(lookup(x)) == x` for every x in `[xs[0], xs[-1]]` |
| Egien.PreviousSum | mathlib/egien.py:37-41 | rewrites the list in place so each element is the sum of the original elements up to it, and returns that same list |
| Egien.PrefixSumsShort | mathlib/egien.py:37-41 | lists of length <= 1 are left unchanged |
| Egien.DiscreteDifferential | mathlib/egien.py:28-34 | IndexError on an empty list; otherwise in place, element 0 becomes 0 and element i the original step `t[i] - t[i-1]`, and the same list is returned |
| Egien.DifferencesOfPrefixSums | mathlib/egien.py:28-41 | `discrete_differential(previous_sum(v))` is v with its first element replaced by 0 |
| Egien.PrefixSumsOfDifferences | mathlib/egien.py:28-41 | `previous_sum(discrete_differential(v))[i] == v[i] - v[0]` |
| StatsPlot.Diff | plot/stats_plot.py:26-36 | length `max(len(t) - 1, 0)`, and each entry is the step to the next element |
| StatsPlot.DiffNonNegativeIffSorted | plot/stats_plot.py:26-36 | a list is sorted exactly when none of its differences is negative |
| StatsPlot.DiffTelescopes | plot/stats_plot.py:35 | the differences add up to the last element minus the first |
| StatsPlot.Options.constructor | plot/stats_plot.py:54-55 | a fresh options dict is empty |
| StatsPlot.WithDefaults | plot/stats_plot.py:57-58 | every key of d keeps its own value, and every option d lacks is added with the option's value |
| StatsPlot.WithDefaultsIdempotent | plot/stats_plot.py:57-58 | underriding twice with the same options changes nothing more |
| StatsPlot.Underride | plot/stats_plot.py:46-60 | returns d itself (or a fresh dict for None), holding exactly those defaults |
| StatsPlot.SetDefault | plot/stats_plot.py:57-58 | `d.setdefault(key, val)` takes one more option into the defaults: added only when the key is absent |

## Left out

- Float rounding. All weights, probabilities and averaged numbers are exact
  reals, so a computed total that Python would round near 0 is not captured.
- Pmfs.VarianceNonNegative: states only that the variance is non-negative. It
  does not state when it is 0.
- StatUtil.VarianceNonNegative: states that the variance is non-negative and is
  0 when every element equals the centre. The converse, that zero variance
  means every element equals the centre, is not stated.
- `Pmf.log`, `Pmf.exp` and `std_dev`: they need logarithms, exponentials and
  square roots.
- The random draws of `Pmf.random`, `Cdf.random` and `Cdf.sample`. Only the
  selection rule is modelled, with the draw as a parameter.
- `__str__`, `iteritems`, `values`, `items`, `get_dict`, `freqs` and `probs`.
  They are formatting or plain views of the dict; the model works on the dict
  itself.
- `Cdf.values` and `Cdf.items`: plain views of `xs` and `ps`.
- `Cdf._round`: a stub with no body.
- `trimmed_mean` and `trimmed_mean_variance`: compositions of `trim` with
  `mean` and `mean_variance`.
- `hist_from_dict`, and the aliasing in `pmf_from_dict`. Python wraps the
  caller's dict without copying, so later updates through the Hist or Pmf
  change the caller's dict. Dafny maps are values, so this aliasing is not
  expressible; `pmf_from_dict` is modelled on a copy.
- StatUtil.BinomCache.Binom: requires `0 <= n`. In the source
  (mathlib/statics/util.py:121-131) a negative `n` with `k != 0` never reaches
  either base case: each call recurses to `n - 1`, so the call ends only when
  Python's recursion limit raises RuntimeError. The model does not cover that
  non-terminating case.
- `binom`'s default-argument dict, which is shared across calls. It is modelled
  as a cache object passed to every call. Bounded integer widths do not arise,
  because Python integers are unbounded.
- Pmfs.PmfFromHist: takes the Hist's integer counts as exact reals. Python's
  `normalize` does the same with float division.
- Cdfs.CdfFromHist: treats the counts as real weights. This matches Python's
  `float(runsum)`, except for floating-point rounding.
- `egiens` and `angle_vector` in `mathlib/egien.py`: eigenvalue computation and
  trigonometry.
- All plotting and configuration functions of `plot/stats_plot.py`: screen and
  file output.
- The keys of `underride`'s options are strings, because Python keyword
  arguments are names.

## Findings

| source | as written | input that shows it | evidently intended | confidence | as-written member | corrected member |
|---|---|---|---|---|---|---|
| math/pmf.py:166 | `rst.extend(list(key)*value)` expands each key into its own elements | `hist_from_list(["ab"]).to_list()` gives `['a', 'b']`; a number key raises TypeError | `[key]*value`, repeating the key, so that `to_list` undoes `hist_from_list` up to order | not executed | Pmfs.ToListAsWrittenNotInverse | Pmfs.ListRoundTrip |
| mathlib/statics/util.py:72-73 (also math/util.py:15-16) | `t[n:-n]` with `n = int(p * len(t))` | `trim([1.0, 2.0, 3.0], 0.01)`: n == 0, so `t[0:-0]` is `[]` and every element is dropped | `t[n:len(t)-n]`, which keeps the whole list when n == 0 | not executed | StatUtil.TrimDropsEverything | StatUtil.TrimmedMiddleKeeps |
