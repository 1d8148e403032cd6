/** Descriptive statistics over a column of reals. Sum, mean, minimum and maximum are defined
    here; the sample standard deviation, the median and the quantiles are left uninterpreted
    and are supplied as an `Estimators` value. Over an empty column pandas yields NaN; the
    functions here return 0.0 there and no property depends on that value. */
module Stats {

  /** The uninterpreted estimators: pandas' `std()` (sample), `median()` and `quantile(q)`. */
  datatype Estimators = Estimators(
    std: seq<real> -> real,
    median: seq<real> -> real,
    quantile: (seq<real>, real) -> real)

  function Sum(xs: seq<real>): real {
    if xs == [] then 0.0 else Sum(xs[..|xs| - 1]) + xs[|xs| - 1]
  }

  /** pandas' `mean()`. */
  function Mean(xs: seq<real>): real {
    if xs == [] then 0.0 else Sum(xs) / (|xs| as real)
  }

  /** pandas' `min()`. */
  function MinOf(xs: seq<real>): real {
    if |xs| <= 1 then (if xs == [] then 0.0 else xs[0])
    else
      var m := MinOf(xs[..|xs| - 1]);
      if xs[|xs| - 1] < m then xs[|xs| - 1] else m
  }

  /** pandas' `max()`. */
  function MaxOf(xs: seq<real>): real {
    if |xs| <= 1 then (if xs == [] then 0.0 else xs[0])
    else
      var m := MaxOf(xs[..|xs| - 1]);
      if xs[|xs| - 1] > m then xs[|xs| - 1] else m
  }

  /** The minimum of a non-empty column is one of its values and no value is below it. */
  lemma {:induction false} MinOfIsLeast(xs: seq<real>)
    requires |xs| > 0
    ensures MinOf(xs) in xs
    ensures forall i :: 0 <= i < |xs| ==> MinOf(xs) <= xs[i]
  {
    if |xs| > 1 {
      MinOfIsLeast(xs[..|xs| - 1]);
    }
  }

  /** The maximum of a non-empty column is one of its values and no value is above it. */
  lemma {:induction false} MaxOfIsGreatest(xs: seq<real>)
    requires |xs| > 0
    ensures MaxOf(xs) in xs
    ensures forall i :: 0 <= i < |xs| ==> xs[i] <= MaxOf(xs)
  {
    if |xs| > 1 {
      MaxOfIsGreatest(xs[..|xs| - 1]);
    }
  }

  lemma {:induction false} SumBetween(xs: seq<real>, lo: real, hi: real)
    requires forall i :: 0 <= i < |xs| ==> lo <= xs[i] <= hi
    ensures (|xs| as real) * lo <= Sum(xs) <= (|xs| as real) * hi
  {
    if xs != [] {
      SumBetween(xs[..|xs| - 1], lo, hi);
    }
  }

  /** The mean of a non-empty column lies between its minimum and its maximum. */
  lemma MeanBetweenMinAndMax(xs: seq<real>)
    requires |xs| > 0
    ensures MinOf(xs) <= Mean(xs) <= MaxOf(xs)
  {
    MinOfIsLeast(xs);
    MaxOfIsGreatest(xs);
    MeanBounded(xs, MinOf(xs), MaxOf(xs));
  }

  /** A mean is bounded by any bounds on every value. */
  lemma MeanBounded(xs: seq<real>, lo: real, hi: real)
    requires |xs| > 0
    requires forall i :: 0 <= i < |xs| ==> lo <= xs[i] <= hi
    ensures lo <= Mean(xs) <= hi
  {
    SumBetween(xs, lo, hi);
    QuotientBetween(Sum(xs), |xs| as real, lo, hi);
  }

  lemma QuotientBetween(s: real, n: real, lo: real, hi: real)
    requires n > 0.0 && n * lo <= s <= n * hi
    ensures lo <= s / n <= hi
  {
    var q := s / n;
    assert q * n == s;
    assert (q - lo) * n >= 0.0 && (hi - q) * n >= 0.0;
  }
}
