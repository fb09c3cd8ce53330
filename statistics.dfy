/** The two statistics the filter takes of a block: the arithmetic mean and
    the population variance (numpy's mean and var with ddof = 0), over exact
    reals. */
module Statistics {

  function Sum(s: seq<real>): (total: real)
  {
    if s == [] then 0.0 else s[0] + Sum(s[1..])
  }

  /** The sum divided by the number of samples. */
  function Mean(s: seq<real>): (m: real)
    requires |s| > 0
  {
    Sum(s) / (|s| as real)
  }

  /** The sum of the squared distances of the samples from m. */
  function SquaredDeviation(s: seq<real>, m: real): (d: real)
  {
    if s == [] then 0.0 else (s[0] - m) * (s[0] - m) + SquaredDeviation(s[1..], m)
  }

  /** The mean squared distance from the mean: the divisor is the sample
      count, not the count minus one. */
  function Variance(s: seq<real>): (v: real)
    requires |s| > 0
  {
    SquaredDeviation(s, Mean(s)) / (|s| as real)
  }

  /** Every sample lies in [lo, hi]. */
  predicate AllWithin(s: seq<real>, lo: real, hi: real)
  {
    forall x :: x in s ==> lo <= x <= hi
  }

  /** Samples at least lo sum to at least lo times their count. */
  lemma {:induction false} SumAtLeast(s: seq<real>, lo: real)
    requires forall x :: x in s ==> lo <= x
    ensures lo * (|s| as real) <= Sum(s)
  {
    if s != [] {
      assert s[0] in s;
      assert forall x :: x in s[1..] ==> x in s;
      SumAtLeast(s[1..], lo);
      var n := |s[1..]| as real;
      calc {
        lo * (|s| as real);
        lo * (n + 1.0);
        lo * n + lo;
      <= Sum(s[1..]) + s[0];
        Sum(s);
      }
    }
  }

  /** Samples at most hi sum to at most hi times their count. */
  lemma {:induction false} SumAtMost(s: seq<real>, hi: real)
    requires forall x :: x in s ==> x <= hi
    ensures Sum(s) <= hi * (|s| as real)
  {
    if s != [] {
      assert s[0] in s;
      assert forall x :: x in s[1..] ==> x in s;
      SumAtMost(s[1..], hi);
      var n := |s[1..]| as real;
      calc {
        Sum(s);
        Sum(s[1..]) + s[0];
      <= hi * n + hi;
        hi * (n + 1.0);
        hi * (|s| as real);
      }
    }
  }

  lemma SumWithin(s: seq<real>, lo: real, hi: real)
    requires AllWithin(s, lo, hi)
    ensures lo * (|s| as real) <= Sum(s) <= hi * (|s| as real)
  {
    SumAtLeast(s, lo);
    SumAtMost(s, hi);
  }

  /** The mean of samples in [lo, hi] lies in [lo, hi]. */
  lemma MeanWithin(s: seq<real>, lo: real, hi: real)
    requires |s| > 0 && AllWithin(s, lo, hi)
    ensures lo <= Mean(s) <= hi
  {
    SumWithin(s, lo, hi);
    var n := |s| as real;
    assert (Mean(s) - lo) * n == Sum(s) - lo * n;
    assert (hi - Mean(s)) * n == hi * n - Sum(s);
  }

  lemma {:induction false} SumOfConstant(s: seq<real>, v: real)
    requires forall x :: x in s ==> x == v
    ensures Sum(s) == v * (|s| as real)
  {
    if s != [] {
      assert s[0] in s;
      assert forall x :: x in s[1..] ==> x in s;
      SumOfConstant(s[1..], v);
      var n := |s[1..]| as real;
      assert |s| as real == n + 1.0;
      assert v * (n + 1.0) == v * n + v;
    }
  }

  /** Samples that all equal v have mean v. */
  lemma MeanOfConstant(s: seq<real>, v: real)
    requires |s| > 0 && forall x :: x in s ==> x == v
    ensures Mean(s) == v
  {
    SumOfConstant(s, v);
  }

  lemma {:induction false} SquaredDeviationNonNegative(s: seq<real>, m: real)
    ensures SquaredDeviation(s, m) >= 0.0
  {
    if s != [] {
      SquaredDeviationNonNegative(s[1..], m);
      assert (s[0] - m) * (s[0] - m) >= 0.0;
    }
  }

  /** A variance is never negative, so no block collapses under a threshold of 0 or less. */
  lemma VarianceNonNegative(s: seq<real>)
    requires |s| > 0
    ensures Variance(s) >= 0.0
  {
    SquaredDeviationNonNegative(s, Mean(s));
  }
}
