/**
  Sums, means and variances over sequences of exact real numbers.

  Every sum is accumulated from the front of the sequence to its back, the
  way a running total grows as values are appended.
 */
module Stats {

  function Sum(s: seq<real>): real
  {
    if s == [] then 0.0 else Sum(s[..|s| - 1]) + s[|s| - 1]
  }

  function SumSq(s: seq<real>): real
  {
    if s == [] then 0.0 else SumSq(s[..|s| - 1]) + Square(s[|s| - 1])
  }

  /** Sum of the squared deviations of the values from `c`. */
  function SqDev(s: seq<real>, c: real): real
  {
    if s == [] then 0.0 else SqDev(s[..|s| - 1], c) + Square(s[|s| - 1] - c)
  }

  function Square(x: real): real
  {
    x * x
  }

  lemma SquareNonneg(x: real)
    ensures Square(x) >= 0.0
  {
    if x < 0.0 {
      assert Square(x) == (-x) * (-x);
    }
  }

  /** A sum of squared deviations is never negative. */
  lemma {:induction false} SqDevNonneg(s: seq<real>, c: real)
    ensures SqDev(s, c) >= 0.0
  {
    if s != [] {
      SqDevNonneg(s[..|s| - 1], c);
      SquareNonneg(s[|s| - 1] - c);
    }
  }

  function Mean(s: seq<real>): real
    requires s != []
  {
    Sum(s) / (|s| as real)
  }

  /** Population variance: the mean squared deviation from the mean (divisor n). */
  function PopVariance(s: seq<real>): real
    requires s != []
  {
    SqDev(s, Mean(s)) / (|s| as real)
  }

  /**
    Sample variance (divisor n - 1), the default of a pandas rolling `std()`.
    It is the population variance scaled by n / (n - 1).
   */
  function SampleVariance(s: seq<real>): real
    requires |s| >= 2
  {
    SqDev(s, Mean(s)) / ((|s| - 1) as real)
  }

  lemma PopVarianceNonneg(s: seq<real>)
    requires s != []
    ensures PopVariance(s) >= 0.0
  {
    SqDevNonneg(s, Mean(s));
  }

  /** The sample variance is the population variance rescaled: v (n - 1) == p n. */
  lemma SampleVarianceScaled(s: seq<real>)
    requires |s| >= 2
    ensures SampleVariance(s) >= 0.0
    ensures SampleVariance(s) * ((|s| - 1) as real) == PopVariance(s) * (|s| as real)
  {
    var d, n := SqDev(s, Mean(s)), |s| as real;
    SqDevNonneg(s, Mean(s));
    assert SampleVariance(s) * (n - 1.0) == d;
    assert PopVariance(s) * n == d;
  }

  /**
    The running-sum variance formula `(sumsq - sum * sum / n) / n`, floored at
    zero (`max(0, ...)`) to absorb cancellation.
   */
  function RunningVariance(sum: real, sumSq: real, n: nat): (v: real)
    requires n > 0
    ensures v >= 0.0
  {
    var raw := (sumSq - sum * sum / (n as real)) / (n as real);
    if raw < 0.0 then 0.0 else raw
  }

  /** The expanded form sumsq - 2 c sum + k c^2 of a sum of squared deviations from `c`. */
  function Expanded(sumSq: real, sum: real, k: real, c: real): real
  {
    sumSq - 2.0 * c * sum + k * c * c
  }

  /** Expanding the square: the sum of (x - c)^2 is sumsq - 2 c sum + n c^2. */
  lemma {:induction false} SqDevExpand(s: seq<real>, c: real)
    ensures SqDev(s, c) == Expanded(SumSq(s), Sum(s), |s| as real, c)
  {
    if s != [] {
      var init := s[..|s| - 1];
      SqDevExpand(init, c);
      ExpandStep(SqDev(init, c), SumSq(init), Sum(init), |init| as real, s[|s| - 1], c);
    }
  }

  /** One more value `x` in the expansion of the sum of squared deviations from `c`. */
  lemma ExpandStep(d: real, q: real, sum: real, k: real, x: real, c: real)
    ensures d == Expanded(q, sum, k, c) ==> d + Square(x - c) == Expanded(q + Square(x), sum + x, k + 1.0, c)
  {
    assert Square(x - c) == Square(x) - 2.0 * c * x + c * c;
  }

  /**
    Over exact reals the running-sum formula equals the population variance of
    the values the sums were taken over, so the floor at zero never applies.
   */
  lemma RunningVarianceExact(s: seq<real>)
    requires s != []
    ensures RunningVariance(Sum(s), SumSq(s), |s|) == PopVariance(s)
  {
    PopVarianceNonneg(s);
    SqDevExpand(s, Mean(s));
    CompletingTheSquare(|s|, Sum(s), SumSq(s), Mean(s), SqDev(s, Mean(s)), PopVariance(s));
  }

  /**
    With m the mean, sq - 2 m sum + n m^2 == sq - sum^2 / n: the running
    formula and the mean squared deviation divide the same quantity by n.
   */
  lemma CompletingTheSquare(n: nat, sum: real, sq: real, m: real, d: real, p: real)
    requires n > 0 && m == sum / (n as real)
    requires p == d / (n as real) && p >= 0.0
    requires d == Expanded(sq, sum, n as real, m)
    ensures RunningVariance(sum, sq, n) == p
  {
    SquareCompleted(n as real, sum, sq, m, d, p);
    RunningVarianceIs(n, sum, sq, p);
  }

  /** The floor at zero does not apply to a non-negative raw value. */
  lemma RunningVarianceIs(n: nat, sum: real, sq: real, p: real)
    requires n > 0 && (sq - sum * sum / (n as real)) / (n as real) == p && p >= 0.0
    ensures RunningVariance(sum, sq, n) == p
  {
  }

  lemma SquareCompleted(n: real, sum: real, sq: real, m: real, d: real, p: real)
    requires n > 0.0 && m == sum / n
    requires d == Expanded(sq, sum, n, m) && p == d / n
    ensures (sq - sum * sum / n) / n == p
  {
    assert sum == m * n;
    assert sum * sum / n == m * m * n;
  }

  /** A window of identical values has variance exactly zero. */
  lemma {:induction false} ConstantSqDev(s: seq<real>, x: real)
    requires forall i :: 0 <= i < |s| ==> s[i] == x
    ensures Sum(s) == (|s| as real) * x
    ensures SqDev(s, x) == 0.0
  {
    if s != [] {
      ConstantSqDev(s[..|s| - 1], x);
    }
  }

  lemma ConstantVariance(s: seq<real>, x: real)
    requires s != []
    requires forall i :: 0 <= i < |s| ==> s[i] == x
    ensures PopVariance(s) == 0.0
    ensures RunningVariance(Sum(s), SumSq(s), |s|) == 0.0
  {
    ConstantSqDev(s, x);
    assert Mean(s) == x;
    RunningVarianceExact(s);
  }
}
