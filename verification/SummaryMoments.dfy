/** The running mean and variance of a stream of samples, over the reals. */
module SummaryMoments {

  function Square(x: real): (y: real)
    ensures y >= 0.0
  {
    x * x
  }

  function Sum(h: seq<real>): real {
    if h == [] then 0.0 else Sum(h[..|h| - 1]) + h[|h| - 1]
  }

  function SumOfSquares(h: seq<real>): real {
    if h == [] then 0.0 else SumOfSquares(h[..|h| - 1]) + Square(h[|h| - 1])
  }

  /** The sum of the squared deviations of the samples from m. */
  function Deviations(h: seq<real>, m: real): (d: real)
    ensures d >= 0.0
  {
    if h == [] then 0.0 else Deviations(h[..|h| - 1], m) + Square(h[|h| - 1] - m)
  }

  /** A running value moved towards a new one by the weight 1/n. */
  function Moved(running: real, value: real, n: int): real
    requires n > 0
  {
    var delta := value - running;
    running + delta / n as real
  }

  function Variance(squaredTotal: real, n: int, mean: real): real
    requires n > 0
  {
    squaredTotal / n as real - mean * mean
  }

  /** What the fields of a summary hold after the samples h. */
  ghost predicate Moments(h: seq<real>, mean: real, squaredTotal: real, variance: real) {
    && squaredTotal == SumOfSquares(h)
    && if h == [] then mean == 0.0 && variance == 0.0
       else mean * |h| as real == Sum(h) && variance == Variance(squaredTotal, |h|, mean)
  }

  lemma DivideThenMultiply(x: real, n: real)
    requires n != 0.0
    ensures x / n * n == x
  {
  }

  lemma Distribute(a: real, b: real, c: real)
    ensures (a + b) * c == a * c + b * c
  {
  }

  /** A mean m of c values with the sum s, moved by d, is the mean of one value x more. */
  lemma MeanMoves(m: real, d: real, c: real, s: real, x: real)
    requires m * c == s && d * (c + 1.0) == x - m
    ensures (m + d) * (c + 1.0) == s + x
  {
    Distribute(m, d, c + 1.0);
    Distribute(c, 1.0, m);
    assert m * (c + 1.0) == (c + 1.0) * m && c * m == m * c;
  }

  lemma MovedIsMean(mean: real, c: nat, s: real, x: real)
    requires mean * c as real == s
    ensures Moved(mean, x, c + 1) * (c + 1) as real == s + x
  {
    var n := c as real + 1.0;
    assert (c + 1) as real == n;
    DivideThenMultiply(x - mean, n);
    MeanMoves(mean, (x - mean) / n, c as real, s, x);
  }

  lemma SumsAppend(h: seq<real>, x: real)
    ensures Sum(h + [x]) == Sum(h) + x && SumOfSquares(h + [x]) == SumOfSquares(h) + Square(x)
  {
    assert (h + [x])[..|h|] == h;
  }

  lemma MeanOfNothing(h: seq<real>, mean: real)
    requires h == [] && mean == 0.0
    ensures mean * |h| as real == Sum(h)
  {
  }

  /** Moving the mean towards the sample by the new weight keeps it the mean, and all moments what they are. */
  lemma SampleKeepsMoments(h: seq<real>, mean: real, squaredTotal: real, variance: real, x: real)
    requires Moments(h, mean, squaredTotal, variance)
    ensures var n := |h| + 1;
            var m, q := Moved(mean, x, n), squaredTotal + Square(x);
            Moments(h + [x], m, q, Variance(q, n, m))
  {
    hide Square, Variance, Moved, Sum, SumOfSquares;
    if h == [] {
      MeanOfNothing(h, mean);
    }
    MovedIsMean(mean, |h|, Sum(h), x);
    SumsAppend(h, x);
  }

  /** The sum of squared deviations from m, told by the sum of squares q, the sum s and the count n. */
  function Expanded(q: real, s: real, n: real, m: real): real {
    q - 2.0 * m * s + n * (m * m)
  }

  lemma ExpandStep(q: real, s: real, n: real, m: real, x: real)
    ensures Expanded(q, s, n, m) + Square(x - m) == Expanded(q + Square(x), s + x, n + 1.0, m)
    ensures Expanded(0.0, 0.0, 0.0, m) == 0.0
  {
    assert (x - m) * (x - m) == x * x - 2.0 * m * x + m * m;
  }

  lemma {:induction false} DeviationsExpand(h: seq<real>, m: real)
    ensures Deviations(h, m) == Expanded(SumOfSquares(h), Sum(h), |h| as real, m)
  {
    hide Expanded, Square;
    if h == [] {
      ExpandStep(0.0, 0.0, 0.0, m, m);
    } else {
      var front, x := h[..|h| - 1], h[|h| - 1];
      DeviationsExpand(front, m);
      ExpandStep(SumOfSquares(front), Sum(front), |front| as real, m, x);
    }
  }

  lemma SpreadAlgebra(q: real, s: real, w: real, m: real, n: real, v: real)
    requires q == w * n && s == m * n && v == w - m * m
    ensures v * n == Expanded(q, s, n, m)
  {
    assert v * n == w * n - n * (m * m);
    assert 2.0 * m * (m * n) == 2.0 * (n * (m * m));
  }

  lemma NonnegativeFactor(x: real, n: real)
    requires x * n >= 0.0 && n > 0.0
    ensures x >= 0.0
  {
  }

  /** The variance is the average squared deviation from the mean, so it is not negative. */
  lemma {:induction false} VarianceIsSpread(h: seq<real>, mean: real, squaredTotal: real, variance: real)
    requires Moments(h, mean, squaredTotal, variance) && h != []
    ensures mean * |h| as real == Sum(h)
    ensures variance * |h| as real == Deviations(h, mean)
    ensures variance >= 0.0
  {
    hide Expanded, Square;
    var n := |h| as real;
    DeviationsExpand(h, mean);
    DivideThenMultiply(squaredTotal, n);
    SpreadAlgebra(squaredTotal, Sum(h), squaredTotal / n, mean, n, variance);
    NonnegativeFactor(variance, n);
  }

  /** The mean is the average, and the variance the average squared deviation from it. */
  ghost predicate Averages(h: seq<real>, mean: real, variance: real) {
    && mean * |h| as real == Sum(h)
    && variance * |h| as real == Deviations(h, mean) && variance >= 0.0
  }

  lemma MomentsAreAverages(h: seq<real>, mean: real, squaredTotal: real, variance: real)
    requires Moments(h, mean, squaredTotal, variance) && h != []
    ensures Averages(h, mean, variance)
  {
    VarianceIsSpread(h, mean, squaredTotal, variance);
  }
}
