/**
 * The online mean and variance that the histogram and MoonSniff's live mode keep
 * (processing/moongen_src/histogram.cpp:35-56, moonsniff.cpp:76-105), over reals.
 */
module OnlineStats {

  datatype Stats = Stats(count: nat, mean: real, m2: real)

  const NO_STATS := Stats(0, 0.0, 0.0)

  function NextMean(mean: real, n: real, x: real): real
    requires n > 0.0
  {
    mean + (x - mean) / n
  }

  /** One measurement. */
  function Update(s: Stats, x: real): Stats {
    var n := s.count + 1;
    var mean := NextMean(s.mean, n as real, x);
    Stats(n, mean, s.m2 + Delta(s.mean, mean, x))
  }

  /** What a value adds to m2, from the means before and after it. */
  function Delta(before: real, after: real, x: real): real { (x - before) * (x - after) }

  // ---- The two-pass definitions ----

  function Sum(xs: seq<real>): real {
    if xs == [] then 0.0 else Sum(xs[..|xs| - 1]) + xs[|xs| - 1]
  }

  function Square(x: real): real { x * x }

  /** The sum of the squared deviations from `c`. */
  function Deviations(xs: seq<real>, c: real): real {
    if xs == [] then 0.0 else Deviations(xs[..|xs| - 1], c) + Square(xs[|xs| - 1] - c)
  }

  function Mean(xs: seq<real>): real
    requires xs != []
  {
    Sum(xs) / |xs| as real
  }

  function SampleVariance(xs: seq<real>): real
    requires |xs| >= 2
  {
    Deviations(xs, Mean(xs)) / (|xs| - 1) as real
  }

  function Times(n: nat, x: real): real { n as real * x }

  /**
   * The statistics are those of `xs`: count, mean times count, and the deviations from that mean;
   * without values everything is zero.
   */
  ghost predicate IsTwoPass(s: Stats, xs: seq<real>) {
    && s.count == |xs| && Times(s.count, s.mean) == Sum(xs) && s.m2 == Deviations(xs, s.mean)
    && (xs == [] ==> s == NO_STATS)
  }

  // ---- One measurement keeps them ----

  function SumOfSquares(xs: seq<real>): real {
    if xs == [] then 0.0 else SumOfSquares(xs[..|xs| - 1]) + Square(xs[|xs| - 1])
  }

  /** The squared deviations of `n` values from `c`, in terms of their sum and the sum of their squares. */
  function Spread(n: real, sum: real, squares: real, c: real): real {
    squares - 2.0 * (c * sum) + n * (c * c)
  }

  lemma SpreadStep(n: real, sum: real, squares: real, c: real, x: real)
    ensures Spread(n, sum, squares, c) + Square(x - c) == Spread(n + 1.0, sum + x, squares + Square(x), c)
  {
    assert c * (sum + x) == c * sum + c * x;
    assert (n + 1.0) * (c * c) == n * (c * c) + c * c;
    assert Square(x - c) == x * x - 2.0 * (c * x) + c * c;
  }

  lemma {:induction false} DeviationsExpand(xs: seq<real>, c: real, n: real)
    requires n == |xs| as real
    ensures Deviations(xs, c) == Spread(n, Sum(xs), SumOfSquares(xs), c)
    decreases |xs|
  {
    if xs != [] {
      var (ys, x) := (xs[..|xs| - 1], xs[|xs| - 1]);
      DeviationsExpand(ys, c, n - 1.0);
      SpreadStep(n - 1.0, Sum(ys), SumOfSquares(ys), c, x);
      assert n - 1.0 + 1.0 == n;
    }
  }

  lemma SpreadAtMean(n: real, v: real, squares: real)
    ensures Spread(n, n * v, squares, v) == squares - n * (v * v)
  {
    assert v * (n * v) == n * (v * v);
  }

  /** With n values of mean v, of which the last is x and the others have mean u. */
  lemma StepAlgebra(n: real, u: real, v: real, x: real)
    requires n * v == (n - 1.0) * u + x
    ensures Delta(u, v, x) == Square(x) - n * (v * v) + (n - 1.0) * (u * u)
  {
    var w := (n - 1.0) * u;
    assert x == n * v - w;
    assert x * v == n * (v * v) - w * v;
    assert x * u == n * v * u - w * u;
    assert w * v == n * u * v - u * v;
    assert w * u == n * (u * u) - u * u;
    assert (x - u) * (x - v) == x * x - x * v - x * u + u * v;
  }

  lemma NextMeanTimesCount(n: real, u: real, x: real)
    requires n > 0.0
    ensures n * NextMean(u, n, x) == (n - 1.0) * u + x
  {
    assert n * ((x - u) / n) == x - u;
  }

  /** The deviations after one more value `x`, from those before. */
  lemma SpreadUpdate(n: real, u: real, v: real, x: real, sum: real, squares: real)
    requires n * v == (n - 1.0) * u + x && sum == (n - 1.0) * u
    ensures Spread(n - 1.0, sum, squares, u) + Delta(u, v, x) == Spread(n, sum + x, squares + Square(x), v)
  {
    StepAlgebra(n, u, v, x);
    SpreadAtMean(n - 1.0, u, squares);
    SpreadAtMean(n, v, squares + Square(x));
  }

  lemma {:induction false} Snoc(xs: seq<real>, x: real)
    ensures Sum(xs + [x]) == Sum(xs) + x && SumOfSquares(xs + [x]) == SumOfSquares(xs) + Square(x)
  {
    assert (xs + [x])[..|xs|] == xs;
  }

  lemma {:induction false} DeviationsUpdate(xs: seq<real>, x: real, u: real, v: real, n: real)
    requires n - 1.0 == |xs| as real && Sum(xs) == (n - 1.0) * u && n * v == (n - 1.0) * u + x
    ensures Deviations(xs, u) + Delta(u, v, x) == Deviations(xs + [x], v)
  {
    var (s, q) := (Sum(xs), SumOfSquares(xs));
    SpreadUpdate(n, u, v, x, s, q);
    DeviationsExpand(xs, u, n - 1.0);
    Snoc(xs, x);
    assert |xs + [x]| as real == n;
    DeviationsExpand(xs + [x], v, n);
  }

  lemma {:induction false} DeviationsNext(xs: seq<real>, count: nat, u: real, x: real, v: real)
    requires count == |xs| && Times(count, u) == Sum(xs) && Times(count + 1, v) == Sum(xs) + x
    ensures Deviations(xs, u) + Delta(u, v, x) == Deviations(xs + [x], v)
  {
    DeviationsUpdate(xs, x, u, v, count as real + 1.0);
  }

  lemma NextMeanTimes(count: nat, u: real, x: real)
    ensures Times(count + 1, NextMean(u, (count + 1) as real, x)) == Times(count, u) + x
  {
    NextMeanTimesCount((count + 1) as real, u, x);
  }

  /** One measurement keeps the statistics those of all values so far. */
  lemma {:induction false} UpdateIsTwoPass(s: Stats, xs: seq<real>, x: real)
    requires IsTwoPass(s, xs)
    ensures IsTwoPass(Update(s, x), xs + [x])
  {
    var s' := Update(s, x);
    assert s'.count == s.count + 1;
    NextMeanTimes(s.count, s.mean, x);
    Snoc(xs, x);
    DeviationsNext(xs, s.count, s.mean, x, s'.mean);
  }

  function UpdateAll(xs: seq<real>): Stats {
    if xs == [] then NO_STATS else Update(UpdateAll(xs[..|xs| - 1]), xs[|xs| - 1])
  }

  /** After any sequence of measurements the statistics are those of the sequence. */
  lemma {:induction false} UpdateAllIsTwoPass(xs: seq<real>)
    ensures IsTwoPass(UpdateAll(xs), xs)
  {
    if xs != [] {
      var (ys, x) := (xs[..|xs| - 1], xs[|xs| - 1]);
      UpdateAllIsTwoPass(ys);
      UpdateIsTwoPass(UpdateAll(ys), ys, x);
      assert ys + [x] == xs;
    }
  }

  lemma Quotient(a: real, n: real, b: real)
    requires n * a == b && n > 0.0
    ensures a == b / n
  {
  }

  /** The online mean is the arithmetic mean, and m2 / (count - 1) the two-pass sample variance. */
  lemma {:induction false} FinalizedIsTwoPass(s: Stats, xs: seq<real>)
    requires IsTwoPass(s, xs)
    ensures xs != [] ==> s.mean == Mean(xs)
    ensures |xs| >= 2 ==> s.m2 / (s.count - 1) as real == SampleVariance(xs)
  {
    if xs != [] { Quotient(s.mean, |xs| as real, Sum(xs)); }
  }
}
