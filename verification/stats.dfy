/** Mean and population variance as `laplacian_variance` and
    `calculate_auto_threshold` compute them: mean first, then the average
    squared deviation from it. */
module Stats {

  /** Widens integer responses to the floating values the source sums. */
  function Reals(xs: seq<int>): (r: seq<real>)
    ensures |r| == |xs|
    ensures forall i :: 0 <= i < |xs| ==> r[i] == xs[i] as real
  {
    seq(|xs|, i requires 0 <= i < |xs| => xs[i] as real)
  }

  function Sum(xs: seq<real>): real {
    if |xs| == 0 then 0.0 else Sum(xs[..|xs| - 1]) + xs[|xs| - 1]
  }

  function SumSq(xs: seq<real>): real {
    if |xs| == 0 then 0.0 else SumSq(xs[..|xs| - 1]) + xs[|xs| - 1] * xs[|xs| - 1]
  }

  /** Sum of squared deviations from `m`. */
  function SumSqDev(xs: seq<real>, m: real): real {
    if |xs| == 0 then 0.0
    else SumSqDev(xs[..|xs| - 1], m) + (xs[|xs| - 1] - m) * (xs[|xs| - 1] - m)
  }

  /** The element count as a real, `len() as f64`; kept recursive so that the
      arithmetic below stays within the reals. */
  function Size(xs: seq<real>): real {
    if |xs| == 0 then 0.0 else Size(xs[..|xs| - 1]) + 1.0
  }

  lemma {:induction false} SizeIsLength(xs: seq<real>)
    ensures Size(xs) == |xs| as real
  {
    if |xs| > 0 {
      SizeIsLength(xs[..|xs| - 1]);
    }
  }

  lemma {:induction false} SizePositive(xs: seq<real>)
    requires |xs| > 0
    ensures Size(xs) >= 1.0
  {
    if |xs| > 1 {
      SizePositive(xs[..|xs| - 1]);
    }
  }

  function Mean(xs: seq<real>): real
    requires |xs| > 0
  {
    SizePositive(xs);
    Sum(xs) / Size(xs)
  }

  lemma {:induction false} SumSqDevNonNeg(xs: seq<real>, m: real)
    ensures SumSqDev(xs, m) >= 0.0
  {
    if |xs| > 0 {
      SumSqDevNonNeg(xs[..|xs| - 1], m);
      var d := xs[|xs| - 1] - m;
      assert d * d >= 0.0 by {
        if d < 0.0 { assert d * d == (-d) * (-d); }
      }
    }
  }

  /** Population variance; 0 for an empty sequence (the source returns early there). */
  function Variance(xs: seq<real>): (v: real)
    ensures v >= 0.0
    ensures |xs| == 0 ==> v == 0.0
  {
    if |xs| == 0 then 0.0
    else
      SumSqDevNonNeg(xs, Mean(xs));
      SizePositive(xs);
      SumSqDev(xs, Mean(xs)) / Size(xs)
  }

  /** d = q − 2ms + nm² over plain reals. */
  ghost predicate Expanded(d: real, q: real, s: real, n: real, m: real) {
    d == q - 2.0 * m * s + n * m * m
  }

  /** Σ (x² − 2mx + m²), accumulated element by element. */
  ghost function ExpandedSum(xs: seq<real>, m: real): real {
    if |xs| == 0 then 0.0
    else ExpandedSum(xs[..|xs| - 1], m) + (xs[|xs| - 1] * xs[|xs| - 1] - 2.0 * m * xs[|xs| - 1] + m * m)
  }

  lemma SquareExpand(x: real, m: real)
    ensures (x - m) * (x - m) == x * x - 2.0 * m * x + m * m
  {
  }

  lemma {:induction false} SumSqDevIsExpandedSum(xs: seq<real>, m: real)
    ensures SumSqDev(xs, m) == ExpandedSum(xs, m)
  {
    if |xs| > 0 {
      SumSqDevIsExpandedSum(xs[..|xs| - 1], m);
      SquareExpand(xs[|xs| - 1], m);
    }
  }

  /** Σ 2mx, element by element. */
  ghost function CrossSum(xs: seq<real>, m: real): real {
    if |xs| == 0 then 0.0 else CrossSum(xs[..|xs| - 1], m) + 2.0 * m * xs[|xs| - 1]
  }

  /** Σ m², one term per element. */
  ghost function ConstSum(xs: seq<real>, m: real): real {
    if |xs| == 0 then 0.0 else ConstSum(xs[..|xs| - 1], m) + m * m
  }

  /** The expanded sum splits into three sums, term by term. */
  lemma {:induction false} ExpandedSumLinear(xs: seq<real>, m: real)
    ensures ExpandedSum(xs, m) == SumSq(xs) - CrossSum(xs, m) + ConstSum(xs, m)
  {
    if |xs| > 0 {
      ExpandedSumLinear(xs[..|xs| - 1], m);
    }
  }

  lemma CrossStep(c: real, s: real, x: real, m: real)
    requires c == 2.0 * m * s
    ensures c + 2.0 * m * x == 2.0 * m * (s + x)
  {
  }

  lemma {:induction false} CrossSumScaled(xs: seq<real>, m: real)
    ensures CrossSum(xs, m) == 2.0 * m * Sum(xs)
  {
    if |xs| > 0 {
      CrossSumScaled(xs[..|xs| - 1], m);
      CrossStep(CrossSum(xs[..|xs| - 1], m), Sum(xs[..|xs| - 1]), xs[|xs| - 1], m);
    }
  }

  lemma ConstStep(c: real, n: real, m: real)
    requires c == n * m * m
    ensures c + m * m == (n + 1.0) * m * m
  {
  }

  lemma {:induction false} ConstSumScaled(xs: seq<real>, m: real)
    ensures ConstSum(xs, m) == Size(xs) * m * m
  {
    if |xs| > 0 {
      ConstSumScaled(xs[..|xs| - 1], m);
      ConstStep(ConstSum(xs[..|xs| - 1], m), Size(xs[..|xs| - 1]), m);
    }
  }

  lemma ExpandedSumSplits(xs: seq<real>, m: real)
    ensures Expanded(ExpandedSum(xs, m), SumSq(xs), Sum(xs), Size(xs), m)
  {
    ExpandedSumLinear(xs, m);
    CrossSumScaled(xs, m);
    ConstSumScaled(xs, m);
  }

  /** Expanding the square: the sum of squared deviations in terms of plain sums. */
  lemma SumSqDevExpand(xs: seq<real>, m: real)
    ensures Expanded(SumSqDev(xs, m), SumSq(xs), Sum(xs), Size(xs), m)
  {
    SumSqDevIsExpandedSum(xs, m);
    ExpandedSumSplits(xs, m);
  }

  /** n·q − s² ≥ 0 over plain reals (n elements, sum s, sum of squares q). */
  ghost predicate NumeratorNonNeg(n: real, s: real, q: real) {
    n * q - s * s >= 0.0
  }

  /** Σ(xᵢ − x)² ≥ 0 written out in plain sums: q − 2xs + nx² ≥ 0. */
  ghost predicate DeviationNonNeg(n: real, s: real, q: real, x: real) {
    q - 2.0 * x * s + n * x * x >= 0.0
  }

  lemma DeviationFromSums(xs: seq<real>, x: real)
    ensures DeviationNonNeg(Size(xs), Sum(xs), SumSq(xs), x)
  {
    SumSqDevExpand(xs, x);
    SumSqDevNonNeg(xs, x);
  }

  lemma AppendStep(n: real, q: real, s: real, x: real, bigN: real, bigQ: real, bigS: real)
    requires bigN == n + 1.0 && bigQ == q + x * x && bigS == s + x
    requires NumeratorNonNeg(n, s, q)
    requires DeviationNonNeg(n, s, q, x)
    ensures NumeratorNonNeg(bigN, bigS, bigQ)
  {
    assert bigN * bigQ - bigS * bigS == (n * q - s * s) + (q - 2.0 * x * s + n * x * x);
  }

  /** The variance numerator n·Σx² − (Σx)² is never negative (stated without division). */
  lemma {:induction false} VarianceNumeratorNonNeg(xs: seq<real>)
    ensures NumeratorNonNeg(Size(xs), Sum(xs), SumSq(xs))
  {
    if |xs| > 0 {
      var init := xs[..|xs| - 1];
      var x := xs[|xs| - 1];
      VarianceNumeratorNonNeg(init);
      DeviationFromSums(init, x);
      AppendStep(Size(init), SumSq(init), Sum(init), x, Size(xs), SumSq(xs), Sum(xs));
    }
  }

  /** n²·v = n·Σx² − (Σx)²: `v` is the variance of `xs`, stated without division. */
  ghost predicate ScaledVariance(xs: seq<real>, v: real) {
    ScaledRelation(Size(xs), Sum(xs), SumSq(xs), v)
  }

  /** n²·v = n·q − s² over plain reals. */
  ghost predicate ScaledRelation(n: real, s: real, q: real, v: real) {
    n * n * v == n * q - s * s
  }

  lemma ScaledIdentity(n: real, s: real, q: real, d: real, m: real)
    requires m * n == s
    requires d == q - 2.0 * m * s + n * m * m
    ensures n * d == n * q - s * s
  {
    assert n * d == n * q - 2.0 * (m * n) * s + (m * n) * (m * n);
  }

  /** The algebra behind `VarianceScaled`, over plain reals: with mean m = s/n
      and d = q − 2ms + nm², n²·(d/n) = nq − s². */
  lemma DivideOut(n: real, s: real, q: real, d: real, m: real, v: real)
    requires n > 0.0 && m == s / n && v == d / n
    requires d == q - 2.0 * m * s + n * m * m
    ensures ScaledRelation(n, s, q, v)
  {
    assert m * n == s;
    assert n * v == d;
    ScaledIdentity(n, s, q, d, m);
  }

  /** Dividing out: n²·Var = n·Σx² − (Σx)², so the source's mean-then-deviation
      formula is the textbook one. */
  lemma VarianceScaled(xs: seq<real>)
    requires |xs| > 0
    ensures ScaledVariance(xs, Variance(xs))
  {
    SizePositive(xs);
    var m := Mean(xs);
    SumSqDevExpand(xs, m);
    DivideOut(Size(xs), Sum(xs), SumSq(xs), SumSqDev(xs, m), m, Variance(xs));
  }

  lemma {:induction false} SumOfConstant(xs: seq<real>, c: real)
    requires forall i :: 0 <= i < |xs| ==> xs[i] == c
    ensures Sum(xs) == Size(xs) * c
    ensures SumSqDev(xs, c) == 0.0
  {
    if |xs| > 0 {
      SumOfConstant(xs[..|xs| - 1], c);
    }
  }

  /** A constant sequence has zero variance. */
  lemma VarianceOfConstant(xs: seq<real>, c: real)
    requires forall i :: 0 <= i < |xs| ==> xs[i] == c
    ensures Variance(xs) == 0.0
  {
    if |xs| > 0 {
      SumOfConstant(xs, c);
      SizePositive(xs);
      assert Mean(xs) == c;
    }
  }
}
