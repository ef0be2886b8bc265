/**
 * ROUGE-W (src/benchmark_framework/metrics/rouge_w.py): the weighted
 * longest common subsequence of Lin (2004), filled in by a dynamic
 * programme over two tables `c` (scores) and `w` (run lengths), and the
 * recall, precision and F-measure built on it.
 *
 * The weighting function `k ** alpha` and its inverse `v ** (1 / alpha)`
 * are real powers; here they are the parameters `weight` and `inverse` of
 * the metric, and the properties that need something of them say what.
 */
module RougeW {
  import opened Wrappers
  import opened BaseMetric
  import opened Fractions

  /** `RougeWMetric` after construction. */
  datatype Metric = Metric(alpha: real, beta: real, weight: nat -> real, inverse: real -> real)

  /** The constructor: `alpha` below 1 raises ValueError. */
  function NewMetric(alpha: real, beta: real, weight: nat -> real, inverse: real -> real): (r: Result<Metric>)
    ensures r.Err? <==> alpha < 1.0
    ensures r.Err? ==> r.error == "alpha must be >= 1.0"
    ensures r.Ok? ==> r.value.alpha == alpha && r.value.beta == beta
  {
    if alpha < 1.0 then Err("alpha must be >= 1.0") else Ok(Metric(alpha, beta, weight, inverse))
  }

  /** `self.tolerance`, 1e-9. */
  const Tolerance: real := 0.000000001

  // ---------------------------------------------------------------------
  // The dynamic programme, cell by cell
  // ---------------------------------------------------------------------

  /**
   * The pair `(c[i][j], w[i][j])` that `calculate_wlcs` stores for the first
   * `i` reference tokens and the first `j` prediction tokens.
   */
  function Cell(f: nat -> real, ref: seq<string>, pred: seq<string>, i: nat, j: nat): (real, nat)
    requires i <= |ref| && j <= |pred|
    decreases i + j
  {
    if i == 0 || j == 0 then (0.0, 0)
    else if ref[i - 1] == pred[j - 1] then
      var diag := Cell(f, ref, pred, i - 1, j - 1);
      (diag.0 + f(diag.1 + 1) - f(diag.1), diag.1 + 1)
    else
      var up := Cell(f, ref, pred, i - 1, j).0;
      var left := Cell(f, ref, pred, i, j - 1).0;
      if up > left then (up, 0) else (left, 0)
  }

  /** `calculate_wlcs(prediction_tokens, reference_tokens)`. */
  function WLCS(f: nat -> real, pred: seq<string>, ref: seq<string>): real {
    if |ref| == 0 || |pred| == 0 then 0.0 else Cell(f, ref, pred, |ref|, |pred|).0
  }

  /** Cell `(a, b)` of both tables holds what the programme defines for it. */
  ghost predicate Filled(f: nat -> real, ref: seq<string>, pred: seq<string>,
                         c: array2<real>, w: array2<nat>, a: nat, b: nat)
    reads c, w
    requires c.Length0 == w.Length0 == |ref| + 1 && c.Length1 == w.Length1 == |pred| + 1
    requires a <= |ref| && b <= |pred|
  {
    (c[a, b], w[a, b]) == Cell(f, ref, pred, a, b)
  }

  /** `calculate_wlcs`: the two tables filled row by row, then `c[m][n]`. */
  method CalculateWLCS(f: nat -> real, predictionTokens: seq<string>, referenceTokens: seq<string>) returns (r: real)
    ensures r == WLCS(f, predictionTokens, referenceTokens)
  {
    var m := |referenceTokens|;
    var n := |predictionTokens|;
    if m == 0 || n == 0 {
      return 0.0;
    }
    var c := new real[m + 1, n + 1]((_, _) => 0.0);
    var w := new nat[m + 1, n + 1]((_, _) => 0);
    var i := 1;
    while i <= m
      invariant 1 <= i <= m + 1
      invariant RowsFilled(f, referenceTokens, predictionTokens, c, w, i)
      invariant forall a :: i <= a <= m ==> c[a, 0] == 0.0 && w[a, 0] == 0
    {
      FillRow(f, referenceTokens, predictionTokens, c, w, i);
      i := i + 1;
    }
    assert Filled(f, referenceTokens, predictionTokens, c, w, m, n);
    r := c[m, n];
  }

  /** Every cell of the rows before `i` holds what the programme defines for it. */
  ghost predicate RowsFilled(f: nat -> real, ref: seq<string>, pred: seq<string>,
                             c: array2<real>, w: array2<nat>, i: nat)
    reads c, w
    requires c.Length0 == w.Length0 == |ref| + 1 && c.Length1 == w.Length1 == |pred| + 1
    requires i <= |ref| + 1
  {
    forall a, b :: 0 <= a < i && 0 <= b <= |pred| ==> (c[a, b], w[a, b]) == Cell(f, ref, pred, a, b)
  }

  /** The inner loop: row `i` filled from left to right, every other row left alone. */
  method FillRow(f: nat -> real, ref: seq<string>, pred: seq<string>,
                 c: array2<real>, w: array2<nat>, i: nat)
    modifies c, w
    requires c != w as object
    requires c.Length0 == w.Length0 == |ref| + 1 && c.Length1 == w.Length1 == |pred| + 1
    requires 1 <= i <= |ref|
    requires RowsFilled(f, ref, pred, c, w, i)
    requires c[i, 0] == 0.0 && w[i, 0] == 0
    ensures RowsFilled(f, ref, pred, c, w, i + 1)
    ensures forall a, b :: 0 <= a < c.Length0 && 0 <= b < c.Length1 && a != i ==>
              c[a, b] == old(c[a, b]) && w[a, b] == old(w[a, b])
  {
    var j := 1;
    while j <= |pred|
      invariant 1 <= j <= |pred| + 1
      invariant RowsFilled(f, ref, pred, c, w, i)
      invariant forall b :: 0 <= b < j ==> (c[i, b], w[i, b]) == Cell(f, ref, pred, i, b)
      invariant forall a, b :: 0 <= a < c.Length0 && 0 <= b < c.Length1 && a != i ==>
                  c[a, b] == old(c[a, b]) && w[a, b] == old(w[a, b])
    {
      FillCell(f, ref, pred, c, w, i, j);
      j := j + 1;
    }
  }

  /** One step of the inner loop: cell `(i, j)` from its three neighbours. */
  method FillCell(f: nat -> real, ref: seq<string>, pred: seq<string>,
                  c: array2<real>, w: array2<nat>, i: nat, j: nat)
    modifies c, w
    requires c != w as object
    requires c.Length0 == w.Length0 == |ref| + 1 && c.Length1 == w.Length1 == |pred| + 1
    requires 1 <= i <= |ref| && 1 <= j <= |pred|
    requires Filled(f, ref, pred, c, w, i - 1, j - 1)
    requires Filled(f, ref, pred, c, w, i - 1, j)
    requires Filled(f, ref, pred, c, w, i, j - 1)
    ensures Filled(f, ref, pred, c, w, i, j)
    ensures forall a, b :: 0 <= a < c.Length0 && 0 <= b < c.Length1 && (a != i || b != j) ==>
              c[a, b] == old(c[a, b]) && w[a, b] == old(w[a, b])
  {
    if ref[i - 1] == pred[j - 1] {
      var k := w[i - 1, j - 1];
      c[i, j] := c[i - 1, j - 1] + f(k + 1) - f(k);
      w[i, j] := k + 1;
    } else if c[i - 1, j] > c[i, j - 1] {
      c[i, j] := c[i - 1, j];
      w[i, j] := 0;
    } else {
      c[i, j] := c[i, j - 1];
      w[i, j] := 0;
    }
  }

  // ---------------------------------------------------------------------
  // What the table holds
  // ---------------------------------------------------------------------

  /**
   * The run length of cell `(i, j)` is the length of a common suffix of
   * `ref[..i]` and `pred[..j]`: their last `k` tokens agree.
   */
  lemma {:induction false} RunIsCommonSuffix(f: nat -> real, ref: seq<string>, pred: seq<string>, i: nat, j: nat)
    requires i <= |ref| && j <= |pred|
    ensures var k := Cell(f, ref, pred, i, j).1;
      k <= i && k <= j && ref[i - k..i] == pred[j - k..j]
    decreases i + j
  {
    if i != 0 && j != 0 && ref[i - 1] == pred[j - 1] {
      RunIsCommonSuffix(f, ref, pred, i - 1, j - 1);
      var k := Cell(f, ref, pred, i - 1, j - 1).1;
      assert Cell(f, ref, pred, i, j).1 == k + 1;
      SliceSnoc(ref, i - 1 - k, i - 1);
      SliceSnoc(pred, j - 1 - k, j - 1);
    }
  }

  /**
   * ... and of the longest one: the tokens just before the run differ, or
   * one of the prefixes is used up.
   */
  lemma {:induction false} RunIsMaximal(f: nat -> real, ref: seq<string>, pred: seq<string>, i: nat, j: nat)
    requires i <= |ref| && j <= |pred|
    ensures var k := Cell(f, ref, pred, i, j).1;
      k <= i && k <= j && (k == i || k == j || ref[i - k - 1] != pred[j - k - 1])
    decreases i + j
  {
    if i != 0 && j != 0 && ref[i - 1] == pred[j - 1] {
      RunIsMaximal(f, ref, pred, i - 1, j - 1);
    }
  }

  lemma SliceSnoc(s: seq<string>, a: nat, b: nat)
    requires a <= b < |s|
    ensures s[a..b + 1] == s[a..b] + [s[b]]
  {
  }

  /** The longest common subsequence by its textbook recurrence. */
  function LCS(a: seq<string>, b: seq<string>): nat
    decreases |a| + |b|
  {
    if a == [] || b == [] then 0
    else if a[|a| - 1] == b[|b| - 1] then LCS(a[..|a| - 1], b[..|b| - 1]) + 1
    else
      var x := LCS(a[..|a| - 1], b);
      var y := LCS(a, b[..|b| - 1]);
      if x > y then x else y
  }

  /** The common subsequence is no longer than either side. */
  lemma {:induction false} LCSBounds(a: seq<string>, b: seq<string>)
    ensures LCS(a, b) <= |a| && LCS(a, b) <= |b|
    decreases |a| + |b|
  {
    if a != [] && b != [] {
      LCSBounds(a[..|a| - 1], b[..|b| - 1]);
      LCSBounds(a[..|a| - 1], b);
      LCSBounds(a, b[..|b| - 1]);
    }
  }

  /** A sequence is its own longest common subsequence. */
  lemma {:induction false} LCSOfIdentical(a: seq<string>)
    ensures LCS(a, a) == |a|
    decreases |a|
  {
    if a != [] {
      LCSOfIdentical(a[..|a| - 1]);
    }
  }

  /** The weight `k ** 1`. */
  function Linear(k: nat): real {
    k as real
  }

  /**
   * With the weight `k ** 1` every match adds exactly 1, so every cell holds
   * the length of the longest common subsequence of the two prefixes.
   */
  lemma {:induction false} LinearCellIsLCS(ref: seq<string>, pred: seq<string>, i: nat, j: nat)
    requires i <= |ref| && j <= |pred|
    ensures Cell(Linear, ref, pred, i, j).0 == LCS(ref[..i], pred[..j]) as real
    decreases i + j
  {
    if i != 0 && j != 0 {
      assert ref[..i][..i - 1] == ref[..i - 1];
      assert pred[..j][..j - 1] == pred[..j - 1];
      LinearCellIsLCS(ref, pred, i - 1, j - 1);
      LinearCellIsLCS(ref, pred, i - 1, j);
      LinearCellIsLCS(ref, pred, i, j - 1);
    }
  }

  /** With `alpha = 1` the weighted score is the plain LCS length. */
  lemma LinearWLCSIsLCS(pred: seq<string>, ref: seq<string>)
    ensures WLCS(Linear, pred, ref) == LCS(ref, pred) as real
  {
    LinearCellIsLCS(ref, pred, |ref|, |pred|);
    assert ref[..|ref|] == ref && pred[..|pred|] == pred;
  }

  /**
   * Two identical prefixes match as one run: the score telescopes to
   * `f(i) - f(0)` and the run is the whole prefix.
   */
  lemma {:induction false} IdenticalCell(f: nat -> real, t: seq<string>, i: nat)
    requires i <= |t|
    ensures Cell(f, t, t, i, i) == (f(i) - f(0), i)
    decreases i
  {
    if i != 0 {
      IdenticalCell(f, t, i - 1);
    }
  }

  /** A non-empty list against itself scores `f(|t|) - f(0)`, that is `|t| ** alpha`. */
  lemma IdenticalWLCS(f: nat -> real, t: seq<string>)
    requires t != []
    ensures WLCS(f, t, t) == f(|t|) - f(0)
  {
    IdenticalCell(f, t, |t|);
  }

  /** The table of the swapped lists is the transposed table. */
  lemma {:induction false} CellTransposed(f: nat -> real, a: seq<string>, b: seq<string>, i: nat, j: nat)
    requires i <= |a| && j <= |b|
    ensures Cell(f, a, b, i, j) == Cell(f, b, a, j, i)
    decreases i + j
  {
    if i != 0 && j != 0 {
      if a[i - 1] == b[j - 1] {
        CellTransposed(f, a, b, i - 1, j - 1);
      } else {
        CellTransposed(f, a, b, i - 1, j);
        CellTransposed(f, a, b, i, j - 1);
        var up, left := Cell(f, a, b, i - 1, j).0, Cell(f, a, b, i, j - 1).0;
        assert Cell(f, a, b, i, j) == if up > left then (up, 0) else (left, 0);
        assert Cell(f, b, a, j, i) == if left > up then (left, 0) else (up, 0);
      }
    }
  }

  /** The weighted score does not depend on which list is the prediction. */
  lemma WLCSSymmetric(f: nat -> real, pred: seq<string>, ref: seq<string>)
    ensures WLCS(f, pred, ref) == WLCS(f, ref, pred)
  {
    CellTransposed(f, ref, pred, |ref|, |pred|);
  }

  /** `k ** alpha` never decreases as `k` grows. */
  ghost predicate Nondecreasing(f: nat -> real) {
    forall k: nat :: f(k) <= f(k + 1)
  }

  /** With a non-decreasing weight no cell is negative. */
  lemma {:induction false} CellNonNegative(f: nat -> real, ref: seq<string>, pred: seq<string>, i: nat, j: nat)
    requires Nondecreasing(f)
    requires i <= |ref| && j <= |pred|
    ensures Cell(f, ref, pred, i, j).0 >= 0.0
    decreases i + j
  {
    if i != 0 && j != 0 {
      if ref[i - 1] == pred[j - 1] {
        CellNonNegative(f, ref, pred, i - 1, j - 1);
        var k := Cell(f, ref, pred, i - 1, j - 1).1;
        assert f(k) <= f(k + 1);
      } else {
        CellNonNegative(f, ref, pred, i - 1, j);
      }
    }
  }

  lemma WLCSNonNegative(f: nat -> real, pred: seq<string>, ref: seq<string>)
    requires Nondecreasing(f)
    ensures WLCS(f, pred, ref) >= 0.0
  {
    if |ref| != 0 && |pred| != 0 {
      CellNonNegative(f, ref, pred, |ref|, |pred|);
    }
  }

  // ---------------------------------------------------------------------
  // Recall, precision and F-measure
  // ---------------------------------------------------------------------

  /** `_inverse_weight_function`: a negative value raises ValueError. */
  function InverseWeight(metric: Metric, value: real): (r: Result<real>)
    ensures r.Err? <==> value < 0.0
    ensures r.Err? ==> r.error == "value must be >= 0"
    ensures r.Ok? ==> r.value == metric.inverse(value)
  {
    if value < 0.0 then Err("value must be >= 0") else Ok(metric.inverse(value))
  }

  /**
   * The range check after each rate: a value within the tolerance of
   * [0, 1] is pulled into it, one beyond the tolerance raises ValueError.
   */
  function Clamp(name: string, x: real): (r: Result<real>)
    ensures r.Err? <==> x < -Tolerance || x > 1.0 + Tolerance
    ensures r.Ok? ==> 0.0 <= r.value <= 1.0
    ensures 0.0 <= x <= 1.0 ==> r == Ok(x)
    ensures r.Err? && x < 0.0 ==> r.error == name + " is significantly below 0"
    ensures r.Err? && x > 1.0 ==> r.error == name + " is significantly above 1"
  {
    if x < 0.0 then
      if x < -Tolerance then Err(name + " is significantly below 0") else Ok(0.0)
    else if x > 1.0 then
      if x > 1.0 + Tolerance then Err(name + " is significantly above 1") else Ok(1.0)
    else Ok(x)
  }

  /** The inverse of the score divided by `length`, checked for range; 0 when `length` is 0. */
  function Rate(metric: Metric, name: string, wlcs: real, length: nat): (r: Result<real>)
    ensures r.Ok? ==> 0.0 <= r.value <= 1.0
  {
    if length == 0 then Ok(0.0)
    else
      var inverse := InverseWeight(metric, wlcs);
      if inverse.Err? then Err(inverse.error)
      else Clamp(name, inverse.value / length as real)
  }

  /** `calculate_recall` on normalised tokens: the rate over the reference length. */
  function TokenRecall(metric: Metric, pred: seq<string>, ref: seq<string>): Result<real> {
    Rate(metric, "Recall", WLCS(metric.weight, pred, ref), |ref|)
  }

  /** `calculate_precision` on normalised tokens: the rate over the prediction length. */
  function TokenPrecision(metric: Metric, pred: seq<string>, ref: seq<string>): Result<real> {
    Rate(metric, "Precision", WLCS(metric.weight, pred, ref), |pred|)
  }

  /** The weighted harmonic mean: `(1 + b2) * p * r / (r + b2 * p)`, 0 when the denominator is 0. */
  function FValue(beta: real, precision: real, recall: real): real {
    var betaSquared := beta * beta;
    var denominator := recall + betaSquared * precision;
    if denominator == 0.0 then 0.0 else (1.0 + betaSquared) * precision * recall / denominator
  }

  /** `calculate_f_measure` on normalised tokens: recall first, then precision, then the range check. */
  function TokenFMeasure(metric: Metric, pred: seq<string>, ref: seq<string>): (r: Result<real>)
    ensures r.Err? <==> TokenRecall(metric, pred, ref).Err? || TokenPrecision(metric, pred, ref).Err?
    ensures r.Ok? ==> 0.0 <= r.value <= 1.0
    ensures r.Ok? ==>
      r.value == FValue(metric.beta, TokenPrecision(metric, pred, ref).value, TokenRecall(metric, pred, ref).value)
  {
    var recall, precision := TokenRecall(metric, pred, ref), TokenPrecision(metric, pred, ref);
    FMeasureOfMeaning(metric.beta, recall, precision);
    FMeasureOf(metric.beta, recall, precision)
  }

  /** The body of `calculate_f_measure` once recall and precision are known. */
  function FMeasureOf(beta: real, recall: Result<real>, precision: Result<real>): Result<real> {
    if recall.Err? then recall
    else if precision.Err? then precision
    else if recall.value + beta * beta * precision.value == 0.0 then Ok(0.0)
    else Clamp("F-measure", FValue(beta, precision.value, recall.value))
  }

  function Recall(metric: Metric, prediction: string, reference: string): Result<real> {
    TokenRecall(metric, NormalizedWords(prediction), NormalizedWords(reference))
  }

  function Precision(metric: Metric, prediction: string, reference: string): Result<real> {
    TokenPrecision(metric, NormalizedWords(prediction), NormalizedWords(reference))
  }

  /**
   * `_compute`: the F-measure of the two texts, which fails exactly when
   * their recall or precision does and otherwise is a rate.
   */
  function Compute(metric: Metric, prediction: string, reference: string): (r: Result<real>)
    ensures r.Err? <==> Recall(metric, prediction, reference).Err? || Precision(metric, prediction, reference).Err?
    ensures r.Ok? ==> 0.0 <= r.value <= 1.0
  {
    TokenFMeasure(metric, NormalizedWords(prediction), NormalizedWords(reference))
  }

  /**
   * With a non-decreasing weight the inverse never sees a negative score:
   * recall and precision are the range-checked inverse over the length.
   */
  lemma RatesOfNondecreasingWeight(metric: Metric, pred: seq<string>, ref: seq<string>)
    requires Nondecreasing(metric.weight)
    ensures ref != [] ==>
      TokenRecall(metric, pred, ref) == Clamp("Recall", metric.inverse(WLCS(metric.weight, pred, ref)) / |ref| as real)
    ensures pred != [] ==>
      TokenPrecision(metric, pred, ref) == Clamp("Precision", metric.inverse(WLCS(metric.weight, pred, ref)) / |pred| as real)
  {
    WLCSNonNegative(metric.weight, pred, ref);
  }

  /** Swapping prediction and reference swaps recall and precision. */
  lemma RecallPrecisionSwap(metric: Metric, pred: seq<string>, ref: seq<string>)
    ensures TokenRecall(metric, pred, ref) == Rate(metric, "Recall", WLCS(metric.weight, ref, pred), |ref|)
    ensures TokenPrecision(metric, ref, pred) == Rate(metric, "Precision", WLCS(metric.weight, pred, ref), |ref|)
    ensures TokenRecall(metric, pred, ref).Ok? <==> TokenPrecision(metric, ref, pred).Ok?
    ensures TokenRecall(metric, pred, ref).Ok? ==>
      TokenRecall(metric, pred, ref).value == TokenPrecision(metric, ref, pred).value
  {
    WLCSSymmetric(metric.weight, pred, ref);
  }

  /** The weighted harmonic mean of two rates is a rate. */
  lemma FValueInUnit(beta: real, precision: real, recall: real)
    requires 0.0 <= precision <= 1.0 && 0.0 <= recall <= 1.0
    ensures 0.0 <= FValue(beta, precision, recall) <= 1.0
  {
    SquareNonNegative(beta);
    WeightedHarmonicInUnit(beta * beta, precision, recall);
  }

  lemma WeightedHarmonicInUnit(b2: real, p: real, r: real)
    requires b2 >= 0.0
    requires 0.0 <= p <= 1.0 && 0.0 <= r <= 1.0
    ensures r + b2 * p != 0.0 ==> 0.0 <= (1.0 + b2) * p * r / (r + b2 * p) <= 1.0
  {
    var d := r + b2 * p;
    if d != 0.0 {
      var x := p * r;
      UnitScale(p, r);
      UnitScale(r, p);
      assert r * p == x;
      ScaleMonotone(b2, x, p);
      ScaleMonotone(b2, 0.0, p);
      ScaleMonotone(b2, 0.0, x);
      assert d > 0.0;
      var n := (1.0 + b2) * p * r;
      assert n == x + b2 * x;
      assert x <= r && b2 * x <= b2 * p;
      assert 0.0 <= n <= d;
      UnitQuotient(n, d);
    }
  }

  /** Once both rates are in, the range check of the F-measure passes the mean through. */
  lemma FMeasureOfRates(beta: real, precision: real, recall: real)
    requires 0.0 <= precision <= 1.0 && 0.0 <= recall <= 1.0
    ensures Clamp("F-measure", FValue(beta, precision, recall)) == Ok(FValue(beta, precision, recall))
  {
    FValueInUnit(beta, precision, recall);
  }

  /** With `beta = 1` the mean does not care which rate is which. */
  lemma FValueSymmetric(precision: real, recall: real)
    ensures FValue(1.0, precision, recall) == FValue(1.0, recall, precision)
  {
    assert 2.0 * precision * recall == 2.0 * recall * precision;
  }

  /**
   * The F-measure never trips its own range check: it fails exactly when
   * recall or precision does, and otherwise is their weighted harmonic
   * mean, in [0, 1].
   */
  lemma FMeasureOfMeaning(beta: real, recall: Result<real>, precision: Result<real>)
    requires recall.Ok? ==> 0.0 <= recall.value <= 1.0
    requires precision.Ok? ==> 0.0 <= precision.value <= 1.0
    ensures FMeasureOf(beta, recall, precision).Err? <==> recall.Err? || precision.Err?
    ensures FMeasureOf(beta, recall, precision).Ok? ==>
      FMeasureOf(beta, recall, precision).value == FValue(beta, precision.value, recall.value) &&
      0.0 <= FMeasureOf(beta, recall, precision).value <= 1.0
  {
    if recall.Ok? && precision.Ok? {
      FMeasureOfRates(beta, precision.value, recall.value);
      FValueInUnit(beta, precision.value, recall.value);
    }
  }

  /** With `beta = 1` the F-measure is the same either way round, and so is whether it fails. */
  lemma FMeasureSymmetric(metric: Metric, pred: seq<string>, ref: seq<string>)
    requires metric.beta == 1.0
    ensures TokenFMeasure(metric, pred, ref).Ok? <==> TokenFMeasure(metric, ref, pred).Ok?
    ensures TokenFMeasure(metric, pred, ref).Ok? ==>
      TokenFMeasure(metric, pred, ref).value == TokenFMeasure(metric, ref, pred).value
  {
    RecallPrecisionSwap(metric, pred, ref);
    RecallPrecisionSwap(metric, ref, pred);
    var recall, precision := TokenRecall(metric, pred, ref), TokenPrecision(metric, pred, ref);
    if recall.Ok? && precision.Ok? {
      FValueSymmetric(precision.value, recall.value);
    }
  }

  /** `k ** alpha` vanishes at 0, is never negative, and its inverse undoes it. */
  ghost predicate InvertibleWeight(metric: Metric) {
    metric.weight(0) == 0.0 &&
    forall k: nat :: metric.weight(k) >= 0.0 && metric.inverse(metric.weight(k)) == k as real
  }

  /** A non-empty text against itself has recall and precision 1. */
  lemma IdenticalRatesOne(metric: Metric, t: seq<string>)
    requires InvertibleWeight(metric)
    requires t != []
    ensures TokenRecall(metric, t, t) == Ok(1.0)
    ensures TokenPrecision(metric, t, t) == Ok(1.0)
  {
    var wlcs := WLCS(metric.weight, t, t);
    IdenticalWLCS(metric.weight, t);
    assert metric.inverse(metric.weight(|t|)) == |t| as real;
    RateOfFullMatch(metric, "Recall", wlcs, |t|);
    RateOfFullMatch(metric, "Precision", wlcs, |t|);
  }

  /** ... and so F-measure 1, whatever `beta`. */
  lemma IdenticalScoresOne(metric: Metric, t: seq<string>)
    requires InvertibleWeight(metric)
    requires t != []
    ensures TokenFMeasure(metric, t, t).Ok? && TokenFMeasure(metric, t, t).value == 1.0
  {
    IdenticalRatesOne(metric, t);
    var recall, precision := TokenRecall(metric, t, t), TokenPrecision(metric, t, t);
    assert recall.value == 1.0 && precision.value == 1.0;
    FValueOfOnes(metric.beta);
    assert FValue(metric.beta, precision.value, recall.value) == 1.0;
  }

  lemma RateOfFullMatch(metric: Metric, name: string, wlcs: real, length: nat)
    requires length > 0 && wlcs >= 0.0 && metric.inverse(wlcs) == length as real
    ensures Rate(metric, name, wlcs, length) == Ok(1.0)
  {
    assert length as real / length as real == 1.0;
  }

  lemma FValueOfOnes(beta: real)
    ensures FValue(beta, 1.0, 1.0) == 1.0
  {
    SquareNonNegative(beta);
    var d := 1.0 + beta * beta;
    assert FValue(beta, 1.0, 1.0) == d / d;
    assert d / d == 1.0;
  }

  /** Two texts without tokens have score 0 and no error. */
  lemma EmptyScoresZero(metric: Metric)
    ensures TokenFMeasure(metric, [], []) == Ok(0.0)
  {
  }

  /**
   * With `alpha = 1` (the weight `k ** 1`, inverted by the identity) recall
   * is the LCS length over the reference length and never fails.
   */
  lemma LinearRecallIsLCSRate(metric: Metric, pred: seq<string>, ref: seq<string>)
    requires metric.weight == Linear
    requires forall v: real :: v >= 0.0 ==> metric.inverse(v) == v
    requires ref != []
    ensures TokenRecall(metric, pred, ref) == Ok(LCS(ref, pred) as real / |ref| as real)
  {
    LinearWLCSIsLCS(pred, ref);
    LCSBounds(ref, pred);
    var l := LCS(ref, pred) as real;
    assert metric.inverse(l) == l;
    UnitQuotient(l, |ref| as real);
  }

  /** Recall of a text against a reference is precision of the reference against the text. */
  lemma RecallIsSwappedPrecision(metric: Metric, prediction: string, reference: string)
    ensures Recall(metric, prediction, reference).Ok? <==> Precision(metric, reference, prediction).Ok?
    ensures Recall(metric, prediction, reference).Ok? ==>
      Recall(metric, prediction, reference).value == Precision(metric, reference, prediction).value
  {
    RecallPrecisionSwap(metric, NormalizedWords(prediction), NormalizedWords(reference));
  }

  /** With `beta = 1` the score of two texts does not depend on their order. */
  lemma ComputeSymmetric(metric: Metric, prediction: string, reference: string)
    requires metric.beta == 1.0
    ensures Compute(metric, prediction, reference).Ok? <==> Compute(metric, reference, prediction).Ok?
    ensures Compute(metric, prediction, reference).Ok? ==>
      Compute(metric, prediction, reference).value == Compute(metric, reference, prediction).value
  {
    FMeasureSymmetric(metric, NormalizedWords(prediction), NormalizedWords(reference));
  }

  /** A text with at least one token scores 1 against itself. */
  lemma IdenticalTextScoresOne(metric: Metric, text: string)
    requires InvertibleWeight(metric)
    requires NormalizedWords(text) != []
    ensures Compute(metric, text, text).Ok? && Compute(metric, text, text).value == 1.0
  {
    IdenticalScoresOne(metric, NormalizedWords(text));
  }

  /** With `alpha = 1`, recall of two texts is their LCS length over the reference length. */
  lemma LinearRecallOfTexts(metric: Metric, prediction: string, reference: string)
    requires metric.weight == Linear
    requires forall v: real :: v >= 0.0 ==> metric.inverse(v) == v
    requires NormalizedWords(reference) != []
    ensures Recall(metric, prediction, reference) ==
      Ok(LCS(NormalizedWords(reference), NormalizedWords(prediction)) as real / |NormalizedWords(reference)| as real)
  {
    LinearRecallIsLCSRate(metric, NormalizedWords(prediction), NormalizedWords(reference));
  }
}
