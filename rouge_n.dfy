/**
 * ROUGE-N (src/benchmark_framework/metrics/rouge_n.py): n-gram counts,
 * their clipped intersection, precision, recall, F1, and the weighted mean
 * of F1 over n-gram lengths. A `Counter` of n-grams is a multiset: its
 * `get(g, 0)` is the multiplicity `m[g]` and `sum(values())` is `|m|`.
 */
module RougeN {
  import opened Wrappers
  import opened BaseMetric
  import opened Fractions

  type NGram = seq<string>

  /** Largest of an integer and zero. */
  function NonNeg(x: int): nat {
    if x > 0 then x else 0
  }

  /** The windows `tokens[i:i+n]` for `i` in `range(max(len(tokens) - n + 1, 0))`, in order. */
  function NGramList(tokens: seq<string>, n: nat): seq<NGram> {
    seq(NonNeg(|tokens| - n + 1), i requires 0 <= i < NonNeg(|tokens| - n + 1) => tokens[i..i + n])
  }

  /** `_get_ngrams` as written: the Counter of the windows. */
  function NGrams(tokens: seq<string>, n: nat): multiset<NGram> {
    multiset(NGramList(tokens, n))
  }

  /** The total n-gram count is `max(len - n + 1, 0)`. */
  lemma NGramsTotal(tokens: seq<string>, n: nat)
    ensures |NGrams(tokens, n)| == NonNeg(|tokens| - n + 1)
  {
  }

  /** The `n` tokens starting at position `i`. */
  function Window(tokens: seq<string>, i: nat, n: nat): NGram
    requires i + n <= |tokens|
  {
    tokens[i..i + n]
  }

  /** An n-gram is counted exactly when it is `n` consecutive tokens of the input. */
  lemma NGramsMembers(tokens: seq<string>, n: nat, g: NGram)
    ensures g in NGrams(tokens, n) <==> |g| == n && exists i: nat :: i + n <= |tokens| && Window(tokens, i, n) == g
  {
    var l := NGramList(tokens, n);
    if g in NGrams(tokens, n) {
      assert g in l;
      var i :| 0 <= i < |l| && l[i] == g;
      assert Window(tokens, i, n) == g;
    }
    if |g| == n && exists i: nat :: i + n <= |tokens| && Window(tokens, i, n) == g {
      var i: nat :| i + n <= |tokens| && Window(tokens, i, n) == g;
      assert l[i] == g;
    }
  }

  /**
   * `_calculate_intersection_ngrams_count`: the sum over the n-grams of the
   * prediction of `min(pred count, ref count)`, which is the size of the
   * multiset intersection.
   */
  method IntersectionCount(pred: multiset<NGram>, ref: multiset<NGram>) returns (count: nat)
    ensures count == |pred * ref|
  {
    count := 0;
    var pending := set g | g in pred;
    ghost var matched: multiset<NGram> := multiset{};
    while pending != {}
      invariant forall g :: g in pending ==> g in pred
      invariant forall g :: matched[g] == if g in pred && g !in pending then (pred * ref)[g] else 0
      invariant count == |matched|
      decreases pending
    {
      var g :| g in pending;
      var c := if pred[g] <= ref[g] then pred[g] else ref[g];
      assert matched[g] == 0;
      matched := matched[g := c];
      count := count + c;
      pending := pending - {g};
    }
    assert matched == pred * ref;
  }

  /** The clipped overlap never exceeds either side's total. */
  lemma OverlapBounds(pred: multiset<NGram>, ref: multiset<NGram>)
    ensures |pred * ref| <= |pred| && |pred * ref| <= |ref|
  {
    assert pred * ref <= pred;
    assert pred * ref <= ref;
    SubMultisetSize(pred * ref, pred);
    SubMultisetSize(pred * ref, ref);
  }

  lemma SubMultisetSize(a: multiset<NGram>, b: multiset<NGram>)
    requires a <= b
    ensures |a| <= |b|
  {
    assert b == a + (b - a);
  }

  lemma OverlapSymmetric(pred: multiset<NGram>, ref: multiset<NGram>)
    ensures pred * ref == ref * pred
  {
  }

  lemma OverlapSelf(m: multiset<NGram>)
    ensures m * m == m
  {
  }

  // ---------------------------------------------------------------------
  // Precision, recall, F1
  // ---------------------------------------------------------------------

  /** Overlap over the predicted total, 0 when there is nothing predicted. */
  function GramPrecision(pred: multiset<NGram>, ref: multiset<NGram>): real {
    if |pred| > 0 then |pred * ref| as real / |pred| as real else 0.0
  }

  /** Overlap over the reference total, 0 when the reference is empty. */
  function GramRecall(pred: multiset<NGram>, ref: multiset<NGram>): real {
    if |ref| > 0 then |pred * ref| as real / |ref| as real else 0.0
  }

  lemma GramPrecisionInUnit(pred: multiset<NGram>, ref: multiset<NGram>)
    ensures 0.0 <= GramPrecision(pred, ref) <= 1.0
  {
    OverlapBounds(pred, ref);
    if |pred| > 0 {
      UnitQuotient(|pred * ref| as real, |pred| as real);
    }
  }

  lemma GramRecallIsSwapped(pred: multiset<NGram>, ref: multiset<NGram>)
    ensures GramRecall(pred, ref) == GramPrecision(ref, pred)
  {
    OverlapSymmetric(pred, ref);
  }

  lemma GramPrecisionZeroIff(p: multiset<NGram>, r: multiset<NGram>)
    ensures GramPrecision(p, r) == 0.0 <==> p * r == multiset{}
  {
    if |p| > 0 && |p * r| > 0 {
      assert |p * r| as real / |p| as real > 0.0;
    }
    if |p| == 0 {
      assert p * r <= p;
      SubMultisetSize(p * r, p);
    }
  }

  /** A multiset of n-grams compared with itself has precision and recall 1, unless it is empty. */
  lemma GramSelf(m: multiset<NGram>)
    requires |m| > 0
    ensures GramPrecision(m, m) == 1.0 && GramRecall(m, m) == 1.0
  {
    OverlapSelf(m);
  }

  /** Against an empty side, precision and recall are 0. */
  lemma GramEmptySide(p: multiset<NGram>, r: multiset<NGram>)
    requires |p| == 0 || |r| == 0
    ensures GramPrecision(p, r) == 0.0 && GramRecall(p, r) == 0.0
  {
    OverlapBounds(p, r);
    assert |p * r| == 0;
  }

  /** `2 * (p * r) / (p + r)`, or 0 when `p + r == 0`. */
  function HarmonicMean(p: real, r: real): real {
    if p + r == 0.0 then 0.0 else 2.0 * (p * r) / (p + r)
  }

  lemma HarmonicMeanInUnit(p: real, r: real)
    requires 0.0 <= p <= 1.0 && 0.0 <= r <= 1.0
    ensures 0.0 <= HarmonicMean(p, r) <= 1.0
    ensures HarmonicMean(p, r) == HarmonicMean(r, p)
  {
    if p + r != 0.0 {
      var s := p + r;
      var t := 2.0 * (p * r);
      var x := p * r;
      UnitScale(r, p);
      UnitScale(p, r);
      assert r * p == x;
      assert x <= p && x <= r;
      assert t <= s;
      UnitQuotient(t, s);
    }
  }

  lemma HarmonicMeanOfOnes()
    ensures HarmonicMean(1.0, 1.0) == 1.0
  {
  }

  /** Precision of n-grams between two token lists. */
  function TokenPrecision(pred: seq<string>, ref: seq<string>, n: nat): real {
    GramPrecision(NGrams(pred, n), NGrams(ref, n))
  }

  function TokenRecall(pred: seq<string>, ref: seq<string>, n: nat): real {
    GramRecall(NGrams(pred, n), NGrams(ref, n))
  }

  function TokenF1(pred: seq<string>, ref: seq<string>, n: nat): real {
    HarmonicMean(TokenPrecision(pred, ref, n), TokenRecall(pred, ref, n))
  }

  /** `calculate_precision`: overlap over the prediction's n-gram total, 0 when it has none. */
  function Precision(prediction: string, reference: string, n: nat): real {
    TokenPrecision(NormalizedWords(prediction), NormalizedWords(reference), n)
  }

  /** `calculate_recall`: overlap over the reference's n-gram total, 0 when it has none. */
  function Recall(prediction: string, reference: string, n: nat): real {
    TokenRecall(NormalizedWords(prediction), NormalizedWords(reference), n)
  }

  /** `calculate_f1`. */
  function F1(prediction: string, reference: string, n: nat): real {
    TokenF1(NormalizedWords(prediction), NormalizedWords(reference), n)
  }

  /**
   * Precision and recall lie in [0, 1], recall is precision with the roles
   * swapped, F1 lies in [0, 1], is symmetric, and is 0 when precision and
   * recall sum to 0.
   */
  lemma TokenScores(pred: seq<string>, ref: seq<string>, n: nat)
    ensures 0.0 <= TokenPrecision(pred, ref, n) <= 1.0 && 0.0 <= TokenRecall(pred, ref, n) <= 1.0
    ensures TokenRecall(pred, ref, n) == TokenPrecision(ref, pred, n)
    ensures 0.0 <= TokenF1(pred, ref, n) <= 1.0
    ensures TokenF1(pred, ref, n) == TokenF1(ref, pred, n)
    ensures TokenPrecision(pred, ref, n) + TokenRecall(pred, ref, n) == 0.0 ==> TokenF1(pred, ref, n) == 0.0
  {
    var p, r := NGrams(pred, n), NGrams(ref, n);
    GramPrecisionInUnit(p, r);
    GramRecallIsSwapped(p, r);
    GramRecallIsSwapped(r, p);
    GramPrecisionInUnit(r, p);
    HarmonicMeanInUnit(GramPrecision(p, r), GramRecall(p, r));
  }

  /** Precision lies in [0, 1]. */
  lemma PrecisionInUnit(prediction: string, reference: string, n: nat)
    ensures 0.0 <= Precision(prediction, reference, n) <= 1.0
    ensures 0.0 <= Recall(prediction, reference, n) <= 1.0
  {
    TokenScores(NormalizedWords(prediction), NormalizedWords(reference), n);
  }

  /** Recall is precision with the roles of the texts swapped. */
  lemma RecallIsSwappedPrecision(prediction: string, reference: string, n: nat)
    ensures Recall(prediction, reference, n) == Precision(reference, prediction, n)
  {
    TokenScores(NormalizedWords(prediction), NormalizedWords(reference), n);
  }

  /** Precision is 0 exactly when the prediction has no n-gram or none of its n-grams occurs in the reference. */
  lemma PrecisionZeroIff(prediction: string, reference: string, n: nat)
    ensures Precision(prediction, reference, n) == 0.0 <==>
            NGrams(NormalizedWords(prediction), n) * NGrams(NormalizedWords(reference), n) == multiset{}
  {
    GramPrecisionZeroIff(NGrams(NormalizedWords(prediction), n), NGrams(NormalizedWords(reference), n));
  }

  /** F1 lies in [0, 1], does not depend on which text is the prediction, and is 0 when precision and recall both are. */
  lemma F1Properties(prediction: string, reference: string, n: nat)
    ensures 0.0 <= F1(prediction, reference, n) <= 1.0
    ensures F1(prediction, reference, n) == F1(reference, prediction, n)
    ensures Precision(prediction, reference, n) + Recall(prediction, reference, n) == 0.0 ==> F1(prediction, reference, n) == 0.0
  {
    TokenScores(NormalizedWords(prediction), NormalizedWords(reference), n);
  }

  lemma TokenF1OfIdentical(tokens: seq<string>, n: nat)
    requires n <= |tokens|
    ensures TokenPrecision(tokens, tokens, n) == 1.0 && TokenRecall(tokens, tokens, n) == 1.0
    ensures TokenF1(tokens, tokens, n) == 1.0
  {
    NGramsTotal(tokens, n);
    GramSelf(NGrams(tokens, n));
    HarmonicMeanOfOnes();
  }

  /** A text compared with itself scores 1 for every n up to its token count. */
  lemma F1OfIdentical(text: string, n: nat)
    requires n <= |NormalizedWords(text)|
    ensures Precision(text, text, n) == 1.0 && Recall(text, text, n) == 1.0
    ensures F1(text, text, n) == 1.0
  {
    TokenF1OfIdentical(NormalizedWords(text), n);
  }

  lemma TokenF1OfShort(pred: seq<string>, ref: seq<string>, n: nat)
    requires |pred| < n || |ref| < n
    ensures TokenF1(pred, ref, n) == 0.0
  {
    NGramsTotal(pred, n);
    NGramsTotal(ref, n);
    GramEmptySide(NGrams(pred, n), NGrams(ref, n));
  }

  /** With fewer than n tokens on either side, F1 is 0. */
  lemma F1OfShortText(prediction: string, reference: string, n: nat)
    requires |NormalizedWords(prediction)| < n || |NormalizedWords(reference)| < n
    ensures F1(prediction, reference, n) == 0.0
  {
    TokenF1OfShort(NormalizedWords(prediction), NormalizedWords(reference), n);
  }

  // ---------------------------------------------------------------------
  // The weighted mean of `_compute`
  // ---------------------------------------------------------------------

  /** The weights `_compute` adds to `total_weight`: the positive ones. */
  function PositiveWeight(ws: seq<real>): real {
    if ws == [] then 0.0
    else PositiveWeight(ws[..|ws| - 1]) + (if ws[|ws| - 1] > 0.0 then ws[|ws| - 1] else 0.0)
  }

  /** `weighted_sum`: `weight * score` over the positive weights (score `i` belongs to n = i + 1). */
  function WeightedSum(ws: seq<real>, scores: seq<real>): real
    requires |scores| == |ws|
  {
    if ws == [] then 0.0
    else WeightedSum(ws[..|ws| - 1], scores[..|ws| - 1]) + Term(ws[|ws| - 1], scores[|ws| - 1])
  }

  function Term(w: real, score: real): real {
    if w > 0.0 then w * score else 0.0
  }

  /** `_compute`'s result from the weights and the per-length scores. */
  function WeightedMean(ws: seq<real>, scores: seq<real>): real
    requires |scores| == |ws|
  {
    if ws == [] then 0.0
    else if PositiveWeight(ws) == 0.0 then 0.0
    else WeightedSum(ws, scores) / PositiveWeight(ws)
  }

  /** The total weight is 0 exactly when no weight is positive, and positive otherwise. */
  lemma {:induction false} PositiveWeightZeroIff(ws: seq<real>)
    ensures PositiveWeight(ws) >= 0.0
    ensures PositiveWeight(ws) == 0.0 <==> forall i :: 0 <= i < |ws| ==> ws[i] <= 0.0
  {
    if ws != [] {
      var init := ws[..|ws| - 1];
      PositiveWeightZeroIff(init);
      assert forall i :: 0 <= i < |init| ==> init[i] == ws[i];
    }
  }

  lemma TermBounds(w: real, score: real)
    requires 0.0 <= score <= 1.0
    ensures 0.0 <= Term(w, score) <= (if w > 0.0 then w else 0.0)
  {
    if w > 0.0 {
      UnitScale(score, w);
    }
  }

  /** With every score in [0, 1] the weighted sum lies between 0 and the total weight. */
  lemma {:induction false} WeightedSumBounds(ws: seq<real>, scores: seq<real>)
    requires |scores| == |ws|
    requires forall i :: 0 <= i < |scores| ==> 0.0 <= scores[i] <= 1.0
    ensures 0.0 <= WeightedSum(ws, scores) <= PositiveWeight(ws)
  {
    if ws != [] {
      var k := |ws| - 1;
      WeightedSumBounds(ws[..k], scores[..k]);
      TermBounds(ws[k], scores[k]);
    }
  }

  /** Scores of 1 at every positive weight make the weighted sum the total weight. */
  lemma {:induction false} WeightedSumOfOnes(ws: seq<real>, scores: seq<real>)
    requires |scores| == |ws|
    requires forall i :: 0 <= i < |ws| && ws[i] > 0.0 ==> scores[i] == 1.0
    ensures WeightedSum(ws, scores) == PositiveWeight(ws)
  {
    if ws != [] {
      var k := |ws| - 1;
      WeightedSumOfOnes(ws[..k], scores[..k]);
    }
  }

  /** With every score in [0, 1], so is the weighted mean. */
  lemma WeightedMeanInUnit(ws: seq<real>, scores: seq<real>)
    requires |scores| == |ws|
    requires forall i :: 0 <= i < |scores| ==> 0.0 <= scores[i] <= 1.0
    ensures 0.0 <= WeightedMean(ws, scores) <= 1.0
  {
    if ws != [] && PositiveWeight(ws) != 0.0 {
      WeightedSumBounds(ws, scores);
      PositiveWeightZeroIff(ws);
      UnitQuotient(WeightedSum(ws, scores), PositiveWeight(ws));
    }
  }

  /** Scores of 1 wherever a weight is positive, with some weight positive, give a mean of 1. */
  lemma MeanOfOnes(ws: seq<real>, scores: seq<real>)
    requires |scores| == |ws|
    requires exists i :: 0 <= i < |ws| && ws[i] > 0.0
    requires forall i :: 0 <= i < |ws| && ws[i] > 0.0 ==> scores[i] == 1.0
    ensures WeightedMean(ws, scores) == 1.0
  {
    WeightedSumOfOnes(ws, scores);
    PositiveWeightZeroIff(ws);
    var k :| 0 <= k < |ws| && ws[k] > 0.0;
    var t := PositiveWeight(ws);
    assert t != 0.0;
    assert WeightedSum(ws, scores) / t == 1.0;
  }

  /** The per-length F1 scores of two token lists, for n = 1 .. count. */
  function F1Scores(pred: seq<string>, ref: seq<string>, count: nat): (r: seq<real>)
    ensures |r| == count
    ensures forall i :: 0 <= i < count ==> r[i] == TokenF1(pred, ref, i + 1)
  {
    if count == 0 then [] else F1Scores(pred, ref, count - 1) + [TokenF1(pred, ref, count)]
  }

  /** `RougeNMetric._compute`. */
  function Score(ws: seq<real>, prediction: string, reference: string): real {
    WeightedMean(ws, F1Scores(NormalizedWords(prediction), NormalizedWords(reference), |ws|))
  }

  /**
   * The loop of `_compute`: for n = 1, 2, ... it adds `weight * F1` and
   * `weight` for every positive weight, then divides.
   */
  method Compute(ngramImportances: seq<real>, prediction: string, reference: string) returns (score: real)
    ensures score == Score(ngramImportances, prediction, reference)
  {
    if ngramImportances == [] {
      return 0.0;
    }
    ghost var scores := F1Scores(NormalizedWords(prediction), NormalizedWords(reference), |ngramImportances|);
    var weightedSum := 0.0;
    var totalWeight := 0.0;
    var i := 0;
    while i < |ngramImportances|
      invariant i <= |ngramImportances|
      invariant weightedSum == WeightedSum(ngramImportances[..i], scores[..i])
      invariant totalWeight == PositiveWeight(ngramImportances[..i])
    {
      var weight := ngramImportances[i];
      if weight > 0.0 {
        var f1 := F1(prediction, reference, i + 1);
        weightedSum, totalWeight := AddWeighted(ngramImportances, scores, i, f1, weightedSum, totalWeight);
      } else {
        WeightedStep(ngramImportances, scores, i);
      }
      i := i + 1;
    }
    WholePrefix(ngramImportances, scores);
    if totalWeight == 0.0 {
      return 0.0;
    }
    score := weightedSum / totalWeight;
  }

  /** The accumulation of `_compute` for n = i + 1 when its weight is positive. */
  method AddWeighted(ngramImportances: seq<real>, ghost scores: seq<real>, i: nat, f1: real,
                     weightedSum: real, totalWeight: real)
    returns (weightedSum': real, totalWeight': real)
    requires |scores| == |ngramImportances| && i < |ngramImportances|
    requires ngramImportances[i] > 0.0 && scores[i] == f1
    requires weightedSum == WeightedSum(ngramImportances[..i], scores[..i])
    requires totalWeight == PositiveWeight(ngramImportances[..i])
    ensures weightedSum' == WeightedSum(ngramImportances[..i + 1], scores[..i + 1])
    ensures totalWeight' == PositiveWeight(ngramImportances[..i + 1])
  {
    var weight := ngramImportances[i];
    WeightedStep(ngramImportances, scores, i);
    weightedSum' := weightedSum + weight * f1;
    totalWeight' := totalWeight + weight;
  }

  lemma WeightedStep(ws: seq<real>, scores: seq<real>, i: nat)
    requires |scores| == |ws| && i < |ws|
    ensures WeightedSum(ws[..i + 1], scores[..i + 1]) == WeightedSum(ws[..i], scores[..i]) + Term(ws[i], scores[i])
    ensures PositiveWeight(ws[..i + 1]) == PositiveWeight(ws[..i]) + (if ws[i] > 0.0 then ws[i] else 0.0)
  {
    assert ws[..i + 1][..i] == ws[..i];
    assert scores[..i + 1][..i] == scores[..i];
  }

  lemma WholePrefix(ws: seq<real>, scores: seq<real>)
    ensures ws[..|ws|] == ws && scores[..|scores|] == scores
  {
  }

  lemma F1ScoresInUnit(pred: seq<string>, ref: seq<string>, count: nat)
    ensures forall i :: 0 <= i < count ==> 0.0 <= F1Scores(pred, ref, count)[i] <= 1.0
  {
    forall i | 0 <= i < count ensures 0.0 <= F1Scores(pred, ref, count)[i] <= 1.0 {
      TokenF1InUnit(pred, ref, i + 1);
    }
  }

  lemma TokenF1InUnit(pred: seq<string>, ref: seq<string>, n: nat)
    ensures 0.0 <= TokenF1(pred, ref, n) <= 1.0
  {
    TokenScores(pred, ref, n);
  }

  lemma {:induction false} F1ScoresSymmetric(pred: seq<string>, ref: seq<string>, count: nat)
    ensures F1Scores(pred, ref, count) == F1Scores(ref, pred, count)
  {
    if count > 0 {
      F1ScoresSymmetric(pred, ref, count - 1);
      TokenScores(pred, ref, count);
    }
  }

  lemma F1ScoresOfIdentical(ws: seq<real>, tokens: seq<string>)
    requires forall i :: 0 <= i < |ws| && ws[i] > 0.0 ==> i + 1 <= |tokens|
    ensures forall i :: 0 <= i < |ws| && ws[i] > 0.0 ==> F1Scores(tokens, tokens, |ws|)[i] == 1.0
  {
    forall i | 0 <= i < |ws| && ws[i] > 0.0 ensures F1Scores(tokens, tokens, |ws|)[i] == 1.0 {
      TokenF1OfIdentical(tokens, i + 1);
    }
  }

  /** The score lies in [0, 1]. */
  lemma ScoreInUnit(ws: seq<real>, prediction: string, reference: string)
    ensures 0.0 <= Score(ws, prediction, reference) <= 1.0
  {
    var pred, ref := NormalizedWords(prediction), NormalizedWords(reference);
    F1ScoresInUnit(pred, ref, |ws|);
    WeightedMeanInUnit(ws, F1Scores(pred, ref, |ws|));
  }

  /** Without a positive weight the score is 0. */
  lemma NoPositiveWeightScoresZero(ws: seq<real>, prediction: string, reference: string)
    requires forall i :: 0 <= i < |ws| ==> ws[i] <= 0.0
    ensures Score(ws, prediction, reference) == 0.0
  {
    PositiveWeightZeroIff(ws);
  }

  /** The score does not depend on which text is the prediction. */
  lemma ScoreSymmetric(ws: seq<real>, prediction: string, reference: string)
    ensures Score(ws, prediction, reference) == Score(ws, reference, prediction)
  {
    F1ScoresSymmetric(NormalizedWords(prediction), NormalizedWords(reference), |ws|);
  }

  /**
   * A text compared with itself scores 1 when some weight is positive and
   * the text has at least n tokens for every n with a positive weight.
   */
  lemma IdenticalTextScoresOne(ws: seq<real>, text: string)
    requires exists i :: 0 <= i < |ws| && ws[i] > 0.0
    requires forall i :: 0 <= i < |ws| && ws[i] > 0.0 ==> i + 1 <= |NormalizedWords(text)|
    ensures Score(ws, text, text) == 1.0
  {
    var tokens := NormalizedWords(text);
    F1ScoresOfIdentical(ws, tokens);
    MeanOfOnes(ws, F1Scores(tokens, tokens, |ws|));
  }

  // ---------------------------------------------------------------------
  // n = 0
  // ---------------------------------------------------------------------

  /** `_get_ngrams(tokens, 0)` as written counts the empty n-gram `len(tokens) + 1` times. */
  lemma EmptyGramCounted(tokens: seq<string>)
    ensures [] in NGrams(tokens, 0)
    ensures NGrams(tokens, 0)[[]] == |tokens| + 1
  {
    var l := NGramList(tokens, 0);
    assert l[0] == [];
    assert forall i :: 0 <= i < |l| ==> l[i] == [];
    assert l == EmptyGrams(|tokens| + 1);
    CountOfEmpty(|tokens| + 1);
  }

  function EmptyGrams(k: nat): seq<NGram> {
    seq(k, i => [])
  }

  lemma {:induction false} CountOfEmpty(k: nat)
    ensures multiset(EmptyGrams(k))[[]] == k
  {
    if k > 0 {
      assert EmptyGrams(k) == EmptyGrams(k - 1) + [[]];
      CountOfEmpty(k - 1);
    }
  }

  /** Python's `str(n)` for an integer. */
  function DecimalString(n: int): string
    decreases if n < 0 then 1 - n else n
  {
    if n < 0 then "-" + DecimalString(-n)
    else if n < 10 then [(48 + n) as char]
    else DecimalString(n / 10) + [(48 + n % 10) as char]
  }

  /** n-gram extraction with the check the tests expect: n below 1 raises ValueError. */
  function GetNGrams(tokens: seq<string>, n: int): Result<multiset<NGram>> {
    if n < 1 then Err("n must be > 0, got " + DecimalString(n)) else Ok(NGrams(tokens, n))
  }

  /** The class attribute of `RougeNMetric` that holds the n-gram extraction. */
  const NGramsAttribute: string := "_get_ngrams"

  /** The AttributeError message of a missing class attribute. */
  function NoAttribute(name: string): string {
    "type object 'RougeNMetric' has no attribute '" + name + "'"
  }

  /**
   * `RougeNMetric.<name>(tokens, n)`: the extraction looked up on the class
   * by name, which raises AttributeError for any name but `_get_ngrams`.
   */
  function StaticNGrams(name: string, tokens: seq<string>, n: int): (r: Result<multiset<NGram>>)
    ensures r.Ok? ==> name == NGramsAttribute
  {
    if name != NGramsAttribute then Err(NoAttribute(name)) else GetNGrams(tokens, n)
  }

  /**
   * The name `calculate_recall` of the TF-IDF metric looks up, `get_ngrams`,
   * is not an attribute of the class: the call raises before anything is
   * counted, whatever the tokens and n.
   */
  lemma CalledNameMissing(tokens: seq<string>, n: int)
    ensures StaticNGrams("get_ngrams", tokens, n) == Err(NoAttribute("get_ngrams"))
    ensures n >= 1 ==> StaticNGrams(NGramsAttribute, tokens, n) == Ok(NGrams(tokens, n))
  {
    assert "get_ngrams" != NGramsAttribute by {
      assert |"get_ngrams"| != |NGramsAttribute|;
    }
  }

  /**
   * The checked extraction fails exactly for n < 1 (for n = 0 with the
   * message the tests expect), never counts the empty n-gram, and agrees
   * with `_get_ngrams` for every n from 1, the only lengths `_compute` uses.
   */
  lemma GetNGramsChecked(tokens: seq<string>, n: int)
    ensures GetNGrams(tokens, n).Err? <==> n < 1
    ensures n == 0 ==> GetNGrams(tokens, n) == Err("n must be > 0, got 0")
    ensures GetNGrams(tokens, n).Ok? ==> [] !in GetNGrams(tokens, n).value
    ensures n >= 1 ==> GetNGrams(tokens, n) == Ok(NGrams(tokens, n))
  {
    if n >= 1 {
      NGramsMembers(tokens, n, []);
    }
  }
}
