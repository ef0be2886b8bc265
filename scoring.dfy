/**
 * The common interface of the metrics (src/benchmark_framework/metrics/base_metric.py):
 * `__call__` strips both texts, runs the metric's `_compute` and checks
 * that the score is a rate; `score_batch` scores aligned lists pair by pair.
 */
module Scoring {
  import opened Wrappers
  import opened Text
  import opened BaseMetric
  import ExactMatch
  import RougeN
  import RougeW
  import TfidfRougeN

  /** The four metrics with their constructor arguments. */
  datatype Metric =
    | ExactMatchMetric
    | RougeNMetric(ngramImportances: seq<real>)
    | RougeWMetric(rougeW: RougeW.Metric)
    | TfidfRougeNMetric(ngramsImportances: seq<real>, idfLookup: TfidfRougeN.IdfLookup)

  /** The name each constructor passes to `BaseMetric.__init__`. */
  function Name(metric: Metric): (r: string)
    ensures metric.ExactMatchMetric? <==> r == "exact_match"
    ensures metric.RougeNMetric? <==> r == "rouge_n_f1"
    ensures metric.RougeWMetric? <==> r == "rouge_w"
    ensures metric.TfidfRougeNMetric? <==> r == "rouge_n_tfidf"
  {
    match metric
    case ExactMatchMetric => "exact_match"
    case RougeNMetric(_) => "rouge_n_f1"
    case RougeWMetric(_) => "rouge_w"
    case TfidfRougeNMetric(_, _) => "rouge_n_tfidf"
  }

  /** Names tell the metrics apart. */
  lemma NamesDistinct(a: Metric, b: Metric)
    requires Name(a) == Name(b)
    ensures a.ExactMatchMetric? == b.ExactMatchMetric? && a.RougeNMetric? == b.RougeNMetric?
    ensures a.RougeWMetric? == b.RougeWMetric? && a.TfidfRougeNMetric? == b.TfidfRougeNMetric?
  {
  }

  /**
   * The key the TF-IDF lookup is searched for. A missing code abbreviation is
   * Python's `None`, which is no key of the lookup (its keys are strings) and
   * reads "None" in the error message.
   */
  function LookupFor(lookup: TfidfRougeN.IdfLookup, codeAbbr: Option<string>): TfidfRougeN.IdfLookup {
    match codeAbbr
    case Some(_) => lookup
    case None => lookup - {"None"}
  }

  function CodeFor(codeAbbr: Option<string>): string {
    match codeAbbr
    case Some(c) => c
    case None => "None"
  }

  /** `_compute` of each metric: a score, or the error it raises. */
  ghost function RawScore(metric: Metric, prediction: string, reference: string, codeAbbr: Option<string>): Result<real> {
    match metric
    case ExactMatchMetric => Ok(ExactMatch.Score(prediction, reference))
    case RougeNMetric(ws) => Ok(RougeN.Score(ws, prediction, reference))
    case RougeWMetric(m) => RougeW.Compute(m, prediction, reference)
    case TfidfRougeNMetric(ws, lookup) =>
      TfidfRougeN.ScoreOf(ws, NormalizedWords(prediction), NormalizedWords(reference),
                          LookupFor(lookup, codeAbbr), CodeFor(codeAbbr))
  }

  /** `assert 0 <= score <= 1` after `_compute`. */
  function InRange(score: Result<real>): Result<real> {
    if score.Err? then score
    else if 0.0 <= score.value <= 1.0 then score
    else Err(TfidfRougeN.AssertionFailed)
  }

  /** `__call__`: strip both texts, compute, check the range. */
  ghost function CallOf(metric: Metric, prediction: string, reference: string, codeAbbr: Option<string>): Result<real> {
    InRange(RawScore(metric, Strip(prediction), Strip(reference), codeAbbr))
  }

  method Call(metric: Metric, prediction: string, reference: string, codeAbbr: Option<string>) returns (r: Result<real>)
    ensures r == CallOf(metric, prediction, reference, codeAbbr)
  {
    var normalizedPrediction := Strip(prediction);
    var normalizedReference := Strip(reference);
    var score: Result<real>;
    match metric {
      case ExactMatchMetric =>
        score := Ok(ExactMatch.Score(normalizedPrediction, normalizedReference));
      case RougeNMetric(ws) =>
        var s := RougeN.Compute(ws, normalizedPrediction, normalizedReference);
        score := Ok(s);
      case RougeWMetric(m) =>
        score := RougeW.Compute(m, normalizedPrediction, normalizedReference);
      case TfidfRougeNMetric(ws, lookup) =>
        score := TfidfRougeN.Compute(ws, normalizedPrediction, normalizedReference,
                                     LookupFor(lookup, codeAbbr), CodeFor(codeAbbr));
    }
    if score.Ok? && !(0.0 <= score.value <= 1.0) {
      r := Err(TfidfRougeN.AssertionFailed);
    } else {
      r := score;
    }
  }

  /** Every score a metric produces is already a rate, so the range assertion of `__call__` never fires. */
  lemma RawScoreInUnit(metric: Metric, prediction: string, reference: string, codeAbbr: Option<string>)
    ensures RawScore(metric, prediction, reference, codeAbbr).Ok? ==>
              0.0 <= RawScore(metric, prediction, reference, codeAbbr).value <= 1.0
  {
    match metric
    case ExactMatchMetric =>
      ExactMatch.ScoreMeaning(prediction, reference);
    case RougeNMetric(ws) =>
      RougeN.ScoreInUnit(ws, prediction, reference);
    case RougeWMetric(m) =>
    case TfidfRougeNMetric(ws, lookup) =>
      TfidfRougeN.ScoreOfOkInUnit(ws, NormalizedWords(prediction), NormalizedWords(reference),
                                  LookupFor(lookup, codeAbbr), CodeFor(codeAbbr));
  }

  /**
   * Stripping makes no difference either: a call scores the texts exactly as
   * the metric's `_compute` scores the unstripped texts.
   */
  lemma CallIsCompute(metric: Metric, prediction: string, reference: string, codeAbbr: Option<string>)
    ensures CallOf(metric, prediction, reference, codeAbbr) == RawScore(metric, prediction, reference, codeAbbr)
  {
    NormalizedIgnoresStrip(prediction);
    NormalizedIgnoresStrip(reference);
    RawScoreInUnit(metric, Strip(prediction), Strip(reference), codeAbbr);
    match metric
    case ExactMatchMetric =>
    case RougeNMetric(ws) =>
    case RougeWMetric(m) =>
      assert RougeW.Compute(m, Strip(prediction), Strip(reference)) == RougeW.Compute(m, prediction, reference);
    case TfidfRougeNMetric(ws, lookup) =>
  }

  /** Exact match, ROUGE-N and ROUGE-W ignore the code abbreviation, and the first two never raise. */
  lemma CodeAbbreviationIgnored(metric: Metric, prediction: string, reference: string, a: Option<string>, b: Option<string>)
    requires !metric.TfidfRougeNMetric?
    ensures CallOf(metric, prediction, reference, a) == CallOf(metric, prediction, reference, b)
    ensures metric.ExactMatchMetric? || metric.RougeNMetric? ==> CallOf(metric, prediction, reference, a).Ok?
  {
    CallIsCompute(metric, prediction, reference, a);
    CallIsCompute(metric, prediction, reference, b);
  }

  /** The TF-IDF metric called without a code abbreviation raises as soon as it needs a recall. */
  lemma TfidfWithoutCode(ws: seq<real>, lookup: TfidfRougeN.IdfLookup, prediction: string, reference: string)
    requires TfidfRougeN.Applicable(ws, |ws|, TfidfRougeN.MaxN(NormalizedWords(prediction), NormalizedWords(reference)))
    ensures CallOf(TfidfRougeNMetric(ws, lookup), prediction, reference, None)
            == Err(TfidfRougeN.CodeMissing("None"))
  {
    CallIsCompute(TfidfRougeNMetric(ws, lookup), prediction, reference, None);
    TfidfRougeN.ScoreWithoutCode(ws, NormalizedWords(prediction), NormalizedWords(reference), lookup - {"None"}, "None");
  }

  const LengthMessage := "predictions and references must have the same length"

  /**
   * `score_batch`, with the whole generator drained: unequal lengths fail
   * the length assertion; otherwise the batch holds, in order, the score in
   * [0, 1] of `__call__` on each pair, or raises the error of the first pair
   * that raises.
   */
  method ScoreBatch(metric: Metric, predictions: seq<string>, references: seq<string>) returns (r: Result<seq<real>>)
    ensures |predictions| != |references| ==> r == Err(LengthMessage)
    ensures r.Ok? ==>
              |predictions| == |references| && |r.value| == |predictions| &&
              forall i :: 0 <= i < |predictions| ==>
                CallOf(metric, predictions[i], references[i], None) == Ok(r.value[i]) && 0.0 <= r.value[i] <= 1.0
    ensures |predictions| == |references| && r.Err? ==>
              exists i :: 0 <= i < |predictions| && CallOf(metric, predictions[i], references[i], None) == Err(r.error) &&
                forall j :: 0 <= j < i ==> CallOf(metric, predictions[j], references[j], None).Ok?
  {
    if |predictions| != |references| {
      return Err(LengthMessage);
    }
    ghost var failedAt;
    r, failedAt := ScorePairs(metric, predictions, references);
    if r.Ok? {
      forall i | 0 <= i < |predictions| ensures 0.0 <= r.value[i] <= 1.0 {
        CallInUnit(metric, predictions[i], references[i], None);
      }
    }
  }

  /** The loop over the zipped pairs. */
  method ScorePairs(metric: Metric, predictions: seq<string>, references: seq<string>)
    returns (r: Result<seq<real>>, ghost failedAt: nat)
    requires |predictions| == |references|
    ensures r.Ok? ==>
              |r.value| == |predictions| &&
              forall i :: 0 <= i < |predictions| ==> CallOf(metric, predictions[i], references[i], None) == Ok(r.value[i])
    ensures r.Err? ==>
              failedAt < |predictions| && CallOf(metric, predictions[failedAt], references[failedAt], None) == Err(r.error) &&
              forall j :: 0 <= j < failedAt ==> CallOf(metric, predictions[j], references[j], None).Ok?
  {
    failedAt := 0;
    var scores: seq<real> := [];
    var i := 0;
    while i < |predictions|
      invariant i <= |predictions| && |scores| == i
      invariant forall j :: 0 <= j < i ==> CallOf(metric, predictions[j], references[j], None) == Ok(scores[j])
    {
      var s := Call(metric, predictions[i], references[i], None);
      if s.Err? {
        return Err(s.error), i;
      }
      scores := scores + [s.value];
      i := i + 1;
    }
    r := Ok(scores);
  }

  /** A call that returns a score returns one in [0, 1]. */
  lemma CallInUnit(metric: Metric, prediction: string, reference: string, codeAbbr: Option<string>)
    ensures CallOf(metric, prediction, reference, codeAbbr).Ok? ==> 0.0 <= CallOf(metric, prediction, reference, codeAbbr).value <= 1.0
  {
  }
}
