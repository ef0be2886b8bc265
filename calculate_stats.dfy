/**
 * Per-file result statistics and their question-weighted aggregation
 * (src/benchmark_framework/stats/calculate_stats.py), on in-memory rows.
 */
module CalculateStats {
  import opened Wrappers
  import opened Text
  import opened Fractions

  /**
   * One JSONL row of a results file. Absent fields are `None`;
   * `accuracy_metrics` holds the truth values of `answer` and `legal_basis`.
   */
  datatype Entry = Entry(
    accuracyMetrics: Option<map<string, bool>>,
    modelLegalBasisContent: Option<string>,
    modelLegalBasis: Option<string>,
    modelAnswer: Option<string>,
    textMetrics: Option<map<string, real>>)

  /** The dictionary returned by `calculate_stats`. */
  datatype Stats = Stats(answer: real, legalBasis: real, textMetrics: map<string, real>,
                         malformedResponseRate: real, questionsCount: nat)

  // ---------------------------------------------------------------------
  // Per-row predicates
  // ---------------------------------------------------------------------

  /** `data.get("accuracy_metrics", {}).get(name, False)` is truthy. */
  predicate Flag(e: Entry, name: string) {
    e.accuracyMetrics.Some? && name in e.accuracyMetrics.value && e.accuracyMetrics.value[name]
  }

  predicate AnswerCorrect(e: Entry) {
    Flag(e, "answer")
  }

  predicate LegalBasisCorrect(e: Entry) {
    Flag(e, "legal_basis")
  }

  /** `not (data.get(k) or "").strip()`. */
  predicate Blank(field: Option<string>) {
    Strip(field.GetOr("")) == ""
  }

  predicate Malformed(e: Entry) {
    Blank(e.modelLegalBasisContent) || Blank(e.modelLegalBasis) || Blank(e.modelAnswer)
  }

  function TextOf(e: Entry): map<string, real> {
    e.textMetrics.GetOr(map[])
  }

  /** A field is blank exactly when it is absent or holds only whitespace. */
  lemma BlankIffMissingOrWhitespace(field: Option<string>)
    ensures Blank(field) <==> field.None? || forall i :: 0 <= i < |field.value| ==> IsSpace(field.value[i])
  {
    StripEmptyIffBlank(field.GetOr(""));
  }

  // ---------------------------------------------------------------------
  // Specification of calculate_stats
  // ---------------------------------------------------------------------

  /** The three per-row conditions that calculate_stats counts. */
  datatype Criterion = AnswerIsCorrect | LegalBasisIsCorrect | IsMalformed

  predicate Holds(c: Criterion, e: Entry) {
    match c
    case AnswerIsCorrect => AnswerCorrect(e)
    case LegalBasisIsCorrect => LegalBasisCorrect(e)
    case IsMalformed => Malformed(e)
  }

  /** Whether each row meets `p`. */
  function Flags(ds: seq<Entry>, p: Criterion): (bs: seq<bool>)
    ensures |bs| == |ds| && forall i :: 0 <= i < |ds| ==> bs[i] == Holds(p, ds[i])
  {
    seq(|ds|, i requires 0 <= i < |ds| => Holds(p, ds[i]))
  }

  function CountTrue(bs: seq<bool>): nat {
    if bs == [] then 0 else CountTrue(bs[..|bs| - 1]) + (if bs[|bs| - 1] then 1 else 0)
  }

  /** The number of rows meeting `p`. */
  function CountIf(ds: seq<Entry>, p: Criterion): nat {
    CountTrue(Flags(ds, p))
  }

  lemma {:induction false} CountTrueBound(bs: seq<bool>)
    ensures CountTrue(bs) <= |bs|
  {
    if bs != [] {
      CountTrueBound(bs[..|bs| - 1]);
    }
  }

  lemma CountIfBound(ds: seq<Entry>, p: Criterion)
    ensures CountIf(ds, p) <= |ds|
  {
    CountTrueBound(Flags(ds, p));
  }

  lemma {:induction false} CountTrueAppend(a: seq<bool>, b: seq<bool>)
    ensures CountTrue(a + b) == CountTrue(a) + CountTrue(b)
    decreases |b|
  {
    if b == [] {
      assert a + b == a;
    } else {
      var b' := b[..|b| - 1];
      assert (a + b)[..|a + b| - 1] == a + b';
      CountTrueAppend(a, b');
    }
  }

  lemma CountIfAppend(a: seq<Entry>, b: seq<Entry>, p: Criterion)
    ensures CountIf(a + b, p) == CountIf(a, p) + CountIf(b, p)
  {
    assert Flags(a + b, p) == Flags(a, p) + Flags(b, p);
    CountTrueAppend(Flags(a, p), Flags(b, p));
  }

  lemma CountIfStep(ds: seq<Entry>, i: nat, p: Criterion)
    requires i < |ds|
    ensures CountIf(ds[..i + 1], p) == CountIf(ds[..i], p) + (if Holds(p, ds[i]) then 1 else 0)
  {
    var f := Flags(ds[..i + 1], p);
    assert f[..i] == Flags(ds[..i], p);
  }

  /** The sum of one text metric over the rows that report it. */
  function TextSum(ds: seq<Entry>, key: string): real {
    if ds == [] then 0.0
    else
      var m := TextOf(ds[|ds| - 1]);
      TextSum(ds[..|ds| - 1], key) + (if key in m then m[key] else 0.0)
  }

  function TextKeys(ds: seq<Entry>): set<string> {
    set i, k | 0 <= i < |ds| && k in TextOf(ds[i]) :: k
  }

  /** `count / total_count`. */
  function Ratio(c: real, n: nat): real
    requires n > 0
  {
    c / n as real
  }

  lemma RatioScales(c: real, n: nat)
    requires n > 0
    ensures Ratio(c, n) * n as real == c
  {
  }

  lemma RatioInUnit(c: real, n: nat)
    requires n > 0 && 0.0 <= c <= n as real
    ensures 0.0 <= Ratio(c, n) <= 1.0
  {
    RatioScales(c, n);
  }

  /** `{name: total / total_count for name, total in text_metrics_sum.items()}`. */
  function TextAverages(ds: seq<Entry>): map<string, real>
    requires |ds| > 0
  {
    map k | k in TextKeys(ds) :: Ratio(TextSum(ds, k), |ds|)
  }

  /** The fraction of rows meeting `p`. */
  function RowRate(ds: seq<Entry>, p: Criterion): real
    requires |ds| > 0
  {
    Ratio(CountIf(ds, p) as real, |ds|)
  }

  function StatsOf(ds: seq<Entry>): Stats {
    if |ds| == 0 then Stats(0.0, 0.0, map[], 0.0, 0)
    else
      Stats(RowRate(ds, AnswerIsCorrect), RowRate(ds, LegalBasisIsCorrect), TextAverages(ds), RowRate(ds, IsMalformed), |ds|)
  }

  /** calculate_stats on an already loaded dataset. */
  method ComputeStats(dataset: seq<Entry>) returns (r: Stats)
    ensures r == StatsOf(dataset)
  {
    var totalCount := |dataset|;
    if totalCount == 0 {
      return Stats(0.0, 0.0, map[], 0.0, 0);
    }
    var correctCount, correctLegalBasis, malformedResponsesCount := 0, 0, 0;
    var textMetricsSum: map<string, real> := map[];
    var i := 0;
    while i < |dataset|
      invariant i <= |dataset|
      invariant Counted(dataset[..i], correctCount, correctLegalBasis, malformedResponsesCount)
      invariant SumsOf(textMetricsSum, dataset[..i])
    {
      correctCount, correctLegalBasis, malformedResponsesCount :=
        CountRow(dataset, i, correctCount, correctLegalBasis, malformedResponsesCount);
      textMetricsSum := AddRowMetrics(dataset, i, textMetricsSum);
      i := i + 1;
    }
    assert dataset[..i] == dataset;
    var avgTextMetrics := map k | k in textMetricsSum :: Ratio(textMetricsSum[k], totalCount);
    assert avgTextMetrics == TextAverages(dataset);
    r := Stats(Ratio(correctCount as real, totalCount), Ratio(correctLegalBasis as real, totalCount),
               avgTextMetrics, Ratio(malformedResponsesCount as real, totalCount), totalCount);
  }

  /** The three counters of calculate_stats after the rows `ds`. */
  predicate Counted(ds: seq<Entry>, correct: nat, legalBasis: nat, malformed: nat) {
    correct == CountIf(ds, AnswerIsCorrect) && legalBasis == CountIf(ds, LegalBasisIsCorrect) &&
    malformed == CountIf(ds, IsMalformed)
  }

  /** The counting half of one iteration of the loop of calculate_stats. */
  method CountRow(ds: seq<Entry>, i: nat, correct: nat, legalBasis: nat, malformed: nat)
    returns (correct': nat, legalBasis': nat, malformed': nat)
    requires i < |ds| && Counted(ds[..i], correct, legalBasis, malformed)
    ensures Counted(ds[..i + 1], correct', legalBasis', malformed')
  {
    var data := ds[i];
    CountIfStep(ds, i, AnswerIsCorrect);
    CountIfStep(ds, i, LegalBasisIsCorrect);
    CountIfStep(ds, i, IsMalformed);
    correct', legalBasis', malformed' := correct, legalBasis, malformed;
    if AnswerCorrect(data) {
      correct' := correct' + 1;
    }
    if LegalBasisCorrect(data) {
      legalBasis' := legalBasis' + 1;
    }
    if Blank(data.modelLegalBasisContent) || Blank(data.modelLegalBasis) || Blank(data.modelAnswer) {
      malformed' := malformed' + 1;
    }
  }

  /** The text-metric half of one iteration: every text metric of the row is added to its sum. */
  method AddRowMetrics(ds: seq<Entry>, i: nat, sums: map<string, real>) returns (sums': map<string, real>)
    requires i < |ds| && SumsOf(sums, ds[..i])
    ensures SumsOf(sums', ds[..i + 1])
  {
    var textMetrics := TextOf(ds[i]);
    sums' := AddScaled(sums, textMetrics, 1.0);
    SumsStep(ds, i, sums, sums');
  }

  /**
   * `for name, value in metrics.items(): sums[name] += value * factor` on a
   * `defaultdict(float)` (calculate_stats adds the values themselves,
   * aggregate_results adds them weighted by the question count).
   */
  method AddScaled(sums: map<string, real>, metrics: map<string, real>, factor: real) returns (r: map<string, real>)
    ensures r.Keys == sums.Keys + metrics.Keys
    ensures forall k :: k in r ==>
              r[k] == (if k in sums then sums[k] else 0.0) + (if k in metrics then metrics[k] * factor else 0.0)
  {
    r := sums;
    var pending := metrics.Keys;
    while pending != {}
      invariant pending <= metrics.Keys
      invariant r.Keys == sums.Keys + (metrics.Keys - pending)
      invariant forall k :: k in r ==>
                  r[k] == (if k in sums then sums[k] else 0.0) +
                          (if k in metrics && k !in pending then metrics[k] * factor else 0.0)
      decreases pending
    {
      var name :| name in pending;
      r := r[name := (if name in r then r[name] else 0.0) + metrics[name] * factor];
      pending := pending - {name};
    }
  }

  /** `sums` is the `text_metrics_sum` dictionary after the rows `ds`. */
  predicate SumsOf(sums: map<string, real>, ds: seq<Entry>) {
    sums.Keys == TextKeys(ds) && forall k :: k in sums ==> sums[k] == TextSum(ds, k)
  }

  lemma SumsStep(ds: seq<Entry>, i: nat, sums: map<string, real>, r: map<string, real>)
    requires i < |ds| && SumsOf(sums, ds[..i])
    requires r.Keys == sums.Keys + TextOf(ds[i]).Keys
    requires forall k :: k in r ==>
               r[k] == (if k in sums then sums[k] else 0.0) + (if k in TextOf(ds[i]) then TextOf(ds[i])[k] * 1.0 else 0.0)
    ensures SumsOf(r, ds[..i + 1])
  {
    TextKeysStep(ds, i);
    forall k | k in r ensures r[k] == TextSum(ds[..i + 1], k) {
      if k !in sums {
        TextSumMissing(ds[..i], k);
      }
    }
  }

  lemma TextKeysStep(ds: seq<Entry>, i: nat)
    requires i < |ds|
    ensures TextKeys(ds[..i + 1]) == TextKeys(ds[..i]) + TextOf(ds[i]).Keys
    ensures forall k :: TextSum(ds[..i + 1], k) == TextSum(ds[..i], k) + (if k in TextOf(ds[i]) then TextOf(ds[i])[k] else 0.0)
  {
    var p, q := ds[..i], ds[..i + 1];
    assert forall j :: 0 <= j < i ==> q[j] == p[j];
    assert q[i] == ds[i];
    assert q[..i] == p;
  }

  // ---------------------------------------------------------------------
  // Properties of calculate_stats
  // ---------------------------------------------------------------------

  /** An empty file has zero rates, no text metrics and no questions. */
  lemma StatsOfEmpty()
    ensures StatsOf([]) == Stats(0.0, 0.0, map[], 0.0, 0)
  {
  }

  /** The row condition counted by each rate. */
  function CriterionOf(f: Rate): Criterion {
    match f
    case AnswerOf => AnswerIsCorrect
    case LegalBasisOf => LegalBasisIsCorrect
    case MalformedOf => IsMalformed
  }

  /** `questions_count` is the number of rows, and each rate is the fraction of rows meeting its condition. */
  lemma StatsRate(ds: seq<Entry>, f: Rate)
    ensures StatsOf(ds).questionsCount == |ds|
    ensures |ds| > 0 ==> RateOf(f, StatsOf(ds)) == RowRate(ds, CriterionOf(f))
  {
  }

  /** Each rate times the number of rows is the number of rows meeting its condition. */
  lemma StatsRateCount(ds: seq<Entry>, f: Rate)
    requires |ds| > 0
    ensures RateOf(f, StatsOf(ds)) * |ds| as real == CountIf(ds, CriterionOf(f)) as real
  {
    StatsRate(ds, f);
    RowRateScales(ds, CriterionOf(f), RateOf(f, StatsOf(ds)));
  }

  lemma RowRateScales(ds: seq<Entry>, p: Criterion, x: real)
    requires |ds| > 0 && x == RowRate(ds, p)
    ensures x * |ds| as real == CountIf(ds, p) as real
  {
    RatioScales(CountIf(ds, p) as real, |ds|);
  }

  lemma TextAverageScales(ds: seq<Entry>, key: string, x: real)
    requires |ds| > 0 && key in TextAverages(ds) && x == TextAverages(ds)[key]
    ensures x * |ds| as real == TextSum(ds, key)
  {
    assert x == Ratio(TextSum(ds, key), |ds|);
    RatioScales(TextSum(ds, key), |ds|);
  }

  /** Every rate lies in [0, 1]. */
  lemma StatsRatesInUnit(ds: seq<Entry>)
    ensures 0.0 <= StatsOf(ds).answer <= 1.0
    ensures 0.0 <= StatsOf(ds).legalBasis <= 1.0
    ensures 0.0 <= StatsOf(ds).malformedResponseRate <= 1.0
  {
    if |ds| > 0 {
      CountIfBound(ds, AnswerIsCorrect);
      CountIfBound(ds, LegalBasisIsCorrect);
      CountIfBound(ds, IsMalformed);
      RatioInUnit(CountIf(ds, AnswerIsCorrect) as real, |ds|);
      RatioInUnit(CountIf(ds, LegalBasisIsCorrect) as real, |ds|);
      RatioInUnit(CountIf(ds, IsMalformed) as real, |ds|);
    }
  }

  /** A row without `accuracy_metrics` counts as an incorrect answer and legal basis. */
  lemma MissingAccuracyIsIncorrect(e: Entry)
    requires e.accuracyMetrics.None?
    ensures !AnswerCorrect(e) && !LegalBasisCorrect(e)
  {
  }

  lemma {:induction false} TextSumMissing(ds: seq<Entry>, key: string)
    requires key !in TextKeys(ds)
    ensures TextSum(ds, key) == 0.0
  {
    if ds != [] {
      var init := ds[..|ds| - 1];
      assert forall j :: 0 <= j < |init| ==> init[j] == ds[j];
      assert key !in TextOf(ds[|ds| - 1]);
      TextSumMissing(init, key);
    }
  }

  lemma {:induction false} TextSumBounds(ds: seq<Entry>, key: string)
    requires forall i :: 0 <= i < |ds| && key in TextOf(ds[i]) ==> 0.0 <= TextOf(ds[i])[key] <= 1.0
    ensures 0.0 <= TextSum(ds, key) <= |ds| as real
  {
    if ds != [] {
      var init := ds[..|ds| - 1];
      assert forall j :: 0 <= j < |init| ==> init[j] == ds[j];
      TextSumBounds(init, key);
    }
  }

  /** A text-metric average stays in [0, 1] when every reported value does. */
  lemma TextAverageInUnit(ds: seq<Entry>, key: string)
    requires key in StatsOf(ds).textMetrics
    requires forall i :: 0 <= i < |ds| && key in TextOf(ds[i]) ==> 0.0 <= TextOf(ds[i])[key] <= 1.0
    ensures 0.0 <= StatsOf(ds).textMetrics[key] <= 1.0
  {
    TextSumBounds(ds, key);
    RatioInUnit(TextSum(ds, key), |ds|);
  }

  /** Example: a metric reported by one of two rows is halved. */
  lemma HalfReportedMetric(present: Entry, absent: Entry, key: string)
    requires key in TextOf(present) && key !in TextOf(absent)
    ensures key in StatsOf([present, absent]).textMetrics &&
            StatsOf([present, absent]).textMetrics[key] == TextOf(present)[key] / 2.0
  {
    var ds := [present, absent];
    assert ds[..1] == [present] && [present][..0] == [];
    assert TextSum([present], key) == TextOf(present)[key];
    assert TextSum(ds, key) == TextOf(present)[key];
    assert key in TextKeys(ds) by {
      assert key in TextOf(ds[0]);
    }
    assert StatsOf(ds).textMetrics == TextAverages(ds);
    assert TextAverages(ds)[key] == Ratio(TextOf(present)[key], 2);
  }

  // ---------------------------------------------------------------------
  // aggregate_results
  // ---------------------------------------------------------------------

  /** The dictionary returned by `aggregate_results`; `{}` is `None`. */
  datatype Aggregate = Aggregate(answer: real, legalBasis: real, textMetrics: map<string, real>, malformedResponseRate: real)

  const ZeroTotalMessage := "Total questions count is zero; cannot aggregate results."

  /** The total question count; results with a zero count are skipped and add nothing. */
  function Total(rs: seq<Stats>): nat {
    if rs == [] then 0 else Total(rs[..|rs| - 1]) + rs[|rs| - 1].questionsCount
  }

  /** The three rates that aggregate_results weights by question count. */
  datatype Rate = AnswerOf | LegalBasisOf | MalformedOf

  function RateOf(f: Rate, s: Stats): real {
    match f
    case AnswerOf => s.answer
    case LegalBasisOf => s.legalBasis
    case MalformedOf => s.malformedResponseRate
  }

  /** What one result adds to a weighted sum: nothing when it has no questions. */
  function Contribution(f: Rate, r: Stats): real {
    if r.questionsCount == 0 then 0.0 else RateOf(f, r) * r.questionsCount as real
  }

  function Weighted(rs: seq<Stats>, f: Rate): real {
    if rs == [] then 0.0 else Weighted(rs[..|rs| - 1], f) + Contribution(f, rs[|rs| - 1])
  }

  /** The question-weighted sum of one text metric; a result without it contributes 0. */
  function WeightedText(rs: seq<Stats>, key: string): real {
    if rs == [] then 0.0 else WeightedText(rs[..|rs| - 1], key) + TextContribution(rs[|rs| - 1], key)
  }

  /** What one result adds to the weighted sum of a text metric. */
  function TextContribution(r: Stats, key: string): real {
    if r.questionsCount == 0 || key !in r.textMetrics then 0.0 else r.textMetrics[key] * r.questionsCount as real
  }

  /** The text metrics of the results that are not skipped. */
  function AggregateTextKeys(rs: seq<Stats>): set<string> {
    set i, k | 0 <= i < |rs| && rs[i].questionsCount != 0 && k in rs[i].textMetrics :: k
  }

  function AggregateOf(rs: seq<Stats>): Result<Option<Aggregate>> {
    if rs == [] then Ok(None)
    else if Total(rs) == 0 then Err(ZeroTotalMessage)
    else
      var t := Total(rs) as real;
      Ok(Some(Aggregate(Weighted(rs, AnswerOf) / t, Weighted(rs, LegalBasisOf) / t,
                        map k | k in AggregateTextKeys(rs) :: WeightedText(rs, k) / t,
                        Weighted(rs, MalformedOf) / t)))
  }

  /** aggregate_results. */
  method AggregateResults(resultsList: seq<Stats>) returns (r: Result<Option<Aggregate>>)
    ensures r == AggregateOf(resultsList)
  {
    if |resultsList| == 0 {
      return Ok(None);
    }
    var correctAnswersSum, correctLegalBasisSum, malformedSum := 0.0, 0.0, 0.0;
    var totalQuestionsCount := 0;
    var textMetricsSums: map<string, real> := map[];
    var i := 0;
    while i < |resultsList|
      invariant i <= |resultsList|
      invariant RatesAfter(resultsList[..i], totalQuestionsCount, correctAnswersSum, correctLegalBasisSum, malformedSum)
      invariant WeightedSumsOf(textMetricsSums, resultsList[..i])
    {
      totalQuestionsCount, correctAnswersSum, correctLegalBasisSum, malformedSum :=
        AddRates(resultsList, i, totalQuestionsCount, correctAnswersSum, correctLegalBasisSum, malformedSum);
      textMetricsSums := AddTextMetrics(resultsList, i, textMetricsSums);
      i := i + 1;
    }
    assert resultsList[..i] == resultsList;
    if totalQuestionsCount == 0 {
      return Err(ZeroTotalMessage);
    }
    var t := totalQuestionsCount as real;
    r := Ok(Some(Aggregate(correctAnswersSum / t, correctLegalBasisSum / t,
                           map k | k in textMetricsSums :: textMetricsSums[k] / t,
                           malformedSum / t)));
    AggregateOfSums(resultsList, totalQuestionsCount, correctAnswersSum, correctLegalBasisSum, malformedSum, textMetricsSums);
  }

  /**
   * The counting half of one iteration of the loop of aggregate_results: a
   * result with no questions is skipped, any other adds its question count
   * and its rates weighted by that count.
   */
  method AddRates(rs: seq<Stats>, i: nat, total: nat, answers: real, legalBasis: real, malformed: real)
    returns (total': nat, answers': real, legalBasis': real, malformed': real)
    requires i < |rs| && RatesAfter(rs[..i], total, answers, legalBasis, malformed)
    ensures RatesAfter(rs[..i + 1], total', answers', legalBasis', malformed')
  {
    var res := rs[i];
    var questionsCount := res.questionsCount;
    if questionsCount == 0 {
      RatesSkip(rs, i, total, answers, legalBasis, malformed);
      return total, answers, legalBasis, malformed;
    }
    var q := questionsCount as real;
    RatesStep(rs, i, total, answers, legalBasis, malformed);
    total' := total + questionsCount;
    answers' := answers + res.answer * q;
    legalBasis' := legalBasis + res.legalBasis * q;
    malformed' := malformed + res.malformedResponseRate * q;
  }

  /**
   * The text-metric half of one iteration: a result with no questions is
   * skipped, any other adds each of its text metrics weighted by its count.
   */
  method AddTextMetrics(rs: seq<Stats>, i: nat, sums: map<string, real>) returns (sums': map<string, real>)
    requires i < |rs| && WeightedSumsOf(sums, rs[..i])
    ensures WeightedSumsOf(sums', rs[..i + 1])
  {
    var res := rs[i];
    if res.questionsCount == 0 {
      WeightedSumsSkip(rs, i, sums);
      return sums;
    }
    sums' := AddScaled(sums, res.textMetrics, res.questionsCount as real);
    WeightedSumsStep(rs, i, sums, sums');
  }

  lemma AggregateOfSums(rs: seq<Stats>, total: nat, answers: real, legalBasis: real, malformed: real, sums: map<string, real>)
    requires rs != [] && total != 0
    requires RatesAfter(rs, total, answers, legalBasis, malformed) && WeightedSumsOf(sums, rs)
    ensures var t := total as real;
            AggregateOf(rs) == Ok(Some(Aggregate(answers / t, legalBasis / t,
                                                 map k | k in sums :: sums[k] / t, malformed / t)))
  {
    var t := total as real;
    var m1 := map k | k in sums :: sums[k] / t;
    var m2 := map k | k in AggregateTextKeys(rs) :: WeightedText(rs, k) / t;
    assert m1.Keys == m2.Keys;
    assert forall k :: k in m1 ==> m1[k] == m2[k];
    assert m1 == m2;
  }

  /** The count and rate accumulators of aggregate_results after the results `rs`. */
  predicate RatesAfter(rs: seq<Stats>, total: nat, answers: real, legalBasis: real, malformed: real) {
    total == Total(rs) && answers == Weighted(rs, AnswerOf) && legalBasis == Weighted(rs, LegalBasisOf) &&
    malformed == Weighted(rs, MalformedOf)
  }

  lemma RatesSkip(rs: seq<Stats>, i: nat, total: nat, answers: real, legalBasis: real, malformed: real)
    requires i < |rs| && rs[i].questionsCount == 0
    requires RatesAfter(rs[..i], total, answers, legalBasis, malformed)
    ensures RatesAfter(rs[..i + 1], total, answers, legalBasis, malformed)
  {
    TotalStep(rs, i);
    WeightedStep(rs, i, AnswerOf);
    WeightedStep(rs, i, LegalBasisOf);
    WeightedStep(rs, i, MalformedOf);
  }

  lemma RatesStep(rs: seq<Stats>, i: nat, total: nat, answers: real, legalBasis: real, malformed: real)
    requires i < |rs| && rs[i].questionsCount != 0
    requires RatesAfter(rs[..i], total, answers, legalBasis, malformed)
    ensures var r, q := rs[i], rs[i].questionsCount as real;
            RatesAfter(rs[..i + 1], total + r.questionsCount, answers + r.answer * q,
                       legalBasis + r.legalBasis * q, malformed + r.malformedResponseRate * q)
  {
    TotalStep(rs, i);
    WeightedStep(rs, i, AnswerOf);
    WeightedStep(rs, i, LegalBasisOf);
    WeightedStep(rs, i, MalformedOf);
  }

  lemma TotalStep(rs: seq<Stats>, i: nat)
    requires i < |rs|
    ensures Total(rs[..i + 1]) == Total(rs[..i]) + rs[i].questionsCount
  {
    assert rs[..i + 1][..i] == rs[..i];
  }

  lemma WeightedStep(rs: seq<Stats>, i: nat, f: Rate)
    requires i < |rs|
    ensures Weighted(rs[..i + 1], f) ==
              Weighted(rs[..i], f) + Contribution(f, rs[i])
  {
    assert rs[..i + 1][..i] == rs[..i];
  }

  lemma WeightedTextStep(rs: seq<Stats>, i: nat, key: string)
    requires i < |rs|
    ensures WeightedText(rs[..i + 1], key) == WeightedText(rs[..i], key) + TextContribution(rs[i], key)
  {
    assert rs[..i + 1][..i] == rs[..i];
  }

  /** `sums` is the `text_metrics_sums` dictionary after the results `rs`. */
  predicate WeightedSumsOf(sums: map<string, real>, rs: seq<Stats>) {
    sums.Keys == AggregateTextKeys(rs) && forall k :: k in sums ==> sums[k] == WeightedText(rs, k)
  }

  lemma {:induction false} WeightedTextMissing(rs: seq<Stats>, key: string)
    requires key !in AggregateTextKeys(rs)
    ensures WeightedText(rs, key) == 0.0
  {
    if rs != [] {
      var n := |rs| - 1;
      assert forall j :: 0 <= j < n ==> rs[..n][j] == rs[j];
      assert rs[n].questionsCount == 0 || key !in rs[n].textMetrics;
      WeightedTextMissing(rs[..n], key);
    }
  }

  lemma WeightedSumsSkip(rs: seq<Stats>, i: nat, sums: map<string, real>)
    requires i < |rs| && rs[i].questionsCount == 0 && WeightedSumsOf(sums, rs[..i])
    ensures WeightedSumsOf(sums, rs[..i + 1])
  {
    AggregateTextKeysStep(rs, i);
    forall k ensures WeightedText(rs[..i + 1], k) == WeightedText(rs[..i], k) {
      WeightedTextStep(rs, i, k);
    }
  }

  lemma WeightedSumsStep(rs: seq<Stats>, i: nat, sums: map<string, real>, r: map<string, real>)
    requires i < |rs| && rs[i].questionsCount != 0 && WeightedSumsOf(sums, rs[..i])
    requires r.Keys == sums.Keys + rs[i].textMetrics.Keys
    requires forall k :: k in r ==>
               r[k] == (if k in sums then sums[k] else 0.0) +
                       (if k in rs[i].textMetrics then rs[i].textMetrics[k] * rs[i].questionsCount as real else 0.0)
    ensures WeightedSumsOf(r, rs[..i + 1])
  {
    AggregateTextKeysStep(rs, i);
    forall k | k in r ensures r[k] == WeightedText(rs[..i + 1], k) {
      if k !in sums {
        WeightedTextMissing(rs[..i], k);
      }
      WeightedSumStepAt(rs, i, if k in sums then sums[k] else 0.0, k, r[k]);
    }
  }

  /** The same step for one key. */
  lemma WeightedSumStepAt(rs: seq<Stats>, i: nat, before: real, k: string, after: real)
    requires i < |rs| && rs[i].questionsCount != 0
    requires before == WeightedText(rs[..i], k)
    requires after == before + (if k in rs[i].textMetrics then rs[i].textMetrics[k] * rs[i].questionsCount as real else 0.0)
    ensures after == WeightedText(rs[..i + 1], k)
  {
    WeightedTextStep(rs, i, k);
  }

  lemma AggregateTextKeysStep(rs: seq<Stats>, i: nat)
    requires i < |rs|
    ensures AggregateTextKeys(rs[..i + 1]) == AggregateTextKeys(rs[..i]) + (if rs[i].questionsCount == 0 then {} else rs[i].textMetrics.Keys)
  {
    var p, q := rs[..i], rs[..i + 1];
    assert forall j :: 0 <= j < i ==> q[j] == p[j];
    assert q[i] == rs[i];
  }

  // ---------------------------------------------------------------------
  // Properties of aggregate_results
  // ---------------------------------------------------------------------

  /** `aggregate_results([])` is `{}`. */
  lemma AggregateOfNothing()
    ensures AggregateOf([]) == Ok(None)
  {
  }

  lemma {:induction false} TotalZero(rs: seq<Stats>)
    ensures Total(rs) == 0 <==> forall i :: 0 <= i < |rs| ==> rs[i].questionsCount == 0
  {
    if rs != [] {
      var init := rs[..|rs| - 1];
      TotalZero(init);
      assert forall j :: 0 <= j < |init| ==> init[j] == rs[j];
    }
  }

  /** A non-empty list whose every result has no questions raises ValueError. */
  lemma AllEmptyResultsRaise(rs: seq<Stats>)
    requires |rs| > 0 && forall i :: 0 <= i < |rs| ==> rs[i].questionsCount == 0
    ensures AggregateOf(rs) == Err(ZeroTotalMessage)
  {
    TotalZero(rs);
  }

  lemma {:induction false} WeightedBounds(rs: seq<Stats>, f: Rate)
    requires forall i :: 0 <= i < |rs| ==> 0.0 <= RateOf(f, rs[i]) <= 1.0
    ensures 0.0 <= Weighted(rs, f) <= Total(rs) as real
  {
    if rs != [] {
      var init := rs[..|rs| - 1];
      assert forall j :: 0 <= j < |init| ==> init[j] == rs[j];
      WeightedBounds(init, f);
      var r := rs[|rs| - 1];
      var c := Contribution(f, r);
      ContributionBounds(f, r, c);
      assert Weighted(rs, f) == Weighted(init, f) + c;
      assert Total(rs) == Total(init) + r.questionsCount;
    }
  }

  /** The aggregated rates are weighted means: they stay in [0, 1] when every input rate does. */
  lemma AggregateRatesInUnit(rs: seq<Stats>)
    requires AggregateOf(rs).Ok? && AggregateOf(rs).value.Some?
    requires forall i :: 0 <= i < |rs| ==>
               0.0 <= rs[i].answer <= 1.0 && 0.0 <= rs[i].legalBasis <= 1.0 && 0.0 <= rs[i].malformedResponseRate <= 1.0
    ensures var a := AggregateOf(rs).value.value;
            0.0 <= a.answer <= 1.0 && 0.0 <= a.legalBasis <= 1.0 && 0.0 <= a.malformedResponseRate <= 1.0
  {
    WeightedBounds(rs, AnswerOf);
    WeightedBounds(rs, LegalBasisOf);
    WeightedBounds(rs, MalformedOf);
    var t := Total(rs) as real;
    UnitQuotient(Weighted(rs, AnswerOf), t);
    UnitQuotient(Weighted(rs, LegalBasisOf), t);
    UnitQuotient(Weighted(rs, MalformedOf), t);
  }

  lemma ContributionBounds(f: Rate, r: Stats, c: real)
    requires 0.0 <= RateOf(f, r) <= 1.0 && c == Contribution(f, r)
    ensures 0.0 <= c <= r.questionsCount as real
  {
    var x, q := RateOf(f, r), r.questionsCount as real;
    if r.questionsCount != 0 {
      assert c == x * q;
      UnitScale(x, q);
    }
  }

  // ---------------------------------------------------------------------
  // Aggregating per-file statistics is computing statistics of all rows
  // ---------------------------------------------------------------------

  function Concat(files: seq<seq<Entry>>): seq<Entry> {
    if files == [] then [] else Concat(files[..|files| - 1]) + files[|files| - 1]
  }

  function StatsList(files: seq<seq<Entry>>): (rs: seq<Stats>)
    ensures |rs| == |files| && forall i :: 0 <= i < |files| ==> rs[i] == StatsOf(files[i])
  {
    seq(|files|, i requires 0 <= i < |files| => StatsOf(files[i]))
  }

  lemma {:induction false} TextSumAppend(a: seq<Entry>, b: seq<Entry>, key: string)
    ensures TextSum(a + b, key) == TextSum(a, key) + TextSum(b, key)
    decreases |b|
  {
    if b == [] {
      assert a + b == a;
    } else {
      var b' := b[..|b| - 1];
      assert (a + b)[..|a + b| - 1] == a + b';
      TextSumAppend(a, b', key);
    }
  }

  lemma TextKeysAppend(a: seq<Entry>, b: seq<Entry>)
    ensures TextKeys(a + b) == TextKeys(a) + TextKeys(b)
  {
    var ab := a + b;
    forall k | k in TextKeys(ab) ensures k in TextKeys(a) + TextKeys(b) {
      var i :| 0 <= i < |ab| && k in TextOf(ab[i]);
      if i < |a| { assert ab[i] == a[i]; } else { assert ab[i] == b[i - |a|]; }
    }
    forall k | k in TextKeys(a) ensures k in TextKeys(ab) {
      var i :| 0 <= i < |a| && k in TextOf(a[i]);
      assert ab[i] == a[i];
    }
    forall k | k in TextKeys(b) ensures k in TextKeys(ab) {
      var i :| 0 <= i < |b| && k in TextOf(b[i]);
      assert ab[|a| + i] == b[i];
    }
  }

  /**
   * `s` describes the rows `d` without dividing: its question count is their
   * number, each weighted rate is their count of qualifying rows, and each
   * weighted text metric is their sum of that metric.
   */
  ghost predicate Summarizes(s: Stats, d: seq<Entry>) {
    s.questionsCount == |d| &&
    (forall f :: Contribution(f, s) == CountIf(d, CriterionOf(f)) as real) &&
    (s.questionsCount != 0 ==> s.textMetrics.Keys == TextKeys(d)) &&
    (forall k :: TextContribution(s, k) == TextSum(d, k))
  }

  lemma StatsOfSummarizes(d: seq<Entry>)
    ensures Summarizes(StatsOf(d), d)
  {
    forall f ensures Contribution(f, StatsOf(d)) == CountIf(d, CriterionOf(f)) as real {
      FileRateContribution(d, f);
    }
    forall k ensures TextContribution(StatsOf(d), k) == TextSum(d, k) {
      FileTextContribution(d, k);
    }
    FileTextKeys(d);
  }

  /** One file's contribution to a weighted rate is its own count of qualifying rows. */
  lemma FileRateContribution(d: seq<Entry>, f: Rate)
    ensures Contribution(f, StatsOf(d)) == CountIf(d, CriterionOf(f)) as real
  {
    StatsRate(d, f);
    RateContributionOf(StatsOf(d), d, f);
  }

  lemma RateContributionOf(s: Stats, d: seq<Entry>, f: Rate)
    requires s.questionsCount == |d|
    requires |d| > 0 ==> RateOf(f, s) == RowRate(d, CriterionOf(f))
    ensures Contribution(f, s) == CountIf(d, CriterionOf(f)) as real
  {
    if |d| > 0 {
      RowRateScales(d, CriterionOf(f), RateOf(f, s));
    }
  }

  /** One file's contribution to a weighted text metric is its own sum of that metric. */
  lemma FileTextContribution(d: seq<Entry>, key: string)
    ensures TextContribution(StatsOf(d), key) == TextSum(d, key)
  {
    var s := StatsOf(d);
    if |d| > 0 {
      assert s.textMetrics == TextAverages(d);
    } else {
      assert s.textMetrics == map[];
    }
    TextContributionOf(s, d, key);
  }

  lemma TextContributionOf(s: Stats, d: seq<Entry>, key: string)
    requires s.questionsCount == |d|
    requires |d| > 0 ==> s.textMetrics == TextAverages(d)
    requires |d| == 0 ==> s.textMetrics == map[]
    ensures TextContribution(s, key) == TextSum(d, key)
  {
    if |d| > 0 && key in s.textMetrics {
      TextAverageScales(d, key, s.textMetrics[key]);
    } else {
      TextSumMissing(d, key);
    }
  }

  lemma FileTextKeys(d: seq<Entry>)
    ensures StatsOf(d).questionsCount != 0 ==> StatsOf(d).textMetrics.Keys == TextKeys(d)
  {
  }

  lemma {:induction false} AggregateTotal(rs: seq<Stats>, files: seq<seq<Entry>>)
    requires |rs| == |files| && forall i :: 0 <= i < |files| ==> Summarizes(rs[i], files[i])
    ensures Total(rs) == |Concat(files)|
  {
    if files != [] {
      var n := |files| - 1;
      AggregateTotal(rs[..n], files[..n]);
      TotalStep(rs, n);
      assert rs[..n + 1] == rs;
    }
  }

  lemma {:induction false} AggregateWeighted(rs: seq<Stats>, files: seq<seq<Entry>>, f: Rate)
    requires |rs| == |files| && forall i :: 0 <= i < |files| ==> Summarizes(rs[i], files[i])
    ensures Weighted(rs, f) == CountIf(Concat(files), CriterionOf(f)) as real
  {
    if files != [] {
      var n := |files| - 1;
      AggregateWeighted(rs[..n], files[..n], f);
      assert Summarizes(rs[n], files[n]);
      CountIfAppend(Concat(files[..n]), files[n], CriterionOf(f));
    }
  }

  lemma {:induction false} AggregateWeightedText(rs: seq<Stats>, files: seq<seq<Entry>>, key: string)
    requires |rs| == |files| && forall i :: 0 <= i < |files| ==> Summarizes(rs[i], files[i])
    ensures WeightedText(rs, key) == TextSum(Concat(files), key)
  {
    if files != [] {
      var n := |files| - 1;
      AggregateWeightedText(rs[..n], files[..n], key);
      assert Summarizes(rs[n], files[n]);
      TextSumAppend(Concat(files[..n]), files[n], key);
    }
  }

  lemma {:induction false} AggregateKeys(rs: seq<Stats>, files: seq<seq<Entry>>)
    requires |rs| == |files| && forall i :: 0 <= i < |files| ==> Summarizes(rs[i], files[i])
    ensures AggregateTextKeys(rs) == TextKeys(Concat(files))
  {
    if files == [] {
      assert AggregateTextKeys(rs) == {};
    } else {
      var n := |files| - 1;
      AggregateKeys(rs[..n], files[..n]);
      AggregateTextKeysStep(rs, n);
      assert rs[..n + 1] == rs;
      assert Summarizes(rs[n], files[n]);
      TextKeysAppend(Concat(files[..n]), files[n]);
      if |files[n]| == 0 {
        assert TextKeys(files[n]) == {};
      }
    }
  }

  /**
   * Aggregating the statistics of several files, weighted by question count,
   * gives the statistics of all their rows taken together (without the
   * `questions_count` field), and files without rows make no difference.
   */
  lemma AggregateIsStatsOfAllRows(files: seq<seq<Entry>>)
    requires |Concat(files)| > 0
    ensures var s := StatsOf(Concat(files));
            AggregateOf(StatsList(files)) ==
              Ok(Some(Aggregate(s.answer, s.legalBasis, s.textMetrics, s.malformedResponseRate)))
  {
    var rs, all := StatsList(files), Concat(files);
    forall i | 0 <= i < |files| ensures Summarizes(rs[i], files[i]) {
      StatsOfSummarizes(files[i]);
    }
    AggregateTotal(rs, files);
    AggregateKeys(rs, files);
    forall k ensures WeightedText(rs, k) == TextSum(all, k) {
      AggregateWeightedText(rs, files, k);
    }
    forall f ensures Weighted(rs, f) == CountIf(all, CriterionOf(f)) as real {
      AggregateWeighted(rs, files, f);
    }
    AggregateFromSums(rs, all);
  }

  /** The division step: weighted sums equal to the row counts and sums give the row statistics. */
  lemma AggregateFromSums(rs: seq<Stats>, all: seq<Entry>)
    requires |all| > 0 && Total(rs) == |all|
    requires forall f :: Weighted(rs, f) == CountIf(all, CriterionOf(f)) as real
    requires AggregateTextKeys(rs) == TextKeys(all)
    requires forall k :: WeightedText(rs, k) == TextSum(all, k)
    ensures AggregateOf(rs) == Ok(Some(Aggregate(RowRate(all, AnswerIsCorrect), RowRate(all, LegalBasisIsCorrect),
                                                 TextAverages(all), RowRate(all, IsMalformed))))
  {
    assert rs != [];
    assert Weighted(rs, AnswerOf) == CountIf(all, AnswerIsCorrect) as real;
    assert Weighted(rs, LegalBasisOf) == CountIf(all, LegalBasisIsCorrect) as real;
    assert Weighted(rs, MalformedOf) == CountIf(all, IsMalformed) as real;
    assert (map k | k in AggregateTextKeys(rs) :: WeightedText(rs, k) / Total(rs) as real) == TextAverages(all);
  }
}
