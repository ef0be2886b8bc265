/**
 * Server-side aggregation of the leaderboard data
 * (frontend/src/lib/server/firestore.ts), over documents already fetched.
 */
module Firestore {
  import opened Wrappers

  type Metrics = map<string, real>

  // ---------------------------------------------------------------------
  // averageMetrics
  // ---------------------------------------------------------------------

  /** Every key that occurs in some record. */
  function KeyUnion(records: seq<Metrics>): set<string> {
    set i, k | 0 <= i < |records| && k in records[i] :: k
  }

  /** `metricsArray.map((m) => m[key]).filter((v) => v !== undefined)`. */
  function Present(records: seq<Metrics>, key: string): (values: seq<real>)
    ensures |values| <= |records|
  {
    if records == [] then []
    else
      var init := records[..|records| - 1];
      var last := records[|records| - 1];
      Present(init, key) + (if key in last then [last[key]] else [])
  }

  /** `values.reduce((a, b) => a + b, 0)`. */
  function Sum(values: seq<real>): real {
    if values == [] then 0.0 else Sum(values[..|values| - 1]) + values[|values| - 1]
  }

  /** The mean used for one key: 0 when no value is present. */
  function Mean(values: seq<real>): real {
    if |values| > 0 then Sum(values) / |values| as real else 0.0
  }

  /** The averaged record: for each key, the mean over exactly the records holding that key. */
  function Average(records: seq<Metrics>): Metrics {
    map key | key in KeyUnion(records) :: Mean(Present(records, key))
  }

  /** averageMetrics. */
  method AverageMetrics(metricsArray: seq<Metrics>) returns (result: Metrics)
    ensures result == Average(metricsArray)
  {
    if |metricsArray| == 0 {
      return map[];
    }
    var allKeys: set<string> := {};
    var i := 0;
    while i < |metricsArray|
      invariant i <= |metricsArray|
      invariant allKeys == KeyUnion(metricsArray[..i])
    {
      KeyUnionStep(metricsArray, i);
      allKeys := allKeys + metricsArray[i].Keys;
      i := i + 1;
    }
    assert metricsArray[..i] == metricsArray;

    result := map[];
    var pending := allKeys;
    while pending != {}
      invariant pending <= allKeys
      invariant result.Keys == allKeys - pending
      invariant forall k :: k in result ==> result[k] == Mean(Present(metricsArray, k))
      decreases pending
    {
      var key :| key in pending;
      var sum, count := SumPresent(metricsArray, key);
      result := result[key := if count > 0 then sum / count as real else 0.0];
      pending := pending - {key};
    }
  }

  /** The filter-and-reduce for one key, as a loop over the records. */
  method SumPresent(records: seq<Metrics>, key: string) returns (sum: real, count: nat)
    ensures sum == Sum(Present(records, key)) && count == |Present(records, key)|
  {
    sum, count := 0.0, 0;
    var i := 0;
    while i < |records|
      invariant i <= |records|
      invariant sum == Sum(Present(records[..i], key)) && count == |Present(records[..i], key)|
    {
      assert records[..i + 1] == records[..i] + [records[i]];
      PresentOfAppend(records[..i], records[i], key);
      var p := Present(records[..i], key);
      if key in records[i] {
        assert (p + [records[i][key]])[..|p|] == p;
        sum := sum + records[i][key];
        count := count + 1;
      } else {
        assert p + [] == p;
      }
      i := i + 1;
    }
    assert records[..i] == records;
  }

  lemma KeyUnionStep(records: seq<Metrics>, i: nat)
    requires i < |records|
    ensures KeyUnion(records[..i + 1]) == KeyUnion(records[..i]) + records[i].Keys
  {
    var p, q := records[..i], records[..i + 1];
    assert forall j :: 0 <= j < i ==> q[j] == p[j];
    assert q[i] == records[i];
  }

  lemma {:induction false} PresentNonEmpty(records: seq<Metrics>, key: string, i: nat)
    requires i < |records| && key in records[i]
    ensures |Present(records, key)| > 0
  {
    var n := |records| - 1;
    if i < n {
      assert records[..n][i] == records[i];
      PresentNonEmpty(records[..n], key, i);
    }
  }

  /** Averaging no records gives the empty record. */
  lemma AverageOfNothing()
    ensures Average([]) == map[]
  {
    assert KeyUnion([]) == {};
  }

  /**
   * The averaged record has exactly the keys of the inputs, and each value is
   * the mean over the records that hold the key (at least one of them does).
   */
  lemma AverageIsMeanOverPresent(records: seq<Metrics>, key: string)
    ensures key in Average(records) <==> exists i :: 0 <= i < |records| && key in records[i]
    ensures key in Average(records) ==>
              |Present(records, key)| > 0 &&
              Average(records)[key] == Sum(Present(records, key)) / |Present(records, key)| as real
  {
    if key in Average(records) {
      var i :| 0 <= i < |records| && key in records[i];
      PresentNonEmpty(records, key, i);
    }
  }

  /** Present lists, in order, the value of every record that holds the key. */
  lemma {:induction false} PresentOfAppend(records: seq<Metrics>, m: Metrics, key: string)
    ensures Present(records + [m], key) == Present(records, key) + (if key in m then [m[key]] else [])
  {
    assert (records + [m])[..|records|] == records;
  }

  /** A record that lacks a key does not change that key's average (it is not counted as 0). */
  lemma MissingKeyIsNotZero(records: seq<Metrics>, m: Metrics, key: string)
    requires key !in m
    ensures Present(records + [m], key) == Present(records, key)
    ensures key in Average(records) ==> key in Average(records + [m]) && Average(records + [m])[key] == Average(records)[key]
  {
    PresentOfAppend(records, m, key);
    if key in Average(records) {
      var i :| 0 <= i < |records| && key in records[i];
      assert (records + [m])[i] == records[i];
    }
  }

  /** A single record averages to itself. */
  lemma AverageOfOne(m: Metrics)
    ensures Average([m]) == m
  {
    forall key | key in m ensures key in KeyUnion([m]) && Mean(Present([m], key)) == m[key] {
      PresentOfAppend([], m, key);
      assert [] + [m] == [m];
      assert [m[key]][..0] == [];
      assert Sum([m[key]]) == m[key];
    }
    forall key | key in KeyUnion([m]) ensures key in m {
    }
    assert Average([m]).Keys == m.Keys;
  }

  lemma {:induction false} SumBounds(values: seq<real>, lo: real, hi: real)
    requires forall i :: 0 <= i < |values| ==> lo <= values[i] <= hi
    ensures |values| as real * lo <= Sum(values) <= |values| as real * hi
  {
    if values != [] {
      SumBounds(values[..|values| - 1], lo, hi);
    }
  }

  lemma {:induction false} PresentBounds(records: seq<Metrics>, key: string, lo: real, hi: real)
    requires forall i :: 0 <= i < |records| && key in records[i] ==> lo <= records[i][key] <= hi
    ensures forall j :: 0 <= j < |Present(records, key)| ==> lo <= Present(records, key)[j] <= hi
  {
    if records != [] {
      var init := records[..|records| - 1];
      assert forall i :: 0 <= i < |init| ==> init[i] == records[i];
      PresentBounds(init, key, lo, hi);
    }
  }

  /**
   * Each averaged value lies within any bounds that hold for the values present
   * for its key; in particular between their minimum and maximum.
   */
  lemma AverageWithinBounds(records: seq<Metrics>, key: string, lo: real, hi: real)
    requires key in Average(records)
    requires forall i :: 0 <= i < |records| && key in records[i] ==> lo <= records[i][key] <= hi
    ensures lo <= Average(records)[key] <= hi
  {
    AverageIsMeanOverPresent(records, key);
    PresentBounds(records, key, lo, hi);
    MeanBounds(Present(records, key), lo, hi);
  }

  lemma MeanBounds(values: seq<real>, lo: real, hi: real)
    requires |values| > 0
    requires forall j :: 0 <= j < |values| ==> lo <= values[j] <= hi
    ensures lo <= Sum(values) / |values| as real <= hi
  {
    SumBounds(values, lo, hi);
    DivisionBounds(Sum(values), |values| as real, lo, hi);
  }

  lemma DivisionBounds(s: real, n: real, lo: real, hi: real)
    requires n > 0.0 && n * lo <= s <= n * hi
    ensures lo <= s / n <= hi
  {
    assert s / n * n == s;
  }

  // ---------------------------------------------------------------------
  // Documents, toModelSummary and the leaderboards
  // ---------------------------------------------------------------------

  /** The fields of a model document; `model_config` may be absent. */
  datatype FirestoreModel = FirestoreModel(modelName: string, isPolish: bool, modelConfig: Option<map<string, string>>)

  datatype ModelSummary = ModelSummary(id: string, name: string, isPolish: bool, config: map<string, string>)

  datatype FirestoreExam = FirestoreExam(examType: string, year: int, accuracyMetrics: Metrics, textMetrics: Metrics)

  datatype FirestoreJudgment = FirestoreJudgment(accuracyMetrics: Metrics, textMetrics: Metrics)

  /** A model document with the sub-documents already fetched; `judgment` is `judgments/all`. */
  datatype ModelDoc = ModelDoc(id: string, data: FirestoreModel, exams: seq<FirestoreExam>, judgment: Option<FirestoreJudgment>)

  datatype AggregatedModel = AggregatedModel(model: ModelSummary, accuracyMetrics: Metrics, textMetrics: Metrics)

  /** toModelSummary: copies the identity fields and defaults a missing config to `{}`. */
  function ToModelSummary(id: string, data: FirestoreModel): (r: ModelSummary)
    ensures r.id == id && r.name == data.modelName && r.isPolish == data.isPolish
    ensures data.modelConfig.None? ==> r.config == map[]
    ensures data.modelConfig.Some? ==> r.config == data.modelConfig.value
  {
    ModelSummary(id, data.modelName, data.isPolish, data.modelConfig.GetOr(map[]))
  }

  function AccuracyColumn(exams: seq<FirestoreExam>): (r: seq<Metrics>)
    ensures |r| == |exams| && forall i :: 0 <= i < |exams| ==> r[i] == exams[i].accuracyMetrics
  {
    seq(|exams|, i requires 0 <= i < |exams| => exams[i].accuracyMetrics)
  }

  function TextColumn(exams: seq<FirestoreExam>): (r: seq<Metrics>)
    ensures |r| == |exams| && forall i :: 0 <= i < |exams| ==> r[i] == exams[i].textMetrics
  {
    seq(|exams|, i requires 0 <= i < |exams| => exams[i].textMetrics)
  }

  /** The exam-leaderboard entry of one model: its exam metrics averaged. */
  function ExamEntry(d: ModelDoc): AggregatedModel {
    AggregatedModel(ToModelSummary(d.id, d.data), Average(AccuracyColumn(d.exams)), Average(TextColumn(d.exams)))
  }

  function JudgmentEntry(d: ModelDoc): AggregatedModel
    requires d.judgment.Some?
  {
    AggregatedModel(ToModelSummary(d.id, d.data), d.judgment.value.accuracyMetrics, d.judgment.value.textMetrics)
  }

  /** The exam leaderboard, in document order, skipping models without exam documents. */
  function ExamLeaderboard(docs: seq<ModelDoc>): seq<AggregatedModel> {
    if docs == [] then []
    else
      var last := docs[|docs| - 1];
      ExamLeaderboard(docs[..|docs| - 1]) + (if last.exams == [] then [] else [ExamEntry(last)])
  }

  /** The judgment leaderboard, in document order, skipping models without `judgments/all`. */
  function JudgmentLeaderboard(docs: seq<ModelDoc>): seq<AggregatedModel> {
    if docs == [] then []
    else
      var last := docs[|docs| - 1];
      JudgmentLeaderboard(docs[..|docs| - 1]) + (if last.judgment.None? then [] else [JudgmentEntry(last)])
  }

  /** getAggregatedExams over the fetched documents. */
  method GetAggregatedExams(docs: seq<ModelDoc>) returns (results: seq<AggregatedModel>)
    ensures results == ExamLeaderboard(docs)
  {
    results := [];
    var i := 0;
    while i < |docs|
      invariant i <= |docs|
      invariant results == ExamLeaderboard(docs[..i])
    {
      assert docs[..i + 1][..i] == docs[..i];
      var d := docs[i];
      var model := ToModelSummary(d.id, d.data);
      if |d.exams| == 0 {
        i := i + 1;
        continue;
      }
      var accuracyMetricsArray: seq<Metrics> := [];
      var textMetricsArray: seq<Metrics> := [];
      var j := 0;
      while j < |d.exams|
        invariant j <= |d.exams|
        invariant accuracyMetricsArray == AccuracyColumn(d.exams[..j])
        invariant textMetricsArray == TextColumn(d.exams[..j])
      {
        accuracyMetricsArray := accuracyMetricsArray + [d.exams[j].accuracyMetrics];
        textMetricsArray := textMetricsArray + [d.exams[j].textMetrics];
        j := j + 1;
      }
      assert d.exams[..j] == d.exams;
      var acc := AverageMetrics(accuracyMetricsArray);
      var text := AverageMetrics(textMetricsArray);
      results := results + [AggregatedModel(model, acc, text)];
      i := i + 1;
    }
    assert docs[..i] == docs;
  }

  /** getAllJudgments over the fetched documents (one judgment document per model, no averaging). */
  method GetAllJudgments(docs: seq<ModelDoc>) returns (results: seq<AggregatedModel>)
    ensures results == JudgmentLeaderboard(docs)
  {
    results := [];
    var i := 0;
    while i < |docs|
      invariant i <= |docs|
      invariant results == JudgmentLeaderboard(docs[..i])
    {
      assert docs[..i + 1][..i] == docs[..i];
      var d := docs[i];
      var model := ToModelSummary(d.id, d.data);
      if d.judgment.Some? {
        results := results + [AggregatedModel(model, d.judgment.value.accuracyMetrics, d.judgment.value.textMetrics)];
      }
      i := i + 1;
    }
    assert docs[..i] == docs;
  }

  /** The exam leaderboard holds an entry exactly for each model document that has exam documents. */
  lemma {:induction false} ExamLeaderboardMembers(docs: seq<ModelDoc>)
    ensures forall e :: e in ExamLeaderboard(docs) <==> exists d :: d in docs && d.exams != [] && e == ExamEntry(d)
  {
    if docs != [] {
      var init := docs[..|docs| - 1];
      ExamLeaderboardMembers(init);
      assert docs == init + [docs[|docs| - 1]];
      forall d | d in docs ensures d in init || d == docs[|docs| - 1] {
      }
    }
  }

  /** The judgment leaderboard holds an entry exactly for each model document that has a judgment document. */
  lemma {:induction false} JudgmentLeaderboardMembers(docs: seq<ModelDoc>)
    ensures forall e :: e in JudgmentLeaderboard(docs) <==>
              exists d :: d in docs && d.judgment.Some? && e == JudgmentEntry(d)
  {
    if docs != [] {
      var init := docs[..|docs| - 1];
      JudgmentLeaderboardMembers(init);
      assert docs == init + [docs[|docs| - 1]];
      forall d | d in docs ensures d in init || d == docs[|docs| - 1] {
      }
    }
  }

  /**
   * A model without exam documents is absent from the exam leaderboard, yet
   * it is listed on the judgment leaderboard when it has a judgment document.
   */
  lemma NoExamsOnlyJudgments(docs: seq<ModelDoc>, d: ModelDoc)
    requires d in docs && d.exams == [] && d.judgment.Some?
    requires forall d' :: d' in docs && d'.id == d.id ==> d' == d
    ensures forall e :: e in ExamLeaderboard(docs) ==> e.model.id != d.id
    ensures exists e :: e in JudgmentLeaderboard(docs) && e.model.id == d.id
  {
    ExamLeaderboardMembers(docs);
    JudgmentLeaderboardMembers(docs);
    assert JudgmentEntry(d) in JudgmentLeaderboard(docs);
  }
}
