/**
 * Leaderboard column discovery and column labels
 * (frontend/src/lib/metricConfig.ts).
 */
module MetricConfig {
  import opened Text
  import opened StringOrder

  /** One table row's metric maps; keys are free-form metric names. */
  datatype MetricRecord = MetricRecord(accuracyMetrics: map<string, real>, textMetrics: map<string, real>)

  /** Every accuracy-metric key that occurs in some record. */
  function AccuracyKeySet(data: seq<MetricRecord>): set<string> {
    set i, k | 0 <= i < |data| && k in data[i].accuracyMetrics :: k
  }

  /** Every text-metric key that occurs in some record. */
  function TextKeySet(data: seq<MetricRecord>): set<string> {
    set i, k | 0 <= i < |data| && k in data[i].textMetrics :: k
  }

  /**
   * `keys.forEach((k) => set.add(k))`: the JavaScript Set is kept as the
   * sequence of its members in insertion order.
   */
  method AddKeys(members: seq<string>, keys: set<string>) returns (r: seq<string>)
    requires Distinct(members)
    ensures Distinct(r)
    ensures Elems(r) == Elems(members) + keys
    ensures |r| >= |members| && r[..|members|] == members
  {
    r := members;
    var pending := keys;
    while pending != {}
      invariant Distinct(r)
      invariant Elems(r) + pending == Elems(members) + keys
      invariant |r| >= |members| && r[..|members|] == members
      decreases pending
    {
      var k :| k in pending;
      if k !in r {
        r := r + [k];
      }
      pending := pending - {k};
    }
  }

  /**
   * `extractMetricKeys`: both key lists are increasing (so sorted and free of
   * duplicates) and hold exactly the keys that occur in the records.
   */
  method ExtractMetricKeys(data: seq<MetricRecord>) returns (accuracyKeys: seq<string>, textKeys: seq<string>)
    ensures StrictlySorted(accuracyKeys) && Elems(accuracyKeys) == AccuracyKeySet(data)
    ensures StrictlySorted(textKeys) && Elems(textKeys) == TextKeySet(data)
  {
    var accSet: seq<string> := [];
    var textSet: seq<string> := [];
    var i := 0;
    while i < |data|
      invariant i <= |data|
      invariant Distinct(accSet) && Elems(accSet) == AccuracyKeySet(data[..i])
      invariant Distinct(textSet) && Elems(textSet) == TextKeySet(data[..i])
    {
      KeySetsStep(data, i);
      accSet := AddKeys(accSet, data[i].accuracyMetrics.Keys);
      textSet := AddKeys(textSet, data[i].textMetrics.Keys);
      i := i + 1;
    }
    assert data[..i] == data;
    accuracyKeys := Sort(accSet);
    textKeys := Sort(textSet);
    SortedKeys(accSet, accuracyKeys);
    SortedKeys(textSet, textKeys);
  }

  lemma KeySetsStep(data: seq<MetricRecord>, i: nat)
    requires i < |data|
    ensures AccuracyKeySet(data[..i + 1]) == AccuracyKeySet(data[..i]) + data[i].accuracyMetrics.Keys
    ensures TextKeySet(data[..i + 1]) == TextKeySet(data[..i]) + data[i].textMetrics.Keys
  {
    var p, q := data[..i], data[..i + 1];
    assert forall j :: 0 <= j < i ==> q[j] == p[j];
    assert q[i] == data[i];
  }

  lemma SortedKeys(members: seq<string>, sorted: seq<string>)
    requires Distinct(members) && Sorted(sorted) && multiset(sorted) == multiset(members)
    ensures StrictlySorted(sorted) && Elems(sorted) == Elems(members)
  {
    PermutationKeepsDistinct(members, sorted);
    DistinctSortedIsStrict(sorted);
    assert forall x :: x in sorted <==> x in multiset(sorted);
    assert forall x :: x in members <==> x in multiset(members);
  }

  /** Adding, removing or reordering records without changing which records occur leaves the key sets unchanged. */
  lemma KeySetsDependOnlyOnRecords(d1: seq<MetricRecord>, d2: seq<MetricRecord>)
    requires forall r :: r in d1 <==> r in d2
    ensures AccuracyKeySet(d1) == AccuracyKeySet(d2)
    ensures TextKeySet(d1) == TextKeySet(d2)
  {
    forall k | k in AccuracyKeySet(d1) ensures k in AccuracyKeySet(d2) {
      var i :| 0 <= i < |d1| && k in d1[i].accuracyMetrics;
      assert d1[i] in d2;
      var j :| 0 <= j < |d2| && d2[j] == d1[i];
    }
    forall k | k in AccuracyKeySet(d2) ensures k in AccuracyKeySet(d1) {
      var i :| 0 <= i < |d2| && k in d2[i].accuracyMetrics;
      assert d2[i] in d1;
      var j :| 0 <= j < |d1| && d1[j] == d2[i];
    }
    forall k | k in TextKeySet(d1) ensures k in TextKeySet(d2) {
      var i :| 0 <= i < |d1| && k in d1[i].textMetrics;
      assert d1[i] in d2;
      var j :| 0 <= j < |d2| && d2[j] == d1[i];
    }
    forall k | k in TextKeySet(d2) ensures k in TextKeySet(d1) {
      var i :| 0 <= i < |d2| && k in d2[i].textMetrics;
      assert d2[i] in d1;
      var j :| 0 <= j < |d1| && d1[j] == d2[i];
    }
  }

  /**
   * The column layout is deterministic: any two results that meet the
   * contract of ExtractMetricKeys for inputs holding the same records
   * (in any order, with any repetitions) are equal.
   */
  lemma ExtractionDeterministic(d1: seq<MetricRecord>, d2: seq<MetricRecord>,
                                acc1: seq<string>, text1: seq<string>,
                                acc2: seq<string>, text2: seq<string>)
    requires forall r :: r in d1 <==> r in d2
    requires StrictlySorted(acc1) && Elems(acc1) == AccuracyKeySet(d1)
    requires StrictlySorted(text1) && Elems(text1) == TextKeySet(d1)
    requires StrictlySorted(acc2) && Elems(acc2) == AccuracyKeySet(d2)
    requires StrictlySorted(text2) && Elems(text2) == TextKeySet(d2)
    ensures acc1 == acc2 && text1 == text2
  {
    KeySetsDependOnlyOnRecords(d1, d2);
    StrictlySortedUnique(acc1, acc2);
    StrictlySortedUnique(text1, text2);
  }

  /** No records, no columns. */
  lemma NoRecordsNoKeys(acc: seq<string>, text: seq<string>)
    requires Elems(acc) == AccuracyKeySet([]) && Elems(text) == TextKeySet([])
    ensures acc == [] && text == []
  {
    ElemsEmptyIff(acc);
    ElemsEmptyIff(text);
  }

  // ---------------------------------------------------------------------
  // getMetricLabel / snakeToTitleCase
  // ---------------------------------------------------------------------

  /** `word.charAt(0).toUpperCase() + word.slice(1)`. */
  function Capitalize(word: string): string {
    if word == [] then [] else [UpperChar(word[0])] + word[1..]
  }

  function CapitalizeAll(words: seq<string>): (r: seq<string>)
    ensures |r| == |words|
    ensures forall i :: 0 <= i < |words| ==> r[i] == Capitalize(words[i])
  {
    if words == [] then [] else [Capitalize(words[0])] + CapitalizeAll(words[1..])
  }

  /** `str.split('_').map(capitalize).join(' ')`. */
  function GetMetricLabel(key: string): string {
    JoinWith(CapitalizeAll(SplitOn(key, '_')), " ")
  }

  /** Character `i` of the label of `key`, stated position by position. */
  function LabelChar(key: string, i: nat): char
    requires i < |key|
  {
    if key[i] == '_' then ' '
    else if i == 0 || key[i - 1] == '_' then UpperChar(key[i])
    else key[i]
  }

  lemma LabelOfPlainWord(key: string)
    requires '_' !in key
    ensures GetMetricLabel(key) == Capitalize(key)
  {
    SplitOnNoSep(key, '_');
    assert CapitalizeAll([key]) == [Capitalize(key)];
  }

  lemma LabelOfJoined(x: string, y: string)
    requires '_' !in x
    ensures GetMetricLabel(x + "_" + y) == Capitalize(x) + " " + GetMetricLabel(y)
  {
    SplitOnPrefix(x, '_', y);
    var rest := CapitalizeAll(SplitOn(y, '_'));
    assert CapitalizeAll(SplitOn(x + "_" + y, '_')) == [Capitalize(x)] + rest;
  }

  lemma LabelCharOfPlainWord(key: string)
    requires '_' !in key
    ensures forall i :: 0 <= i < |key| ==> Capitalize(key)[i] == LabelChar(key, i)
  {
  }

  lemma LabelCharOfJoined(x: string, y: string, i: nat)
    requires '_' !in x && i < |x + "_" + y|
    ensures i < |x| ==> LabelChar(x + "_" + y, i) == LabelChar(x, i)
    ensures i == |x| ==> LabelChar(x + "_" + y, i) == ' '
    ensures i > |x| ==> LabelChar(x + "_" + y, i) == LabelChar(y, i - |x| - 1)
  {
    var key := x + "_" + y;
    if i < |x| {
      assert key[i] == x[i];
      assert i > 0 ==> key[i - 1] == x[i - 1];
    } else if i > |x| {
      assert key[i] == y[i - |x| - 1];
      assert i - |x| - 1 > 0 ==> key[i - 1] == y[i - |x| - 2];
    }
  }

  /**
   * The label has the key's length; every `_` becomes a space, the first
   * character of every word is upper-cased and every other character is kept.
   */
  lemma {:induction false} MetricLabelByPosition(key: string)
    ensures |GetMetricLabel(key)| == |key|
    ensures forall i :: 0 <= i < |key| ==> GetMetricLabel(key)[i] == LabelChar(key, i)
    decreases |key|
  {
    if '_' !in key {
      LabelOfPlainWord(key);
      LabelCharOfPlainWord(key);
    } else {
      FirstUnderscoreExists(key);
      var k :| 0 <= k < |key| && key[k] == '_' && '_' !in key[..k];
      var x, y := key[..k], key[k + 1..];
      assert key == x + "_" + y;
      MetricLabelByPosition(y);
      LabelByPositionJoined(x, y);
    }
  }

  /** The step of the induction: a plain first word, an underscore, then a key whose label is known. */
  lemma LabelByPositionJoined(x: string, y: string)
    requires '_' !in x
    requires |GetMetricLabel(y)| == |y| && forall i :: 0 <= i < |y| ==> GetMetricLabel(y)[i] == LabelChar(y, i)
    ensures |GetMetricLabel(x + "_" + y)| == |x + "_" + y|
    ensures forall i :: 0 <= i < |x + "_" + y| ==> GetMetricLabel(x + "_" + y)[i] == LabelChar(x + "_" + y, i)
  {
    var key := x + "_" + y;
    var g := GetMetricLabel(y);
    LabelOfJoined(x, y);
    forall i | 0 <= i < |key| ensures (Capitalize(x) + " " + g)[i] == LabelChar(key, i) {
      JoinedLabelAt(x, y, g, i);
    }
  }

  lemma JoinedLabelAt(x: string, y: string, g: string, i: nat)
    requires '_' !in x && |g| == |y| && i < |x| + 1 + |y|
    requires i > |x| ==> g[i - |x| - 1] == LabelChar(y, i - |x| - 1)
    ensures (Capitalize(x) + " " + g)[i] == LabelChar(x + "_" + y, i)
  {
    LabelCharOfJoined(x, y, i);
    var c := Capitalize(x);
    assert |c| == |x|;
    if i < |x| {
      LabelCharOfPlainWord(x);
      assert (c + " " + g)[i] == c[i];
    } else if i == |x| {
      assert (c + " " + g)[i] == ' ';
    } else {
      assert (c + " " + g)[i] == g[i - |x| - 1];
    }
  }

  /** When `_` occurs in a key, it has a first occurrence. */
  lemma {:induction false} FirstUnderscoreExists(key: string)
    requires '_' in key
    ensures exists k :: 0 <= k < |key| && key[k] == '_' && '_' !in key[..k]
  {
    if key[0] == '_' {
      assert key[..0] == [];
    } else {
      FirstUnderscoreExists(key[1..]);
      var k :| 0 <= k < |key| - 1 && key[1..][k] == '_' && '_' !in key[1..][..k];
      assert key[..k + 1] == [key[0]] + key[1..][..k];
    }
  }
}
