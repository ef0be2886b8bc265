/**
 * ROUGE-N recall weighted by TF-IDF
 * (src/benchmark_framework/metrics/tfidf_rouge_n.py). Each reference token
 * gets the weight `tf * idf`, each n-gram the mean of its tokens' weights
 * relative to the largest one, and recall counts matched n-grams by weight.
 * The IDF tables built from the corpora are an input here: `lookup` maps a
 * legal code's abbreviation to its table.
 */
module TfidfRougeN {
  import opened Wrappers
  import opened BaseMetric
  import opened Fractions
  import RougeN

  type NGram = RougeN.NGram

  /** `self.idf_lookup`: code abbreviation to (token to IDF). */
  type IdfLookup = map<string, map<string, real>>

  /** The token-weight dictionary of one reference. */
  type TokenWeights = map<string, real>

  /** A bare `assert` that fails raises AssertionError without a message. */
  const AssertionFailed: string := "AssertionError"

  /** `max()` of an empty dictionary raises ValueError. */
  const EmptyMax: string := "max() arg is an empty sequence"

  function CodeMissing(codeAbbr: string): string {
    "Code abbreviation '" + codeAbbr + "' not found in IDF lookup"
  }

  function UnknownToken(token: string, codeAbbr: string): string {
    "Token '" + token + "' not found in " + codeAbbr + " IDF lookup"
  }

  // ---------------------------------------------------------------------
  // Token weights
  // ---------------------------------------------------------------------

  /** `ref_tokens.count(token) / len(ref_tokens)`. */
  function Tf(tokens: seq<string>, token: string): real
    requires token in tokens
  {
    multiset(tokens)[token] as real / |tokens| as real
  }

  /** `idf_dict.get(token, 0)`. */
  function Idf(idf: map<string, real>, token: string): real {
    if token in idf then idf[token] else 0.0
  }

  /** The weight `tf * idf` of a token of the reference. */
  function TfIdf(tokens: seq<string>, idf: map<string, real>, token: string): real
    requires token in tokens
  {
    Tf(tokens, token) * Idf(idf, token)
  }

  /** A token's term frequency is positive and at most 1. */
  lemma TfInUnit(tokens: seq<string>, token: string)
    requires token in tokens
    ensures 0.0 < Tf(tokens, token) <= 1.0
  {
    var c := multiset(tokens)[token];
    assert c <= |multiset(tokens)|;
    assert 0 < c;
    UnitQuotient(c as real, |tokens| as real);
    assert c as real / |tokens| as real > 0.0;
  }

  /** A token with a positive IDF has a positive weight; a token with a non-negative IDF a non-negative one. */
  lemma TfIdfSign(tokens: seq<string>, idf: map<string, real>, token: string)
    requires token in tokens
    ensures Idf(idf, token) > 0.0 ==> TfIdf(tokens, idf, token) > 0.0
    ensures Idf(idf, token) >= 0.0 ==> TfIdf(tokens, idf, token) >= 0.0
  {
    TfInUnit(tokens, token);
    PositiveProduct(Tf(tokens, token), Idf(idf, token));
  }

  lemma PositiveProduct(x: real, y: real)
    requires x > 0.0
    ensures y > 0.0 ==> x * y > 0.0
    ensures y >= 0.0 ==> x * y >= 0.0
  {
  }

  /**
   * What `get_tokens_tfidf` as written returns or raises. The set of
   * tokens is visited in no fixed order, but the outcome does not depend
   * on it: an empty token fails its assertion whenever it is reached.
   */
  function WeightsAsWritten(refTokens: seq<string>, lookup: IdfLookup, codeAbbr: string): Result<TokenWeights> {
    if codeAbbr !in lookup then Err(CodeMissing(codeAbbr))
    else if "" in refTokens then Err(AssertionFailed)
    else Ok(map t | t in refTokens :: TfIdf(refTokens, lookup[codeAbbr], t))
  }

  /**
   * `get_tokens_tfidf` as written: one entry per distinct reference token,
   * holding `tf * idf`, where a token missing from the IDF table counts
   * with IDF 0. An empty token fails its assertion; an unknown code fails
   * the lookup assertion.
   */
  method TokensTfidf(refTokens: seq<string>, lookup: IdfLookup, codeAbbr: string) returns (r: Result<TokenWeights>)
    ensures r == WeightsAsWritten(refTokens, lookup, codeAbbr)
    ensures codeAbbr !in lookup ==> r == Err(CodeMissing(codeAbbr))
    ensures codeAbbr in lookup && "" in refTokens ==> r == Err(AssertionFailed)
    ensures r.Ok? <==> codeAbbr in lookup && "" !in refTokens
    ensures r.Ok? ==> r.value.Keys == set t | t in refTokens
    ensures r.Ok? ==> forall t :: t in r.value ==> t in refTokens && r.value[t] == TfIdf(refTokens, lookup[codeAbbr], t)
  {
    if codeAbbr !in lookup {
      return Err(CodeMissing(codeAbbr));
    }
    var idf := lookup[codeAbbr];
    var weights: TokenWeights := map[];
    var pending := set t | t in refTokens;
    while pending != {}
      invariant pending <= set t | t in refTokens
      invariant forall t :: t in refTokens && t !in pending ==> t != ""
      invariant weights.Keys == (set t | t in refTokens) - pending
      invariant forall t :: t in weights ==> t in refTokens && weights[t] == TfIdf(refTokens, idf, t)
      decreases pending
    {
      var token :| token in pending;
      if |token| == 0 {
        return Err(AssertionFailed);
      }
      weights := weights[token := TfIdf(refTokens, idf, token)];
      pending := pending - {token};
    }
    r := Ok(weights);
    assert weights == WeightsAsWritten(refTokens, lookup, codeAbbr).value;
  }

  /** As written, a reference token the IDF table does not know gets weight 0 instead of an error. */
  lemma UnknownTokenWeighsZero(refTokens: seq<string>, idf: map<string, real>, token: string)
    requires token in refTokens && token !in idf
    ensures TfIdf(refTokens, idf, token) == 0.0
  {
  }

  /**
   * Where `get_tokens_tfidf` with the IDF check its tests describe stops:
   * the index of the first reference token that is empty or unknown to the
   * table, or `|tokens|` when there is none.
   */
  function FirstBadToken(tokens: seq<string>, idf: map<string, real>): (i: nat)
    ensures i <= |tokens|
    ensures forall j :: 0 <= j < i ==> tokens[j] != "" && tokens[j] in idf
    ensures i < |tokens| ==> tokens[i] == "" || tokens[i] !in idf
  {
    if tokens == [] then 0
    else if tokens[0] == "" || tokens[0] !in idf then 0
    else 1 + FirstBadToken(tokens[1..], idf)
  }

  /** The first bad token is the one every token before it is good. */
  lemma FirstBadTokenAt(tokens: seq<string>, idf: map<string, real>, i: nat)
    requires i < |tokens| && (tokens[i] == "" || tokens[i] !in idf)
    requires forall j :: 0 <= j < i ==> tokens[j] != "" && tokens[j] in idf
    ensures FirstBadToken(tokens, idf) == i
    ensures tokens[i] in tokens
  {
  }

  /**
   * What `get_tokens_tfidf` corrected returns or raises: the reference
   * tokens are checked in order, an empty one fails the assertion and one
   * missing from the IDF table raises ValueError naming it; otherwise there
   * is one entry per distinct token holding `tf * idf`, none of them from a
   * defaulted IDF.
   */
  ghost function TokenWeightsOf(refTokens: seq<string>, lookup: IdfLookup, codeAbbr: string): (r: Result<TokenWeights>)
    ensures codeAbbr !in lookup ==> r == Err(CodeMissing(codeAbbr))
    ensures r.Ok? <==> codeAbbr in lookup && forall t :: t in refTokens ==> t != "" && t in lookup[codeAbbr]
    ensures r.Err? && codeAbbr in lookup ==>
      var i := FirstBadToken(refTokens, lookup[codeAbbr]);
      i < |refTokens| &&
      r.error == (if refTokens[i] == "" then AssertionFailed else UnknownToken(refTokens[i], codeAbbr))
    ensures r.Ok? ==> r.value.Keys == set t | t in refTokens
    ensures r.Ok? ==> forall t :: t in r.value ==> t in refTokens && r.value[t] == TfIdf(refTokens, lookup[codeAbbr], t)
  {
    if codeAbbr !in lookup then Err(CodeMissing(codeAbbr))
    else
      var idf := lookup[codeAbbr];
      var i := FirstBadToken(refTokens, idf);
      if i < |refTokens| then
        assert refTokens[i] in refTokens;
        Err(if refTokens[i] == "" then AssertionFailed else UnknownToken(refTokens[i], codeAbbr))
      else
        assert forall t :: t in refTokens ==> t != "" && t in idf by {
          forall t | t in refTokens ensures t != "" && t in idf {
            var j :| 0 <= j < |refTokens| && refTokens[j] == t;
          }
        }
        Ok(map t | t in refTokens :: TfIdf(refTokens, idf, t))
  }

  /** `get_tokens_tfidf` corrected, token by token. */
  method TokensTfidfChecked(refTokens: seq<string>, lookup: IdfLookup, codeAbbr: string) returns (r: Result<TokenWeights>)
    ensures r == TokenWeightsOf(refTokens, lookup, codeAbbr)
  {
    if codeAbbr !in lookup {
      return Err(CodeMissing(codeAbbr));
    }
    var idf := lookup[codeAbbr];
    var weights: TokenWeights := map[];
    var i := 0;
    while i < |refTokens|
      invariant 0 <= i <= |refTokens|
      invariant forall j :: 0 <= j < i ==> refTokens[j] != "" && refTokens[j] in idf
      invariant weights.Keys == set t | t in refTokens[..i]
      invariant forall t :: t in weights ==> t in refTokens && weights[t] == TfIdf(refTokens, idf, t)
    {
      var token := refTokens[i];
      if |token| == 0 || token !in idf {
        FirstBadTokenAt(refTokens, idf, i);
        if |token| == 0 {
          return Err(AssertionFailed);
        }
        return Err(UnknownToken(token, codeAbbr));
      }
      weights := weights[token := TfIdf(refTokens, idf, token)];
      assert refTokens[..i + 1] == refTokens[..i] + [token];
      i := i + 1;
    }
    assert refTokens[..i] == refTokens;
    r := Ok(weights);
    assert r.value == TokenWeightsOf(refTokens, lookup, codeAbbr).value;
  }

  /**
   * The correction only turns unknown tokens into errors: wherever the
   * corrected weights exist they are the weights as written, and a
   * reference with an unknown (non-empty) token, which the corrected
   * version rejects, is weighed as written.
   */
  lemma CheckedAgreesWithAsWritten(refTokens: seq<string>, lookup: IdfLookup, codeAbbr: string)
    ensures TokenWeightsOf(refTokens, lookup, codeAbbr).Ok? ==>
              WeightsAsWritten(refTokens, lookup, codeAbbr) == TokenWeightsOf(refTokens, lookup, codeAbbr)
    ensures codeAbbr in lookup && "" !in refTokens && (exists t :: t in refTokens && t !in lookup[codeAbbr]) ==>
              WeightsAsWritten(refTokens, lookup, codeAbbr).Ok? && TokenWeightsOf(refTokens, lookup, codeAbbr).Err?
  {
    if TokenWeightsOf(refTokens, lookup, codeAbbr).Ok? {
      var w := TokenWeightsOf(refTokens, lookup, codeAbbr).value;
      assert "" !in refTokens;
      assert w == WeightsAsWritten(refTokens, lookup, codeAbbr).value;
    }
  }

  /** An IDF table as `build_idf_lookup` makes: `log(N / (df + 1)) + 1` is positive for every token. */
  ghost predicate PositiveTable(lookup: IdfLookup, codeAbbr: string) {
    codeAbbr in lookup && forall t :: t in lookup[codeAbbr] ==> lookup[codeAbbr][t] > 0.0
  }

  /** Against a positive table, the checked weights of a reference whose tokens are all known are positive. */
  lemma CheckedWeightsPositive(refTokens: seq<string>, lookup: IdfLookup, codeAbbr: string)
    requires PositiveTable(lookup, codeAbbr)
    requires forall t :: t in refTokens ==> t != "" && t in lookup[codeAbbr]
    ensures TokenWeightsOf(refTokens, lookup, codeAbbr).Ok?
    ensures Positive(TokenWeightsOf(refTokens, lookup, codeAbbr).value)
    ensures refTokens != [] ==> TokenWeightsOf(refTokens, lookup, codeAbbr).value != map[]
  {
    var w := TokenWeightsOf(refTokens, lookup, codeAbbr).value;
    forall t | t in w ensures w[t] > 0.0 {
      TfIdfSign(refTokens, lookup[codeAbbr], t);
    }
    if refTokens != [] {
      assert refTokens[0] in w;
    }
  }

  /**
   * Of two reference tokens with the same IDF, the more frequent weighs
   * more; of two equally frequent tokens, the one with the larger IDF.
   */
  lemma TfIdfOrder(refTokens: seq<string>, idf: map<string, real>, a: string, b: string)
    requires a in refTokens && b in refTokens
    ensures Idf(idf, a) == Idf(idf, b) > 0.0 && multiset(refTokens)[a] > multiset(refTokens)[b] ==>
      TfIdf(refTokens, idf, a) > TfIdf(refTokens, idf, b)
    ensures multiset(refTokens)[a] == multiset(refTokens)[b] && Idf(idf, a) > Idf(idf, b) ==>
      TfIdf(refTokens, idf, a) > TfIdf(refTokens, idf, b)
  {
    TfInUnit(refTokens, a);
    TfInUnit(refTokens, b);
    if Idf(idf, a) == Idf(idf, b) > 0.0 && multiset(refTokens)[a] > multiset(refTokens)[b] {
      QuotientOrder(multiset(refTokens)[a] as real, multiset(refTokens)[b] as real, |refTokens| as real);
      assert Tf(refTokens, a) > Tf(refTokens, b);
      ProductOrder(Idf(idf, a), Tf(refTokens, a), Tf(refTokens, b));
    }
    if Idf(idf, a) > Idf(idf, b) {
      ProductOrder(Tf(refTokens, a), Idf(idf, a), Idf(idf, b));
    }
  }

  lemma QuotientOrder(x: real, y: real, n: real)
    requires n > 0.0 && x > y
    ensures x / n > y / n
  {
    assert (x - y) / n > 0.0;
    assert x / n - y / n == (x - y) / n;
  }

  lemma ProductOrder(c: real, x: real, y: real)
    requires c > 0.0 && x > y
    ensures x * c > y * c && c * x > c * y
  {
  }

  // ---------------------------------------------------------------------
  // N-gram weights
  // ---------------------------------------------------------------------

  /** `m` is `max(token_weights.values())`. */
  ghost predicate IsMaxWeight(weights: TokenWeights, m: real) {
    (exists t :: t in weights && weights[t] == m) && forall t :: t in weights ==> weights[t] <= m
  }

  /** A dictionary has at most one largest value. */
  lemma MaxWeightUnique(weights: TokenWeights, m: real, m': real)
    requires IsMaxWeight(weights, m) && IsMaxWeight(weights, m')
    ensures m == m'
  {
    var t :| t in weights && weights[t] == m;
    var t' :| t' in weights && weights[t'] == m';
  }

  /** The largest token weight of a non-empty dictionary. */
  ghost function MaxWeight(weights: TokenWeights): (m: real)
    requires weights != map[]
    ensures IsMaxWeight(weights, m)
    decreases |weights.Keys|
  {
    var t :| t in weights;
    var rest := weights - {t};
    assert forall u :: u in weights ==> u == t || u in rest;
    if rest == map[] then
      weights[t]
    else
      assert rest.Keys == weights.Keys - {t};
      var m := MaxWeight(rest);
      if weights[t] > m then weights[t] else m
  }

  /** `max(token_weights.values())`, one entry at a time. */
  method FindMaxWeight(weights: TokenWeights) returns (m: real)
    requires weights != map[]
    ensures m == MaxWeight(weights)
  {
    var first :| first in weights;
    m := weights[first];
    var pending := weights.Keys - {first};
    while pending != {}
      invariant pending <= weights.Keys && first !in pending
      invariant exists t :: t in weights && t !in pending && weights[t] == m
      invariant forall t :: t in weights && t !in pending ==> weights[t] <= m
      decreases pending
    {
      var t :| t in pending;
      if weights[t] > m {
        m := weights[t];
      }
      pending := pending - {t};
    }
    MaxWeightUnique(weights, m, MaxWeight(weights));
  }

  /** `token_weights.get(token, 0.0)`. */
  function WeightOf(weights: TokenWeights, token: string): real {
    if token in weights then weights[token] else 0.0
  }

  /** The sum of `weight / max_weight` over the tokens of the n-gram. */
  function ScaledSum(ngram: NGram, weights: TokenWeights, maxWeight: real): real
    requires maxWeight > 0.0
    decreases |ngram|
  {
    if ngram == [] then 0.0
    else ScaledSum(ngram[..|ngram| - 1], weights, maxWeight) + WeightOf(weights, ngram[|ngram| - 1]) / maxWeight
  }

  /** What `get_ngram_weight` returns or raises. */
  ghost function NgramWeightOf(ngram: NGram, weights: TokenWeights): Result<real> {
    if weights == map[] then Err(EmptyMax)
    else if MaxWeight(weights) <= 0.0 then Err(AssertionFailed)
    else if |ngram| == 0 then Err(AssertionFailed)
    else
      var w := ScaledSum(ngram, weights, MaxWeight(weights)) / |ngram| as real;
      if 0.0 <= w <= 1.0 then Ok(w) else Err(AssertionFailed)
  }

  /** `get_ngram_weight`: the mean over the n-gram's tokens of their weight relative to the largest. */
  method NgramWeight(ngram: NGram, weights: TokenWeights) returns (r: Result<real>)
    ensures r == NgramWeightOf(ngram, weights)
  {
    if weights == map[] {
      return Err(EmptyMax);
    }
    var maxWeight := FindMaxWeight(weights);
    if !(maxWeight > 0.0) {
      return Err(AssertionFailed);
    }
    var weight := 0.0;
    var i := 0;
    while i < |ngram|
      invariant 0 <= i <= |ngram|
      invariant weight == ScaledSum(ngram[..i], weights, maxWeight)
    {
      assert ngram[..i + 1][..i] == ngram[..i];
      weight := weight + WeightOf(weights, ngram[i]) / maxWeight;
      i := i + 1;
    }
    assert ngram[..i] == ngram;
    if |ngram| == 0 {
      return Err(AssertionFailed);
    }
    var ngramWeight := weight / |ngram| as real;
    if !(0.0 <= ngramWeight <= 1.0) {
      return Err(AssertionFailed);
    }
    return Ok(ngramWeight);
  }

  // ---------------------------------------------------------------------
  // Facts about n-gram weights
  // ---------------------------------------------------------------------

  ghost predicate NonNegative(weights: TokenWeights) {
    forall t :: t in weights ==> weights[t] >= 0.0
  }

  ghost predicate Positive(weights: TokenWeights) {
    forall t :: t in weights ==> weights[t] > 0.0
  }

  /** The error `get_ngram_weight` raises, the same for every n-gram: `max()` of nothing, or a failed assertion. */
  function GramError(weights: TokenWeights): string {
    if weights == map[] then EmptyMax else AssertionFailed
  }

  lemma NgramWeightError(ngram: NGram, weights: TokenWeights)
    ensures NgramWeightOf(ngram, weights).Err? ==> NgramWeightOf(ngram, weights).error == GramError(weights)
  {
  }

  lemma {:induction false} ScaledSumBounds(ngram: NGram, weights: TokenWeights, m: real)
    requires m > 0.0 && forall t :: t in weights ==> 0.0 <= weights[t] <= m
    ensures 0.0 <= ScaledSum(ngram, weights, m) <= |ngram| as real
    decreases |ngram|
  {
    if ngram != [] {
      ScaledSumBounds(ngram[..|ngram| - 1], weights, m);
      UnitQuotient(WeightOf(weights, ngram[|ngram| - 1]), m);
    }
  }

  /**
   * With non-negative token weights, `get_ngram_weight` succeeds exactly
   * when there is a weight, the largest is positive and the n-gram is not
   * empty; its range assertion never fails and the weight lies in [0, 1].
   */
  lemma NgramWeightInUnit(ngram: NGram, weights: TokenWeights)
    requires NonNegative(weights)
    ensures NgramWeightOf(ngram, weights).Ok? <==> weights != map[] && MaxWeight(weights) > 0.0 && ngram != []
    ensures NgramWeightOf(ngram, weights).Ok? ==> 0.0 <= NgramWeightOf(ngram, weights).value <= 1.0
  {
    if weights != map[] && MaxWeight(weights) > 0.0 && ngram != [] {
      var m := MaxWeight(weights);
      ScaledSumBounds(ngram, weights, m);
      UnitQuotient(ScaledSum(ngram, weights, m), |ngram| as real);
    }
  }

  lemma {:induction false} ScaledSumOfMaxTokens(ngram: NGram, weights: TokenWeights, m: real)
    requires m > 0.0 && forall i :: 0 <= i < |ngram| ==> ngram[i] in weights && weights[ngram[i]] == m
    ensures ScaledSum(ngram, weights, m) == |ngram| as real
    decreases |ngram|
  {
    if ngram != [] {
      ScaledSumOfMaxTokens(ngram[..|ngram| - 1], weights, m);
      assert m / m == 1.0;
    }
  }

  /** An n-gram made only of tokens of the largest weight weighs 1, whatever its length. */
  lemma NgramWeightOfMaxTokens(ngram: NGram, weights: TokenWeights)
    requires weights != map[] && MaxWeight(weights) > 0.0 && ngram != []
    requires forall i :: 0 <= i < |ngram| ==> ngram[i] in weights && weights[ngram[i]] == MaxWeight(weights)
    ensures NgramWeightOf(ngram, weights) == Ok(1.0)
  {
    ScaledSumOfMaxTokens(ngram, weights, MaxWeight(weights));
    assert |ngram| as real / |ngram| as real == 1.0;
  }

  lemma {:induction false} ScaledSumOfUnknownTokens(ngram: NGram, weights: TokenWeights, m: real)
    requires m > 0.0 && forall i :: 0 <= i < |ngram| ==> ngram[i] !in weights
    ensures ScaledSum(ngram, weights, m) == 0.0
    decreases |ngram|
  {
    if ngram != [] {
      ScaledSumOfUnknownTokens(ngram[..|ngram| - 1], weights, m);
    }
  }

  /** Tokens missing from the weights count 0: an n-gram of only such tokens weighs 0. */
  lemma NgramWeightOfUnknownTokens(ngram: NGram, weights: TokenWeights)
    requires weights != map[] && MaxWeight(weights) > 0.0 && ngram != []
    requires forall i :: 0 <= i < |ngram| ==> ngram[i] !in weights
    ensures NgramWeightOf(ngram, weights) == Ok(0.0)
  {
    ScaledSumOfUnknownTokens(ngram, weights, MaxWeight(weights));
  }

  /** A unigram weighs its token's weight relative to the largest (half the largest weighs 0.5). */
  lemma NgramWeightOfToken(token: string, weights: TokenWeights)
    requires NonNegative(weights) && weights != map[] && MaxWeight(weights) > 0.0
    ensures NgramWeightOf([token], weights).Ok?
    ensures NgramWeightOf([token], weights).value == WeightOf(weights, token) / MaxWeight(weights)
  {
    var m := MaxWeight(weights);
    assert [token][..0] == [];
    assert ScaledSum([token], weights, m) == WeightOf(weights, token) / m;
    NgramWeightInUnit([token], weights);
  }

  /** One token of positive weight among non-negative ones makes the scaled sum positive. */
  lemma {:induction false} ScaledSumOfPositiveToken(ngram: NGram, weights: TokenWeights, m: real, j: nat)
    requires m > 0.0 && NonNegative(weights) && j < |ngram| && WeightOf(weights, ngram[j]) > 0.0
    ensures ScaledSum(ngram, weights, m) > 0.0
    decreases |ngram|
  {
    var last := ngram[|ngram| - 1];
    var init := ngram[..|ngram| - 1];
    ScaledSumNonNegative(init, weights, m);
    if j < |ngram| - 1 {
      assert init[j] == ngram[j];
      ScaledSumOfPositiveToken(init, weights, m, j);
      assert WeightOf(weights, last) / m >= 0.0;
    } else {
      assert WeightOf(weights, last) / m > 0.0;
    }
  }

  lemma {:induction false} ScaledSumNonNegative(ngram: NGram, weights: TokenWeights, m: real)
    requires m > 0.0 && NonNegative(weights)
    ensures ScaledSum(ngram, weights, m) >= 0.0
    decreases |ngram|
  {
    if ngram != [] {
      ScaledSumNonNegative(ngram[..|ngram| - 1], weights, m);
      assert WeightOf(weights, ngram[|ngram| - 1]) / m >= 0.0;
    }
  }

  lemma {:induction false} ScaledSumPositive(ngram: NGram, weights: TokenWeights, m: real)
    requires m > 0.0 && Positive(weights) && ngram != []
    requires forall i :: 0 <= i < |ngram| ==> ngram[i] in weights
    ensures ScaledSum(ngram, weights, m) > 0.0
    decreases |ngram|
  {
    var last := ngram[|ngram| - 1];
    assert weights[last] / m > 0.0;
    if |ngram| > 1 {
      ScaledSumPositive(ngram[..|ngram| - 1], weights, m);
    } else {
      assert ngram[..0] == [];
    }
    assert ScaledSum(ngram, weights, m) == ScaledSum(ngram[..|ngram| - 1], weights, m) + weights[last] / m;
  }

  /** With positive token weights, an n-gram of weighted tokens has a positive weight. */
  lemma NgramWeightPositive(ngram: NGram, weights: TokenWeights)
    requires Positive(weights) && weights != map[] && ngram != []
    requires forall i :: 0 <= i < |ngram| ==> ngram[i] in weights
    ensures NgramWeightOf(ngram, weights).Ok? && NgramWeightOf(ngram, weights).value > 0.0
  {
    var t :| t in weights;
    var m := MaxWeight(weights);
    assert m >= weights[t] > 0.0;
    NgramWeightInUnit(ngram, weights);
    ScaledSumPositive(ngram, weights, m);
    var s := ScaledSum(ngram, weights, m);
    assert s / |ngram| as real > 0.0;
  }

  // ---------------------------------------------------------------------
  // Recall
  // ---------------------------------------------------------------------

  /** `min(count, pred_ngrams_counts.get(ngram, 0))`. */
  function Clipped(pred: multiset<NGram>, ref: multiset<NGram>, g: NGram): nat {
    if ref[g] <= pred[g] then ref[g] else pred[g]
  }

  /** The distinct n-grams of a Counter, its keys. */
  function GramSet(m: multiset<NGram>): set<NGram> {
    set g | g in m
  }

  /** Every n-gram of the reference has a weight. */
  ghost predicate AllWeighted(grams: set<NGram>, weights: TokenWeights) {
    forall g :: g in grams ==> NgramWeightOf(g, weights).Ok?
  }

  /** What one n-gram of the reference adds to the nominator and to the denominator. */
  ghost function Terms(pred: multiset<NGram>, ref: multiset<NGram>, weights: TokenWeights, g: NGram): (real, real)
    requires NgramWeightOf(g, weights).Ok?
  {
    var w := NgramWeightOf(g, weights).value;
    (Clipped(pred, ref, g) as real * w, ref[g] as real * w)
  }

  lemma TermsOf(pred: multiset<NGram>, ref: multiset<NGram>, weights: TokenWeights, g: NGram, w: real)
    requires NgramWeightOf(g, weights) == Ok(w)
    ensures Terms(pred, ref, weights, g) == (Clipped(pred, ref, g) as real * w, ref[g] as real * w)
  {
    assert NgramWeightOf(g, weights).value == w;
    assert Terms(pred, ref, weights, g).0 == Clipped(pred, ref, g) as real * w;
    assert Terms(pred, ref, weights, g).1 == ref[g] as real * w;
  }

  function Plus(a: (real, real), b: (real, real)): (real, real) {
    (a.0 + b.0, a.1 + b.1)
  }

  ghost function Pick(grams: set<NGram>): (g: NGram)
    requires grams != {}
    ensures g in grams
  {
    var g :| g in grams; g
  }

  /** The nominator and the denominator summed over `grams`, in no particular order. */
  ghost function Sums(grams: set<NGram>, pred: multiset<NGram>, ref: multiset<NGram>, weights: TokenWeights): (real, real)
    requires AllWeighted(grams, weights)
    decreases grams
  {
    if grams == {} then (0.0, 0.0)
    else
      var g := Pick(grams);
      Plus(Sums(grams - {g}, pred, ref, weights), Terms(pred, ref, weights, g))
  }

  /** The sums do not depend on the order of the dictionary: any n-gram can be taken out first. */
  lemma {:induction false} SumsRemove(grams: set<NGram>, pred: multiset<NGram>, ref: multiset<NGram>, weights: TokenWeights, g: NGram)
    requires AllWeighted(grams, weights) && g in grams
    ensures Sums(grams, pred, ref, weights) == Plus(Sums(grams - {g}, pred, ref, weights), Terms(pred, ref, weights, g))
    decreases grams
  {
    var h := Pick(grams);
    if h != g {
      SumsRemove(grams - {h}, pred, ref, weights, g);
      SumsRemove(grams - {g}, pred, ref, weights, h);
      assert grams - {h} - {g} == grams - {g} - {h};
    }
  }

  /** What `calculate_recall` returns or raises once the n-grams and the token weights are known. */
  ghost function RecallFromGrams(pred: multiset<NGram>, ref: multiset<NGram>, weights: TokenWeights): Result<real> {
    var grams := GramSet(ref);
    if !AllWeighted(grams, weights) then Err(GramError(weights))
    else
      CheckedRecall(Sums(grams, pred, ref, weights))
  }

  /** `nominator / denominator if denominator > 0 else 0.0`, then the range assertion. */
  function CheckedRecall(sums: (real, real)): Result<real> {
    var recall := if sums.1 > 0.0 then sums.0 / sums.1 else 0.0;
    if 0.0 <= recall <= 1.0 then Ok(recall) else Err(AssertionFailed)
  }

  /** The loop of `calculate_recall` over the reference n-grams. */
  method GramRecall(pred: multiset<NGram>, ref: multiset<NGram>, weights: TokenWeights) returns (r: Result<real>)
    ensures r == RecallFromGrams(pred, ref, weights)
  {
    var nominator, denominator := 0.0, 0.0;
    ghost var grams := GramSet(ref);
    var pending := GramSet(ref);
    ghost var done: set<NGram> := {};
    while pending != {}
      invariant pending + done == grams && pending !! done
      invariant AllWeighted(done, weights)
      invariant (nominator, denominator) == Sums(done, pred, ref, weights)
      decreases pending
    {
      var g :| g in pending;
      var w := NgramWeight(g, weights);
      if w.Err? {
        NgramWeightError(g, weights);
        return Err(w.error);
      }
      ghost var before := (nominator, denominator);
      TermsOf(pred, ref, weights, g, w.value);
      nominator := nominator + Clipped(pred, ref, g) as real * w.value;
      denominator := denominator + ref[g] as real * w.value;
      assert nominator == before.0 + Terms(pred, ref, weights, g).0;
      assert denominator == before.1 + Terms(pred, ref, weights, g).1;
      assert (nominator, denominator) == Plus(before, Terms(pred, ref, weights, g));
      SumsRemove(done + {g}, pred, ref, weights, g);
      assert (done + {g}) - {g} == done;
      done := done + {g};
      pending := pending - {g};
    }
    assert done == grams;
    r := CheckedRecall((nominator, denominator));
  }

  /** What `calculate_recall` returns or raises for the token lists of the two texts. */
  ghost function RecallOf(predTokens: seq<string>, refTokens: seq<string>, n: int, lookup: IdfLookup, codeAbbr: string): Result<real> {
    var predGrams := RougeN.GetNGrams(predTokens, n);
    var refGrams := RougeN.GetNGrams(refTokens, n);
    if predGrams.Err? then Err(predGrams.error)
    else if refGrams.Err? then Err(refGrams.error)
    else
      var weights := WeightsAsWritten(refTokens, lookup, codeAbbr);
      if weights.Err? then Err(weights.error)
      else RecallFromGrams(predGrams.value, refGrams.value, weights.value)
  }

  /** `calculate_recall`: TF-IDF weighted ROUGE-N recall of the prediction against the reference. */
  method CalculateRecall(prediction: string, reference: string, n: int, lookup: IdfLookup, codeAbbr: string)
    returns (r: Result<real>)
    ensures r == RecallOf(NormalizedWords(prediction), NormalizedWords(reference), n, lookup, codeAbbr)
  {
    r := TokenRecall(NormalizedWords(prediction), NormalizedWords(reference), n, lookup, codeAbbr);
  }

  /** `calculate_recall` once both texts are normalised. */
  method TokenRecall(predTokens: seq<string>, refTokens: seq<string>, n: int, lookup: IdfLookup, codeAbbr: string)
    returns (r: Result<real>)
    ensures r == RecallOf(predTokens, refTokens, n, lookup, codeAbbr)
  {
    var predGrams := RougeN.GetNGrams(predTokens, n);
    if predGrams.Err? {
      return Err(predGrams.error);
    }
    var refGrams := RougeN.GetNGrams(refTokens, n);
    if refGrams.Err? {
      return Err(refGrams.error);
    }
    var weights := TokensTfidf(refTokens, lookup, codeAbbr);
    if weights.Err? {
      return Err(weights.error);
    }
    r := GramRecall(predGrams.value, refGrams.value, weights.value);
  }

  // ---------------------------------------------------------------------
  // Facts about recall
  // ---------------------------------------------------------------------

  lemma CountTermOrder(c: nat, d: nat, w: real)
    requires c <= d && w >= 0.0
    ensures 0.0 <= c as real * w <= d as real * w
  {
  }

  lemma CountTermPositive(d: nat, w: real)
    requires d > 0 && w > 0.0
    ensures d as real * w > 0.0
  {
  }

  /** With non-negative weights, an n-gram adds no more to the nominator than to the denominator. */
  lemma TermsBounds(pred: multiset<NGram>, ref: multiset<NGram>, weights: TokenWeights, g: NGram)
    requires NonNegative(weights) && NgramWeightOf(g, weights).Ok?
    ensures 0.0 <= Terms(pred, ref, weights, g).0 <= Terms(pred, ref, weights, g).1
  {
    NgramWeightInUnit(g, weights);
    var w := NgramWeightOf(g, weights).value;
    TermsOf(pred, ref, weights, g, w);
    CountTermOrder(Clipped(pred, ref, g), ref[g], w);
  }

  lemma {:induction false} SumsBounds(grams: set<NGram>, pred: multiset<NGram>, ref: multiset<NGram>, weights: TokenWeights)
    requires NonNegative(weights) && AllWeighted(grams, weights)
    ensures 0.0 <= Sums(grams, pred, ref, weights).0 <= Sums(grams, pred, ref, weights).1
    decreases grams
  {
    if grams != {} {
      var g := Pick(grams);
      SumsBounds(grams - {g}, pred, ref, weights);
      TermsBounds(pred, ref, weights, g);
    }
  }

  lemma TermsOfCovered(pred: multiset<NGram>, ref: multiset<NGram>, weights: TokenWeights, g: NGram)
    requires NgramWeightOf(g, weights).Ok? && ref[g] <= pred[g]
    ensures Terms(pred, ref, weights, g).0 == Terms(pred, ref, weights, g).1
  {
    assert Clipped(pred, ref, g) == ref[g];
    TermsOf(pred, ref, weights, g, NgramWeightOf(g, weights).value);
  }

  lemma TermsOfDisjoint(pred: multiset<NGram>, ref: multiset<NGram>, weights: TokenWeights, g: NGram)
    requires NgramWeightOf(g, weights).Ok? && pred[g] == 0
    ensures Terms(pred, ref, weights, g).0 == 0.0
  {
    assert Clipped(pred, ref, g) == 0;
    TermsOf(pred, ref, weights, g, NgramWeightOf(g, weights).value);
  }

  /** Where the prediction has each n-gram at least as often as the reference, nominator and denominator agree. */
  lemma {:induction false} SumsOfCovered(grams: set<NGram>, pred: multiset<NGram>, ref: multiset<NGram>, weights: TokenWeights)
    requires AllWeighted(grams, weights) && forall g :: g in grams ==> ref[g] <= pred[g]
    ensures Sums(grams, pred, ref, weights).0 == Sums(grams, pred, ref, weights).1
    decreases grams
  {
    if grams != {} {
      var g := Pick(grams);
      SumsOfCovered(grams - {g}, pred, ref, weights);
      TermsOfCovered(pred, ref, weights, g);
    }
  }

  /** Where the prediction has none of the n-grams, the nominator is 0. */
  lemma {:induction false} SumsOfDisjoint(grams: set<NGram>, pred: multiset<NGram>, ref: multiset<NGram>, weights: TokenWeights)
    requires AllWeighted(grams, weights) && forall g :: g in grams ==> pred[g] == 0
    ensures Sums(grams, pred, ref, weights).0 == 0.0
    decreases grams
  {
    if grams != {} {
      var g := Pick(grams);
      SumsOfDisjoint(grams - {g}, pred, ref, weights);
      TermsOfDisjoint(pred, ref, weights, g);
    }
  }

  /** One reference n-gram of positive weight among non-negative ones makes the denominator positive. */
  lemma SumsOfPositiveGram(grams: set<NGram>, pred: multiset<NGram>, ref: multiset<NGram>, weights: TokenWeights, g: NGram)
    requires NonNegative(weights) && AllWeighted(grams, weights)
    requires g in grams && ref[g] > 0 && NgramWeightOf(g, weights).value > 0.0
    ensures Sums(grams, pred, ref, weights).1 > 0.0
  {
    SumsRemove(grams, pred, ref, weights, g);
    SumsBounds(grams - {g}, pred, ref, weights);
    var w := NgramWeightOf(g, weights).value;
    TermsOf(pred, ref, weights, g, w);
    CountTermPositive(ref[g], w);
  }

  /** Over reference n-grams of positive weight, the denominator is positive as soon as there is one. */
  lemma {:induction false} SumsPositive(grams: set<NGram>, pred: multiset<NGram>, ref: multiset<NGram>, weights: TokenWeights)
    requires AllWeighted(grams, weights)
    requires forall g :: g in grams ==> ref[g] > 0 && NgramWeightOf(g, weights).value > 0.0
    ensures Sums(grams, pred, ref, weights).1 >= 0.0
    ensures grams != {} ==> Sums(grams, pred, ref, weights).1 > 0.0
    decreases grams
  {
    if grams != {} {
      var g := Pick(grams);
      SumsPositive(grams - {g}, pred, ref, weights);
      var w := NgramWeightOf(g, weights).value;
      TermsOf(pred, ref, weights, g, w);
      CountTermPositive(ref[g], w);
    }
  }

  /**
   * With non-negative token weights, once every reference n-gram has a
   * weight the recall exists, lies in [0, 1] and never fails its range
   * assertion.
   */
  lemma RecallFromGramsInUnit(pred: multiset<NGram>, ref: multiset<NGram>, weights: TokenWeights)
    requires NonNegative(weights) && AllWeighted(GramSet(ref), weights)
    ensures RecallFromGrams(pred, ref, weights).Ok?
    ensures 0.0 <= RecallFromGrams(pred, ref, weights).value <= 1.0
  {
    var sums := Sums(GramSet(ref), pred, ref, weights);
    SumsBounds(GramSet(ref), pred, ref, weights);
    if sums.1 > 0.0 {
      UnitQuotient(sums.0, sums.1);
    }
  }

  /** The tokens of an n-gram of the reference occur in the reference. */
  lemma GramTokensInReference(tokens: seq<string>, n: nat, g: NGram, k: int)
    requires g in RougeN.NGrams(tokens, n) && 0 <= k < |g|
    ensures g[k] in tokens
  {
    RougeN.NGramsMembers(tokens, n, g);
    var i: nat :| i + n <= |tokens| && RougeN.Window(tokens, i, n) == g;
    assert g[k] == tokens[i + k];
  }

  /**
   * With the positive weights of every token of the reference, every
   * n-gram of the reference (n from 1) has a weight, and a positive one.
   */
  lemma GramsWeighted(refTokens: seq<string>, n: nat, weights: TokenWeights)
    requires n >= 1 && Positive(weights) && weights.Keys == set t | t in refTokens
    ensures AllWeighted(GramSet(RougeN.NGrams(refTokens, n)), weights)
    ensures forall g :: g in RougeN.NGrams(refTokens, n) ==> NgramWeightOf(g, weights).value > 0.0
  {
    forall g | g in RougeN.NGrams(refTokens, n)
      ensures NgramWeightOf(g, weights).Ok? && NgramWeightOf(g, weights).value > 0.0
    {
      RougeN.NGramsMembers(refTokens, n, g);
      assert g != [] && g[0] in refTokens by {
        GramTokensInReference(refTokens, n, g, 0);
      }
      assert g[0] in weights;
      forall k | 0 <= k < |g| ensures g[k] in weights {
        GramTokensInReference(refTokens, n, g, k);
      }
      NgramWeightPositive(g, weights);
    }
  }

  /**
   * A reference whose tokens all occur in a table as `build_idf_lookup`
   * makes it, every IDF of which is positive.
   */
  ghost predicate KnownReference(refTokens: seq<string>, lookup: IdfLookup, codeAbbr: string) {
    PositiveTable(lookup, codeAbbr) && forall t :: t in refTokens ==> t != "" && t in lookup[codeAbbr]
  }

  /**
   * A reference `calculate_recall` can weigh: a table as `build_idf_lookup`
   * makes it, no empty token, and, unless the reference is empty, one
   * token the table knows. The other tokens may be unknown and weigh 0.
   */
  ghost predicate WeighableReference(refTokens: seq<string>, lookup: IdfLookup, codeAbbr: string) {
    PositiveTable(lookup, codeAbbr) && "" !in refTokens &&
    (refTokens != [] ==> exists t :: t in refTokens && t in lookup[codeAbbr])
  }

  lemma KnownIsWeighable(refTokens: seq<string>, lookup: IdfLookup, codeAbbr: string)
    requires KnownReference(refTokens, lookup, codeAbbr)
    ensures WeighableReference(refTokens, lookup, codeAbbr)
  {
    if refTokens != [] {
      assert refTokens[0] in refTokens;
    }
  }

  /** The weights and n-grams of a known reference, where every n-gram has a positive weight. */
  lemma KnownReferenceWeights(refTokens: seq<string>, n: int, lookup: IdfLookup, codeAbbr: string)
    requires n >= 1 && KnownReference(refTokens, lookup, codeAbbr)
    ensures WeightsAsWritten(refTokens, lookup, codeAbbr).Ok?
    ensures Positive(WeightsAsWritten(refTokens, lookup, codeAbbr).value)
    ensures AllWeighted(GramSet(RougeN.NGrams(refTokens, n)), WeightsAsWritten(refTokens, lookup, codeAbbr).value)
    ensures forall g :: g in RougeN.NGrams(refTokens, n) ==>
      NgramWeightOf(g, WeightsAsWritten(refTokens, lookup, codeAbbr).value).value > 0.0
  {
    CheckedWeightsPositive(refTokens, lookup, codeAbbr);
    CheckedAgreesWithAsWritten(refTokens, lookup, codeAbbr);
    GramsWeighted(refTokens, n, TokenWeightsOf(refTokens, lookup, codeAbbr).value);
  }

  /** Over a table of positive IDFs, the weights as written are non-negative. */
  lemma AsWrittenNonNegative(refTokens: seq<string>, lookup: IdfLookup, codeAbbr: string)
    requires PositiveTable(lookup, codeAbbr) && "" !in refTokens
    ensures WeightsAsWritten(refTokens, lookup, codeAbbr).Ok?
    ensures NonNegative(WeightsAsWritten(refTokens, lookup, codeAbbr).value)
  {
    var w := WeightsAsWritten(refTokens, lookup, codeAbbr).value;
    forall t | t in w ensures w[t] >= 0.0 {
      TfIdfSign(refTokens, lookup[codeAbbr], t);
    }
  }

  /** One known token makes the largest weight as written positive. */
  lemma AsWrittenMaxPositive(refTokens: seq<string>, lookup: IdfLookup, codeAbbr: string)
    requires WeighableReference(refTokens, lookup, codeAbbr) && refTokens != []
    ensures WeightsAsWritten(refTokens, lookup, codeAbbr).value != map[]
    ensures MaxWeight(WeightsAsWritten(refTokens, lookup, codeAbbr).value) > 0.0
  {
    var w := WeightsAsWritten(refTokens, lookup, codeAbbr).value;
    var t :| t in refTokens && t in lookup[codeAbbr];
    TfIdfSign(refTokens, lookup[codeAbbr], t);
    assert t in w && w[t] > 0.0;
  }

  /**
   * The weights of a weighable reference are non-negative and give every
   * reference n-gram (n from 1) a weight: the largest token weight, that
   * of a known token, is positive.
   */
  lemma WeighableReferenceWeights(refTokens: seq<string>, n: int, lookup: IdfLookup, codeAbbr: string)
    requires n >= 1 && WeighableReference(refTokens, lookup, codeAbbr)
    ensures WeightsAsWritten(refTokens, lookup, codeAbbr).Ok?
    ensures NonNegative(WeightsAsWritten(refTokens, lookup, codeAbbr).value)
    ensures AllWeighted(GramSet(RougeN.NGrams(refTokens, n)), WeightsAsWritten(refTokens, lookup, codeAbbr).value)
  {
    AsWrittenNonNegative(refTokens, lookup, codeAbbr);
    var w := WeightsAsWritten(refTokens, lookup, codeAbbr).value;
    forall g | g in GramSet(RougeN.NGrams(refTokens, n)) ensures NgramWeightOf(g, w).Ok? {
      RougeN.NGramsMembers(refTokens, n, g);
      AsWrittenMaxPositive(refTokens, lookup, codeAbbr);
      NgramWeightInUnit(g, w);
    }
  }

  /** An n-gram of the reference holding the token at index `i`. */
  lemma GramAround(refTokens: seq<string>, n: int, i: nat) returns (g: NGram, j: nat)
    requires 1 <= n <= |refTokens| && i < |refTokens|
    ensures g in RougeN.NGrams(refTokens, n) && j < |g| && g[j] == refTokens[i]
  {
    var start := if i + n <= |refTokens| then i else |refTokens| - n;
    g := RougeN.Window(refTokens, start, n);
    j := i - start;
    RougeN.NGramsMembers(refTokens, n, g);
  }

  /** An n-gram holding a token of positive weight among non-negative ones weighs more than 0. */
  lemma GramOfPositiveToken(g: NGram, weights: TokenWeights, j: nat)
    requires NonNegative(weights) && weights != map[] && MaxWeight(weights) > 0.0
    requires j < |g| && WeightOf(weights, g[j]) > 0.0
    ensures NgramWeightOf(g, weights).Ok? && NgramWeightOf(g, weights).value > 0.0
  {
    ScaledSumOfPositiveToken(g, weights, MaxWeight(weights), j);
    NgramWeightInUnit(g, weights);
    assert ScaledSum(g, weights, MaxWeight(weights)) / |g| as real > 0.0;
  }

  /**
   * A weighable reference of at least n tokens has an n-gram of positive
   * weight: one that holds a known token.
   */
  lemma PositiveGram(refTokens: seq<string>, n: int, lookup: IdfLookup, codeAbbr: string) returns (g: NGram)
    requires n >= 1 && WeighableReference(refTokens, lookup, codeAbbr) && |refTokens| >= n
    ensures g in RougeN.NGrams(refTokens, n)
    ensures NgramWeightOf(g, WeightsAsWritten(refTokens, lookup, codeAbbr).value).Ok?
    ensures NgramWeightOf(g, WeightsAsWritten(refTokens, lookup, codeAbbr).value).value > 0.0
  {
    AsWrittenNonNegative(refTokens, lookup, codeAbbr);
    AsWrittenMaxPositive(refTokens, lookup, codeAbbr);
    var w := WeightsAsWritten(refTokens, lookup, codeAbbr).value;
    var t :| t in refTokens && t in lookup[codeAbbr];
    var i :| 0 <= i < |refTokens| && refTokens[i] == t;
    var j;
    g, j := GramAround(refTokens, n, i);
    TfIdfSign(refTokens, lookup[codeAbbr], t);
    assert WeightOf(w, g[j]) > 0.0;
    GramOfPositiveToken(g, w, j);
  }

  /**
   * For n from 1 and a weighable reference, `calculate_recall` raises
   * nothing and returns a value in [0, 1].
   */
  lemma RecallInUnit(predTokens: seq<string>, refTokens: seq<string>, n: int, lookup: IdfLookup, codeAbbr: string)
    requires n >= 1 && WeighableReference(refTokens, lookup, codeAbbr)
    ensures RecallOf(predTokens, refTokens, n, lookup, codeAbbr).Ok?
    ensures 0.0 <= RecallOf(predTokens, refTokens, n, lookup, codeAbbr).value <= 1.0
  {
    WeighableReferenceWeights(refTokens, n, lookup, codeAbbr);
    var weights := WeightsAsWritten(refTokens, lookup, codeAbbr).value;
    RecallFromGramsInUnit(RougeN.NGrams(predTokens, n), RougeN.NGrams(refTokens, n), weights);
  }

  /**
   * The reference "a b" against a table knowing only "a": as written the
   * unknown "b" weighs 0 and the text recalls itself completely, while the
   * checked weights its tests describe raise.
   */
  lemma UnknownTokenRecalled()
    ensures RecallOf(["a", "b"], ["a", "b"], 1, map["c" := map["a" := 1.0]], "c") == Ok(1.0)
    ensures TokenWeightsOf(["a", "b"], map["c" := map["a" := 1.0]], "c") == Err(UnknownToken("b", "c"))
  {
    var lookup := map["c" := map["a" := 1.0]];
    var tokens := ["a", "b"];
    assert tokens[0] == "a" && "a" in lookup["c"];
    RecallOfIdentical(tokens, 1, lookup, "c");
    assert FirstBadToken(tokens, lookup["c"]) == 1;
  }

  /**
   * A reference of at least n tokens none of which the table knows has
   * only weights of 0, so `get_ngram_weight` fails `max_weight > 0.0` on
   * its first n-gram.
   */
  lemma UnknownReferenceFails(predTokens: seq<string>, refTokens: seq<string>, n: int, lookup: IdfLookup, codeAbbr: string)
    requires n >= 1 && codeAbbr in lookup && "" !in refTokens && |refTokens| >= n
    requires forall t :: t in refTokens ==> t !in lookup[codeAbbr]
    ensures RecallOf(predTokens, refTokens, n, lookup, codeAbbr) == Err(AssertionFailed)
  {
    var w := WeightsAsWritten(refTokens, lookup, codeAbbr).value;
    forall t | t in w ensures w[t] == 0.0 {
    }
    assert refTokens[0] in w;
    var g := RougeN.Window(refTokens, 0, n);
    RougeN.NGramsMembers(refTokens, n, g);
    assert g in GramSet(RougeN.NGrams(refTokens, n));
    assert !AllWeighted(GramSet(RougeN.NGrams(refTokens, n)), w);
  }

  /**
   * The errors of `calculate_recall`: n below 1, then a code missing from
   * the lookup, then an empty reference token, then a reference the table
   * knows nothing of.
   */
  lemma RecallErrors(predTokens: seq<string>, refTokens: seq<string>, n: int, lookup: IdfLookup, codeAbbr: string)
    ensures n < 1 ==> RecallOf(predTokens, refTokens, n, lookup, codeAbbr) == Err("n must be > 0, got " + RougeN.DecimalString(n))
    ensures n >= 1 && codeAbbr !in lookup ==> RecallOf(predTokens, refTokens, n, lookup, codeAbbr) == Err(CodeMissing(codeAbbr))
    ensures n >= 1 && codeAbbr in lookup && "" in refTokens ==> RecallOf(predTokens, refTokens, n, lookup, codeAbbr) == Err(AssertionFailed)
    ensures n >= 1 && codeAbbr in lookup && "" !in refTokens && |refTokens| >= n &&
            (forall t :: t in refTokens ==> t !in lookup[codeAbbr]) ==>
              RecallOf(predTokens, refTokens, n, lookup, codeAbbr) == Err(AssertionFailed)
  {
    if n >= 1 && codeAbbr in lookup && "" !in refTokens && |refTokens| >= n &&
       (forall t :: t in refTokens ==> t !in lookup[codeAbbr]) {
      UnknownReferenceFails(predTokens, refTokens, n, lookup, codeAbbr);
    }
  }

  /** Recall 1 once the prediction covers the reference n-grams, one of which has a positive weight. */
  lemma RecallFromGramsOfCovered(pred: multiset<NGram>, ref: multiset<NGram>, weights: TokenWeights, g: NGram)
    requires NonNegative(weights) && AllWeighted(GramSet(ref), weights)
    requires forall h :: h in ref ==> ref[h] <= pred[h]
    requires g in ref && NgramWeightOf(g, weights).value > 0.0
    ensures RecallFromGrams(pred, ref, weights) == Ok(1.0)
  {
    var grams := GramSet(ref);
    SumsOfCovered(grams, pred, ref, weights);
    assert g in grams;
    SumsOfPositiveGram(grams, pred, ref, weights, g);
    var sums := Sums(grams, pred, ref, weights);
    assert sums.1 > 0.0;
    assert sums.0 / sums.1 == 1.0;
  }

  /** Recall 0 once the prediction shares no n-gram with the reference. */
  lemma RecallFromGramsOfDisjoint(pred: multiset<NGram>, ref: multiset<NGram>, weights: TokenWeights)
    requires AllWeighted(GramSet(ref), weights) && pred * ref == multiset{}
    ensures RecallFromGrams(pred, ref, weights) == Ok(0.0)
  {
    var grams := GramSet(ref);
    forall g | g in grams ensures pred[g] == 0 {
      assert (pred * ref)[g] == 0;
    }
    SumsOfDisjoint(grams, pred, ref, weights);
  }

  /**
   * When the prediction holds every n-gram of the reference at least as
   * often (the same text, or one that contains it), the recall is 1.
   */
  lemma RecallOfCoveredReference(predTokens: seq<string>, refTokens: seq<string>, n: int, lookup: IdfLookup, codeAbbr: string)
    requires n >= 1 && WeighableReference(refTokens, lookup, codeAbbr) && |refTokens| >= n
    requires RougeN.NGrams(refTokens, n) <= RougeN.NGrams(predTokens, n)
    ensures RecallOf(predTokens, refTokens, n, lookup, codeAbbr) == Ok(1.0)
  {
    var weights := WeightsAsWritten(refTokens, lookup, codeAbbr);
    var pred, ref := RougeN.NGrams(predTokens, n), RougeN.NGrams(refTokens, n);
    assert RougeN.GetNGrams(predTokens, n) == Ok(pred) && RougeN.GetNGrams(refTokens, n) == Ok(ref);
    WeighableReferenceWeights(refTokens, n, lookup, codeAbbr);
    assert RecallOf(predTokens, refTokens, n, lookup, codeAbbr) == RecallFromGrams(pred, ref, weights.value);
    var g := PositiveGram(refTokens, n, lookup, codeAbbr);
    RecallFromGramsOfCovered(pred, ref, weights.value, g);
  }

  /** A reference recalls itself completely. */
  lemma RecallOfIdentical(tokens: seq<string>, n: int, lookup: IdfLookup, codeAbbr: string)
    requires n >= 1 && WeighableReference(tokens, lookup, codeAbbr) && |tokens| >= n
    ensures RecallOf(tokens, tokens, n, lookup, codeAbbr) == Ok(1.0)
  {
    RecallOfCoveredReference(tokens, tokens, n, lookup, codeAbbr);
  }

  /** A prediction sharing no n-gram with the reference (an empty one, say) has recall 0. */
  lemma RecallOfDisjoint(predTokens: seq<string>, refTokens: seq<string>, n: int, lookup: IdfLookup, codeAbbr: string)
    requires n >= 1 && WeighableReference(refTokens, lookup, codeAbbr)
    requires RougeN.NGrams(predTokens, n) * RougeN.NGrams(refTokens, n) == multiset{}
    ensures RecallOf(predTokens, refTokens, n, lookup, codeAbbr) == Ok(0.0)
  {
    var weights := WeightsAsWritten(refTokens, lookup, codeAbbr);
    var pred, ref := RougeN.NGrams(predTokens, n), RougeN.NGrams(refTokens, n);
    assert RougeN.GetNGrams(predTokens, n) == Ok(pred) && RougeN.GetNGrams(refTokens, n) == Ok(ref);
    WeighableReferenceWeights(refTokens, n, lookup, codeAbbr);
    assert RecallOf(predTokens, refTokens, n, lookup, codeAbbr) == RecallFromGrams(pred, ref, weights.value);
    RecallFromGramsOfDisjoint(pred, ref, weights.value);
  }

  /** An empty prediction recalls nothing. */
  lemma RecallOfEmptyPrediction(refTokens: seq<string>, n: int, lookup: IdfLookup, codeAbbr: string)
    requires n >= 1 && WeighableReference(refTokens, lookup, codeAbbr)
    ensures RecallOf([], refTokens, n, lookup, codeAbbr) == Ok(0.0)
  {
    assert RougeN.NGrams([], n) == multiset{};
    RecallOfDisjoint([], refTokens, n, lookup, codeAbbr);
  }

  /** Against an empty reference the recall is 0, whatever the table holds. */
  lemma RecallOfEmptyReference(predTokens: seq<string>, n: int, lookup: IdfLookup, codeAbbr: string)
    requires n >= 1 && codeAbbr in lookup
    ensures RecallOf(predTokens, [], n, lookup, codeAbbr) == Ok(0.0)
  {
    var ref := RougeN.NGrams([], n);
    assert ref == multiset{};
    var grams := GramSet(ref);
    assert grams == {};
  }

  // ---------------------------------------------------------------------
  // The score
  // ---------------------------------------------------------------------

  /** The message of the assertion on the total weight. */
  const TotalWeightMessage: string := "Total weight must be greater than zero."

  /** The default `ngrams_importances`: unigrams, bigrams and trigrams, equally. */
  const DefaultImportances: seq<real> := [1.0, 1.0, 1.0]

  /** `max_possible_n`: no n-gram is longer than the shorter text. */
  function MaxN(predTokens: seq<string>, refTokens: seq<string>): nat {
    if |predTokens| <= |refTokens| then |predTokens| else |refTokens|
  }

  /** Some importance is positive for an n-gram length both texts reach. */
  ghost predicate Applicable(importances: seq<real>, k: nat, maxN: nat) {
    exists j :: 0 <= j < k && j < |importances| && importances[j] > 0.0 && j + 1 <= maxN
  }

  /** The recall for every n-gram length an importance names: `recalls[n - 1]` is the recall for `n`. */
  ghost function Recalls(count: nat, predTokens: seq<string>, refTokens: seq<string>, lookup: IdfLookup, codeAbbr: string)
    : (r: seq<Result<real>>)
    ensures |r| == count
  {
    if count == 0 then []
    else Recalls(count - 1, predTokens, refTokens, lookup, codeAbbr) + [RecallOf(predTokens, refTokens, count, lookup, codeAbbr)]
  }

  lemma {:induction false} RecallsAt(count: nat, predTokens: seq<string>, refTokens: seq<string>, lookup: IdfLookup, codeAbbr: string, n: nat)
    requires 1 <= n <= count
    ensures Recalls(count, predTokens, refTokens, lookup, codeAbbr)[n - 1] == RecallOf(predTokens, refTokens, n, lookup, codeAbbr)
  {
    if n < count {
      RecallsAt(count - 1, predTokens, refTokens, lookup, codeAbbr, n);
    }
  }

  /** With a weighable reference, the recall for length `n` succeeds with a value in [0, 1]. */
  lemma RecallAtInUnit(count: nat, predTokens: seq<string>, refTokens: seq<string>, lookup: IdfLookup, codeAbbr: string, n: nat)
    requires 1 <= n <= count && WeighableReference(refTokens, lookup, codeAbbr)
    ensures Recalls(count, predTokens, refTokens, lookup, codeAbbr)[n - 1].Ok?
    ensures 0.0 <= Recalls(count, predTokens, refTokens, lookup, codeAbbr)[n - 1].value <= 1.0
  {
    RecallsAt(count, predTokens, refTokens, lookup, codeAbbr, n);
    RecallInUnit(predTokens, refTokens, n, lookup, codeAbbr);
  }

  /** The recall for one n-gram length of the loop of `_compute`. */
  method RecallAt(predTokens: seq<string>, refTokens: seq<string>, n: nat, lookup: IdfLookup, codeAbbr: string,
                  ghost recalls: seq<Result<real>>)
    returns (r: Result<real>)
    requires 1 <= n <= |recalls| && recalls == Recalls(|recalls|, predTokens, refTokens, lookup, codeAbbr)
    ensures r == recalls[n - 1]
  {
    r := TokenRecall(predTokens, refTokens, n, lookup, codeAbbr);
    RecallsAt(|recalls|, predTokens, refTokens, lookup, codeAbbr, n);
  }

  /**
   * The weighted sum and the total weight after the first `k` importances,
   * for the n-gram lengths 1 to `k` up to `maxN`, or the error of the first
   * recall that raised.
   */
  function Accumulated(importances: seq<real>, k: nat, maxN: nat, recalls: seq<Result<real>>): Result<(real, real)>
    requires k <= |importances| && |recalls| == |importances|
  {
    if k == 0 then Ok((0.0, 0.0))
    else
      var acc := Accumulated(importances, k - 1, maxN, recalls);
      var weight := importances[k - 1];
      if acc.Err? || !(weight > 0.0 && k <= maxN) then acc
      else if recalls[k - 1].Err? then Err(recalls[k - 1].error)
      else Ok(Plus(acc.value, (Weighted(weight, recalls[k - 1].value), weight)))
  }

  /** `weight * recall`. */
  function Weighted(weight: real, recall: real): real {
    weight * recall
  }

  lemma WeightedBounds(weight: real, recall: real)
    requires weight > 0.0 && 0.0 <= recall <= 1.0
    ensures 0.0 <= Weighted(weight, recall) <= weight
    ensures recall == 1.0 ==> Weighted(weight, recall) == weight
  {
    UnitScale(recall, weight);
  }

  lemma SelfQuotient(x: real)
    requires x > 0.0
    ensures x / x == 1.0
  {
  }

  /** `weighted_sum / total_weight` after its two assertions. */
  function WeightedResult(acc: (real, real)): Result<real> {
    if !(acc.1 > 0.0) then Err(TotalWeightMessage)
    else
      var result := acc.0 / acc.1;
      if 0.0 <= result <= 1.0 then Ok(result) else Err(AssertionFailed)
  }

  /** What `_compute` returns or raises for the token lists of the two texts. */
  ghost function ScoreOf(importances: seq<real>, predTokens: seq<string>, refTokens: seq<string>,
                         lookup: IdfLookup, codeAbbr: string): Result<real>
  {
    var maxN := MaxN(predTokens, refTokens);
    if maxN == 0 then Ok(0.0)
    else
      var acc := Accumulated(importances, |importances|, maxN, Recalls(|importances|, predTokens, refTokens, lookup, codeAbbr));
      if acc.Err? then Err(acc.error) else WeightedResult(acc.value)
  }

  /** Once a recall has raised, the error is what the whole loop ends with. */
  lemma {:induction false} AccumulatedErrorSticks(importances: seq<real>, k: nat, m: nat, maxN: nat, recalls: seq<Result<real>>)
    requires k <= m <= |importances| && |recalls| == |importances|
    requires Accumulated(importances, k, maxN, recalls).Err?
    ensures Accumulated(importances, m, maxN, recalls) == Accumulated(importances, k, maxN, recalls)
    decreases m
  {
    if m > k {
      AccumulatedErrorSticks(importances, k, m - 1, maxN, recalls);
    }
  }

  /** `_compute`: the importance-weighted mean of the TF-IDF recalls for n = 1, 2, ... */
  method Compute(importances: seq<real>, prediction: string, reference: string, lookup: IdfLookup, codeAbbr: string)
    returns (r: Result<real>)
    ensures r == ScoreOf(importances, NormalizedWords(prediction), NormalizedWords(reference), lookup, codeAbbr)
  {
    r := TokenScore(importances, NormalizedWords(prediction), NormalizedWords(reference), lookup, codeAbbr);
  }

  /** `_compute` once both texts are normalised. */
  method TokenScore(importances: seq<real>, predTokens: seq<string>, refTokens: seq<string>, lookup: IdfLookup, codeAbbr: string)
    returns (r: Result<real>)
    ensures r == ScoreOf(importances, predTokens, refTokens, lookup, codeAbbr)
  {
    var maxN := MaxN(predTokens, refTokens);
    if maxN == 0 {
      return Ok(0.0);
    }
    ghost var recalls := Recalls(|importances|, predTokens, refTokens, lookup, codeAbbr);
    var acc := AccumulateRecalls(importances, maxN, predTokens, refTokens, lookup, codeAbbr, recalls);
    if acc.Err? {
      return Err(acc.error);
    }
    r := WeightedResult(acc.value);
  }

  /** The loop of `_compute`: the weighted sum and the total weight, or the first error of a recall. */
  method AccumulateRecalls(importances: seq<real>, maxN: nat, predTokens: seq<string>, refTokens: seq<string>,
                           lookup: IdfLookup, codeAbbr: string, ghost recalls: seq<Result<real>>)
    returns (acc: Result<(real, real)>)
    requires recalls == Recalls(|importances|, predTokens, refTokens, lookup, codeAbbr)
    ensures acc == Accumulated(importances, |importances|, maxN, recalls)
  {
    var weightedSum, totalWeight := 0.0, 0.0;
    var i := 0;
    while i < |importances|
      invariant 0 <= i <= |importances|
      invariant Accumulated(importances, i, maxN, recalls).Ok?
      invariant Accumulated(importances, i, maxN, recalls).value == (weightedSum, totalWeight)
    {
      var n := i + 1;
      var weight := importances[i];
      if weight > 0.0 && n <= maxN {
        var recall := RecallAt(predTokens, refTokens, n, lookup, codeAbbr, recalls);
        if recall.Err? {
          AccumulatedErrorSticks(importances, n, |importances|, maxN, recalls);
          return Err(recall.error);
        }
        weightedSum := weightedSum + Weighted(weight, recall.value);
        totalWeight := totalWeight + weight;
      }
      i := i + 1;
    }
    acc := Ok((weightedSum, totalWeight));
  }

  // ---------------------------------------------------------------------
  // Facts about the score
  // ---------------------------------------------------------------------

  /** Every recall succeeds with a value in [0, 1]. */
  ghost predicate UnitRecalls(recalls: seq<Result<real>>) {
    forall i :: 0 <= i < |recalls| ==> recalls[i].Ok? && 0.0 <= recalls[i].value <= 1.0
  }

  /**
   * With recalls in [0, 1], the weighted sum stays between 0 and the total
   * weight, and the total weight is positive exactly when some importance
   * so far applies.
   */
  lemma {:induction false} AccumulatedBounds(importances: seq<real>, k: nat, maxN: nat, recalls: seq<Result<real>>)
    requires k <= |importances| && |recalls| == |importances| && UnitRecalls(recalls)
    ensures Accumulated(importances, k, maxN, recalls).Ok?
    ensures 0.0 <= Accumulated(importances, k, maxN, recalls).value.0 <= Accumulated(importances, k, maxN, recalls).value.1
    ensures Accumulated(importances, k, maxN, recalls).value.1 > 0.0 <==> Applicable(importances, k, maxN)
  {
    if k > 0 {
      AccumulatedBounds(importances, k - 1, maxN, recalls);
      var weight := importances[k - 1];
      if weight > 0.0 && k <= maxN {
        WeightedBounds(weight, recalls[k - 1].value);
        assert Applicable(importances, k, maxN);
      } else {
        assert Applicable(importances, k, maxN) == Applicable(importances, k - 1, maxN);
      }
    }
  }

  /** The recalls of a weighable reference are all in [0, 1]. */
  lemma WeighableReferenceRecalls(count: nat, predTokens: seq<string>, refTokens: seq<string>, lookup: IdfLookup, codeAbbr: string)
    requires WeighableReference(refTokens, lookup, codeAbbr)
    ensures UnitRecalls(Recalls(count, predTokens, refTokens, lookup, codeAbbr))
  {
    var recalls := Recalls(count, predTokens, refTokens, lookup, codeAbbr);
    forall i | 0 <= i < count ensures recalls[i].Ok? && 0.0 <= recalls[i].value <= 1.0 {
      RecallAtInUnit(count, predTokens, refTokens, lookup, codeAbbr, i + 1);
    }
  }

  /**
   * For a weighable reference and an importance that applies, `_compute`
   * raises nothing: the score lies in [0, 1], a weighted mean of recalls.
   */
  lemma ScoreInUnit(importances: seq<real>, predTokens: seq<string>, refTokens: seq<string>, lookup: IdfLookup, codeAbbr: string)
    requires WeighableReference(refTokens, lookup, codeAbbr)
    requires Applicable(importances, |importances|, MaxN(predTokens, refTokens))
    ensures ScoreOf(importances, predTokens, refTokens, lookup, codeAbbr).Ok?
    ensures 0.0 <= ScoreOf(importances, predTokens, refTokens, lookup, codeAbbr).value <= 1.0
  {
    var recalls := Recalls(|importances|, predTokens, refTokens, lookup, codeAbbr);
    var maxN := MaxN(predTokens, refTokens);
    WeighableReferenceRecalls(|importances|, predTokens, refTokens, lookup, codeAbbr);
    AccumulatedBounds(importances, |importances|, maxN, recalls);
    var acc := Accumulated(importances, |importances|, maxN, recalls).value;
    UnitQuotient(acc.0, acc.1);
  }

  /** With the default importances, two texts with a weighable reference always score in [0, 1]. */
  lemma DefaultScoreInUnit(predTokens: seq<string>, refTokens: seq<string>, lookup: IdfLookup, codeAbbr: string)
    requires WeighableReference(refTokens, lookup, codeAbbr)
    ensures ScoreOf(DefaultImportances, predTokens, refTokens, lookup, codeAbbr).Ok?
    ensures 0.0 <= ScoreOf(DefaultImportances, predTokens, refTokens, lookup, codeAbbr).value <= 1.0
  {
    if MaxN(predTokens, refTokens) > 0 {
      assert DefaultImportances[0] > 0.0;
      ScoreInUnit(DefaultImportances, predTokens, refTokens, lookup, codeAbbr);
    }
  }

  lemma {:induction false} NothingAccumulated(importances: seq<real>, k: nat, maxN: nat, recalls: seq<Result<real>>)
    requires k <= |importances| && |recalls| == |importances| && !Applicable(importances, k, maxN)
    ensures Accumulated(importances, k, maxN, recalls) == Ok((0.0, 0.0))
  {
    if k > 0 {
      assert !Applicable(importances, k - 1, maxN);
      NothingAccumulated(importances, k - 1, maxN, recalls);
    }
  }

  /**
   * When both texts have tokens but no importance applies (all of them
   * zero, say), the total-weight assertion fails.
   */
  lemma NoApplicableImportance(importances: seq<real>, predTokens: seq<string>, refTokens: seq<string>, lookup: IdfLookup, codeAbbr: string)
    requires MaxN(predTokens, refTokens) > 0 && !Applicable(importances, |importances|, MaxN(predTokens, refTokens))
    ensures ScoreOf(importances, predTokens, refTokens, lookup, codeAbbr) == Err(TotalWeightMessage)
  {
    NothingAccumulated(importances, |importances|, MaxN(predTokens, refTokens), Recalls(|importances|, predTokens, refTokens, lookup, codeAbbr));
  }

  /** An empty text on either side scores 0 before anything is looked up. */
  lemma EmptyTextScoresZero(importances: seq<real>, prediction: string, reference: string, lookup: IdfLookup, codeAbbr: string)
    requires NormalizedWords(prediction) == [] || NormalizedWords(reference) == []
    ensures ScoreOf(importances, NormalizedWords(prediction), NormalizedWords(reference), lookup, codeAbbr) == Ok(0.0)
  {
  }

  /** With every recall 1, the weighted sum is the total weight. */
  lemma {:induction false} AccumulatedOfOnes(importances: seq<real>, k: nat, maxN: nat, recalls: seq<Result<real>>)
    requires k <= |importances| && |recalls| == |importances|
    requires forall i :: 0 <= i < |recalls| && i < maxN ==> recalls[i] == Ok(1.0)
    ensures Accumulated(importances, k, maxN, recalls).Ok?
    ensures Accumulated(importances, k, maxN, recalls).value.0 == Accumulated(importances, k, maxN, recalls).value.1
  {
    if k > 0 {
      AccumulatedOfOnes(importances, k - 1, maxN, recalls);
      if importances[k - 1] > 0.0 && k <= maxN {
        WeightedBounds(importances[k - 1], 1.0);
      }
    }
  }

  /** A text scores 1 against itself once an importance applies and the reference is weighable. */
  lemma IdenticalScoresOne(importances: seq<real>, tokens: seq<string>, lookup: IdfLookup, codeAbbr: string)
    requires WeighableReference(tokens, lookup, codeAbbr)
    requires Applicable(importances, |importances|, |tokens|)
    ensures ScoreOf(importances, tokens, tokens, lookup, codeAbbr) == Ok(1.0)
  {
    var recalls := Recalls(|importances|, tokens, tokens, lookup, codeAbbr);
    var maxN := MaxN(tokens, tokens);
    assert maxN == |tokens|;
    forall i | 0 <= i < |recalls| && i < maxN ensures recalls[i] == Ok(1.0) {
      RecallsAt(|importances|, tokens, tokens, lookup, codeAbbr, i + 1);
      RecallOfIdentical(tokens, i + 1, lookup, codeAbbr);
    }
    AccumulatedOfOnes(importances, |importances|, maxN, recalls);
    WeighableReferenceRecalls(|importances|, tokens, tokens, lookup, codeAbbr);
    AccumulatedBounds(importances, |importances|, maxN, recalls);
    var acc := Accumulated(importances, |importances|, maxN, recalls).value;
    SelfQuotient(acc.1);
  }

  /** Whatever `_compute` returns is a rate: its own assertion guards the ratio. */
  lemma ScoreOfOkInUnit(importances: seq<real>, predTokens: seq<string>, refTokens: seq<string>, lookup: IdfLookup, codeAbbr: string)
    ensures ScoreOf(importances, predTokens, refTokens, lookup, codeAbbr).Ok? ==>
              0.0 <= ScoreOf(importances, predTokens, refTokens, lookup, codeAbbr).value <= 1.0
  {
  }

  /** When every recall the loop asks for raises `e`, the loop raises `e` once an importance applies. */
  lemma {:induction false} AccumulatedAllFail(importances: seq<real>, k: nat, maxN: nat, recalls: seq<Result<real>>, e: string)
    requires k <= |importances| && |recalls| == |importances|
    requires forall i :: 0 <= i < |recalls| && i < maxN ==> recalls[i] == Err(e)
    ensures Accumulated(importances, k, maxN, recalls) == if Applicable(importances, k, maxN) then Err(e) else Ok((0.0, 0.0))
  {
    if k > 0 {
      AccumulatedAllFail(importances, k - 1, maxN, recalls, e);
      if Applicable(importances, k - 1, maxN) {
        var j :| 0 <= j < k - 1 && j < |importances| && importances[j] > 0.0 && j + 1 <= maxN;
        assert Applicable(importances, k, maxN);
      } else if importances[k - 1] > 0.0 && k <= maxN {
        assert Applicable(importances, k, maxN);
      } else {
        assert !Applicable(importances, k, maxN);
      }
    }
  }

  /**
   * A code abbreviation missing from the lookup fails the first recall the
   * loop computes, so `_compute` raises the missing-code assertion.
   */
  lemma ScoreWithoutCode(importances: seq<real>, predTokens: seq<string>, refTokens: seq<string>, lookup: IdfLookup, codeAbbr: string)
    requires codeAbbr !in lookup
    requires Applicable(importances, |importances|, MaxN(predTokens, refTokens))
    ensures ScoreOf(importances, predTokens, refTokens, lookup, codeAbbr) == Err(CodeMissing(codeAbbr))
  {
    var recalls := Recalls(|importances|, predTokens, refTokens, lookup, codeAbbr);
    var maxN := MaxN(predTokens, refTokens);
    forall i | 0 <= i < |recalls| && i < maxN ensures recalls[i] == Err(CodeMissing(codeAbbr)) {
      RecallsAt(|importances|, predTokens, refTokens, lookup, codeAbbr, i + 1);
      RecallErrors(predTokens, refTokens, i + 1, lookup, codeAbbr);
    }
    AccumulatedAllFail(importances, |importances|, maxN, recalls, CodeMissing(codeAbbr));
  }
}
