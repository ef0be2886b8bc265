# PolishLawLLM-Benchmark core, modelled in Dafny

PolishLawLLM-Benchmark asks language models questions from Polish legal
exams (bar and legal-adviser exams) and about court judgments. It scores
their answers with text metrics and publishes leaderboards on a web page.
This project models the computational core of the repository and proves what
that core promises:

- **Metrics.** The shared text normalisation of the metrics and the
  `__call__`/`score_batch` interface. Exact match, ROUGE-N (weighted F1 over
  n-gram lengths), ROUGE-W (weighted longest common subsequence) and
  TF-IDF-weighted ROUGE-N recall.
- **Statistics.** The per-file statistics and their question-weighted
  aggregation (`calculate_stats`, `aggregate_results`).
- **Text utilities.** Dehyphenating and cleaning extracted PDF text. Formatting
  code abbreviations. Reading a field out of a model reply that may be wrapped
  in a Markdown fence or hold broken JSON.
- **Exam parsing.** Skipping configured articles of a legal code. Joining
  parsed exam questions with the answer key. Validating a parsed question.
  Checking result files against the exam questions (unknown, duplicate and
  missing questions).
- **Frontend.** Extracting metric column keys and their display labels.
  Averaging Firestore metric records into leaderboard entries. Sorting and
  ranking leaderboard rows, and the click-to-sort state of the table.

Every source file of the core has its own module. Code that computes values
becomes functions and lemmas. Code that loops or updates state becomes methods
with loop invariants, proved against a reference function. The click-to-sort
state of the leaderboard table is a class whose method updates its fields.

Shared modules:

- `Wrappers`: `Option` and `Result`.
- `Text`: Python's `strip`, `split`, `split(c)`, `join` and `lower`.
- `StringOrder`: code-point order, which is Python's `sorted` on `str` and
  JavaScript's default sort for text without characters above U+FFFF, an
  insertion sort, and uniqueness of sorted sequences.
- `Fractions`: a few facts about quotients of reals.

Modelling conventions:

- **Numbers.** Floating-point numbers are `real`.
- **Collections.** Python `Counter`s of n-grams are multisets. Dictionaries are
  Dafny maps.
- **Errors.** An exception is the `Err` case of a `Result`, carrying its
  message. A bare `assert` is `"AssertionError"`. Messages that format a
  float leave the number out; "## Left out" lists them.
- **Inputs from outside the core.** I/O, JSON decoding, regular-expression
  searches, ROUGE-W's weight `k ** alpha` and its inverse are parameters.

**TF-IDF weights.** `get_tokens_tfidf` as written gives a reference token
missing from the IDF table the IDF 0, while its tests expect a ValueError.
The recall and the score follow the code as written in their weights
(`TfidfRougeN.WeightsAsWritten`). Their n-grams come from the corrected
`RougeN.GetNGrams` (third Findings row): as written, `RougeNMetric.get_ngrams`
does not exist, and `_get_ngrams` agrees with the corrected extraction for
every n from 1, the only range `_compute` reaches. The weights the tests describe are modelled
beside it (`TfidfRougeN.TokenWeightsOf`), with a lemma that the two agree
wherever the checked weights exist (`TfidfRougeN.CheckedAgreesWithAsWritten`).
The properties of the recall are stated for a "weighable" reference: a table
of positive IDFs, no empty token, and one token the table knows.

## Model

Source paths are relative to the repository root.

| member | source | states |
|---|---|---|
| BaseMetric.ReplaceNewlines | src/benchmark_framework/metrics/base_metric.py:42 | same length; every `\n` becomes a space, every other character is kept |
| BaseMetric.RemovePunctuation | src/benchmark_framework/metrics/base_metric.py:38-42 | no punctuation character (all of `string.punctuation` except `^`) survives; never longer than the input |
| BaseMetric.RemovePunctuationMembers | src/benchmark_framework/metrics/base_metric.py:38-42 | a character survives exactly when it occurs in the input and is not punctuation |
| BaseMetric.RemovePunctuationIdempotent | src/benchmark_framework/metrics/base_metric.py:38-42 | deleting punctuation twice is deleting it once |
| BaseMetric.NormalizedEmpty | src/benchmark_framework/metrics/base_metric.py:36-43 | the empty text has no tokens |
| BaseMetric.NormalizedTokens | src/benchmark_framework/metrics/base_metric.py:43 | every token is non-empty and holds no whitespace, no punctuation other than `^` and no capital letter |
| BaseMetric.NormalizationIdempotent | src/benchmark_framework/metrics/base_metric.py:36-43 | normalising the tokens joined by single spaces gives the same tokens |
| BaseMetric.TokensNormalizeToThemselves | src/benchmark_framework/metrics/base_metric.py:36-43 | any list of tokens joined by spaces normalises back to that list |
| BaseMetric.JoinedTokensChars | src/benchmark_framework/metrics/base_metric.py:36-43 | tokens joined by spaces hold no newline, no punctuation and no capital letter |
| BaseMetric.CaseIgnored | src/benchmark_framework/metrics/base_metric.py:43 | a text and its lower-cased form have the same tokens |
| BaseMetric.PunctuationIgnored | src/benchmark_framework/metrics/base_metric.py:42 | deleting punctuation first does not change the tokens |
| BaseMetric.SeparatedTexts | src/benchmark_framework/metrics/base_metric.py:42-43 | the tokens of `a`, any whitespace character, `b` are the tokens of `a` followed by those of `b` |
| BaseMetric.NormalizedSkipsStrip | src/benchmark_framework/metrics/base_metric.py:43 | the `strip()` before `lower().split()` never changes the split |
| BaseMetric.CleanedBlank | src/benchmark_framework/metrics/base_metric.py:42 | a whitespace-only text stays whitespace-only through the newline replacement and punctuation deletion |
| BaseMetric.NormalizedOfPadded | src/benchmark_framework/metrics/base_metric.py:36-43 | whitespace around a text adds no token |
| BaseMetric.NormalizedIgnoresStrip | src/benchmark_framework/metrics/base_metric.py:18-21 | stripping a text first does not change its tokens, so the strip in `__call__` never changes a score |
| Text.Split | src/benchmark_framework/metrics/base_metric.py:43 | `str.split()` yields only non-empty words without whitespace |
| Text.SplitJoin | src/benchmark_framework/metrics/base_metric.py:43 | words joined by single spaces split back into the same words |
| Text.SplitStrip | src/benchmark_framework/metrics/base_metric.py:43 | stripping before `split()` does not change the words |
| Text.StripIdempotent | src/benchmark_framework/metrics/base_metric.py:18-19 | stripping twice is stripping once |
| Text.StripEmptyIffBlank | src/benchmark_framework/metrics/base_metric.py:18-19 | a stripped text is empty exactly when the text is only whitespace |
| Text.StripLower | src/benchmark_framework/metrics/base_metric.py:43 | `strip` and `lower` commute |
| Scoring.Name | src/benchmark_framework/metrics/base_metric.py:11-12 | each metric gets the name its constructor passes, and the four names differ |
| Scoring.NamesDistinct | src/benchmark_framework/metrics/base_metric.py:11-12 | equal names mean the same kind of metric |
| Scoring.Call | src/benchmark_framework/metrics/base_metric.py:14-24 | `__call__` strips both texts, runs the metric's `_compute` and fails the range assertion on a score outside [0, 1] |
| Scoring.RawScoreInUnit | src/benchmark_framework/metrics/base_metric.py:23 | every score `_compute` returns lies in [0, 1], so the range assertion never fires |
| Scoring.CallIsCompute | src/benchmark_framework/metrics/base_metric.py:18-24 | a call gives exactly the `_compute` result of the unstripped texts |
| Scoring.CallInUnit | src/benchmark_framework/metrics/base_metric.py:20-24 | a call that returns a score returns one in [0, 1] |
| Scoring.CodeAbbreviationIgnored | src/benchmark_framework/metrics/base_metric.py:14-24 | exact match, ROUGE-N and ROUGE-W ignore the code abbreviation; exact match and ROUGE-N never raise |
| Scoring.TfidfWithoutCode | src/benchmark_framework/metrics/tfidf_rouge_n.py:104-106 | the TF-IDF metric called with no code abbreviation fails the code assertion ("Code abbreviation 'None' not found"), once an importance applies |
| Scoring.ScoreBatch | src/benchmark_framework/metrics/base_metric.py:26-34 | unequal lengths raise the length assertion; otherwise one score in [0, 1] per pair, in order, each the call on that pair; or the error of the first pair whose call raises |
| Scoring.ScorePairs | src/benchmark_framework/metrics/base_metric.py:33-34 | the loop over the zipped pairs: every score, or the error of the first failing pair, with all pairs before it scored |
| ExactMatch.ScoreMeaning | src/benchmark_framework/metrics/exact_match.py:11-16 | the score is 1 exactly when the normalised word lists are equal and 0 otherwise, never anything else |
| ExactMatch.Reflexive | src/benchmark_framework/metrics/exact_match.py:14-16 | every text matches itself |
| ExactMatch.Symmetric | src/benchmark_framework/metrics/exact_match.py:14-16 | the score does not depend on the order of the texts |
| ExactMatch.EmptyTextsMatch | src/benchmark_framework/metrics/exact_match.py:14-16 | two texts without tokens (empty, blank, only punctuation) score 1 |
| ExactMatch.CaseInsensitive | src/benchmark_framework/metrics/exact_match.py:14-16 | a text matches its lower-cased form |
| ExactMatch.PunctuationInsensitive | src/benchmark_framework/metrics/exact_match.py:14-16 | a text matches itself with its punctuation deleted |
| ExactMatch.WhitespaceInsensitive | src/benchmark_framework/metrics/exact_match.py:14-16 | joining two parts with any whitespace character matches joining them with one space |
| ExactMatch.RepeatedWhitespaceInsensitive | src/benchmark_framework/metrics/exact_match.py:14-16 | a doubled separator matches a single one |
| ExactMatch.TrailingSpaceIgnored | src/benchmark_framework/metrics/exact_match.py:14-16 | trailing whitespace does not change the score |
| RougeN.NGramsTotal | src/benchmark_framework/metrics/rouge_n.py:96-100 | `_get_ngrams` counts `max(len - n + 1, 0)` n-grams |
| RougeN.NGramsMembers | src/benchmark_framework/metrics/rouge_n.py:96-100 | an n-gram is counted exactly when it is `n` consecutive tokens of the input |
| RougeN.IntersectionCount | src/benchmark_framework/metrics/rouge_n.py:43-49 | the loop sums `min(pred count, ref count)` over the prediction's n-grams, which is the size of the multiset intersection |
| RougeN.OverlapBounds | src/benchmark_framework/metrics/rouge_n.py:43-49 | the clipped overlap never exceeds either side's n-gram total |
| RougeN.GramSelf | src/benchmark_framework/metrics/rouge_n.py:62-83 | n-grams compared with themselves have precision and recall 1, unless there are none |
| RougeN.GramEmptySide | src/benchmark_framework/metrics/rouge_n.py:62-83 | against an empty side, precision and recall are 0 |
| RougeN.TokenScores | src/benchmark_framework/metrics/rouge_n.py:51-94 | precision and recall lie in [0, 1] and recall is precision with the roles swapped; F1 lies in [0, 1], is symmetric, and is 0 when precision and recall sum to 0 |
| RougeN.PrecisionInUnit | src/benchmark_framework/metrics/rouge_n.py:51-67 | precision lies in [0, 1] |
| RougeN.RecallIsSwappedPrecision | src/benchmark_framework/metrics/rouge_n.py:69-83 | recall is precision with the texts swapped |
| RougeN.PrecisionZeroIff | src/benchmark_framework/metrics/rouge_n.py:51-67 | precision is 0 exactly when the prediction has no n-gram or none of its n-grams occurs in the reference |
| RougeN.F1Properties | src/benchmark_framework/metrics/rouge_n.py:85-94 | F1 lies in [0, 1], does not depend on which text is the prediction, and is 0 when precision and recall are both 0 |
| RougeN.F1OfIdentical | src/benchmark_framework/metrics/rouge_n.py:85-94 | a text compared with itself has F1 1 for every n up to its token count |
| RougeN.F1OfShortText | src/benchmark_framework/metrics/rouge_n.py:85-100 | with fewer than n tokens on either side, F1 is 0 |
| RougeN.PositiveWeightZeroIff | src/benchmark_framework/metrics/rouge_n.py:32-38 | the total weight is 0 exactly when no importance is positive |
| RougeN.WeightedSumBounds | src/benchmark_framework/metrics/rouge_n.py:32-36 | with every F1 in [0, 1], the weighted sum lies between 0 and the total weight |
| RougeN.WeightedMeanInUnit | src/benchmark_framework/metrics/rouge_n.py:38-41 | so the weighted mean lies in [0, 1] |
| RougeN.MeanOfOnes | src/benchmark_framework/metrics/rouge_n.py:32-41 | F1 scores of 1 wherever a weight is positive give a mean of 1 |
| RougeN.F1Scores | src/benchmark_framework/metrics/rouge_n.py:32-34 | the F1 score of the token lists for each n = 1 .. count |
| RougeN.Compute | src/benchmark_framework/metrics/rouge_n.py:19-41 | the loop of `_compute`: 0 for no importances or no positive weight, otherwise the weighted mean of the F1 scores at the positive weights |
| RougeN.AddWeighted | src/benchmark_framework/metrics/rouge_n.py:33-36 | one positive weight adds `weight * F1` to the sum and `weight` to the total |
| RougeN.ScoreInUnit | src/benchmark_framework/metrics/rouge_n.py:19-41 | the score lies in [0, 1] |
| RougeN.NoPositiveWeightScoresZero | src/benchmark_framework/metrics/rouge_n.py:26-39 | without a positive weight the score is 0 |
| RougeN.ScoreSymmetric | src/benchmark_framework/metrics/rouge_n.py:19-41 | the score does not depend on which text is the prediction |
| RougeN.IdenticalTextScoresOne | src/benchmark_framework/metrics/rouge_n.py:19-41 | a text scores 1 against itself when some weight is positive and the text has at least n tokens for every weighted n |
| RougeN.EmptyGramCounted | src/benchmark_framework/metrics/rouge_n.py:96-100 | as written, `_get_ngrams(tokens, 0)` counts the empty n-gram `len(tokens) + 1` times |
| RougeN.StaticNGrams | src/benchmark_framework/metrics/tfidf_rouge_n.py:81-82 | a class attribute lookup by name: only `_get_ngrams` yields n-grams, any other name raises AttributeError |
| RougeN.CalledNameMissing | src/benchmark_framework/metrics/tfidf_rouge_n.py:81-82 | as written, `RougeNMetric.get_ngrams` raises AttributeError whatever the tokens, while `_get_ngrams` gives the n-grams |
| RougeN.GetNGramsChecked | src/benchmark_framework/metrics/rouge_n.py:96-100 | the checked extraction fails exactly for n < 1 (with "n must be > 0, got 0" for 0), never counts the empty n-gram, and agrees with `_get_ngrams` for n >= 1 |
| RougeW.NewMetric | src/benchmark_framework/metrics/rouge_w.py:17-26 | the constructor raises "alpha must be >= 1.0" exactly when alpha < 1, and otherwise keeps alpha and beta |
| RougeW.CalculateWLCS | src/benchmark_framework/metrics/rouge_w.py:41-78 | the two tables filled row by row end in the reference WLCS score of the token lists |
| RougeW.FillRow | src/benchmark_framework/metrics/rouge_w.py:59-76 | the inner loop fills row `i` with the reference cells and leaves every other row alone |
| RougeW.FillCell | src/benchmark_framework/metrics/rouge_w.py:60-76 | a match extends the run from the diagonal cell; otherwise the larger of the neighbours above and to the left is taken (the left one on a tie) with run 0 |
| RougeW.RunIsCommonSuffix | src/benchmark_framework/metrics/rouge_w.py:54-68 | the run length of cell `(i, j)` is the length of a common suffix of the two prefixes |
| RougeW.RunIsMaximal | src/benchmark_framework/metrics/rouge_w.py:54-68 | and of the longest one: the tokens just before the run differ, or a prefix is used up |
| RougeW.LCSBounds | src/benchmark_framework/metrics/rouge_w.py:41-78 | the longest common subsequence is no longer than either side |
| RougeW.LCSOfIdentical | src/benchmark_framework/metrics/rouge_w.py:41-78 | a list has itself as longest common subsequence |
| RougeW.LinearWLCSIsLCS | src/benchmark_framework/metrics/rouge_w.py:33-34 | with weight `k ** 1` the score is the length of the longest common subsequence |
| RougeW.IdenticalWLCS | src/benchmark_framework/metrics/rouge_w.py:41-78 | a non-empty list against itself scores `f(len) - f(0)` |
| RougeW.WLCSSymmetric | src/benchmark_framework/metrics/rouge_w.py:41-78 | the score does not depend on which list is the prediction |
| RougeW.WLCSNonNegative | src/benchmark_framework/metrics/rouge_w.py:41-78 | with a non-decreasing weight the score is never negative |
| RougeW.InverseWeight | src/benchmark_framework/metrics/rouge_w.py:36-39 | a negative value raises "value must be >= 0", any other is inverted |
| RougeW.Clamp | src/benchmark_framework/metrics/rouge_w.py:91-98 | a value within 1e-9 of [0, 1] is pulled into it; one beyond raises "... significantly below 0" or "... above 1"; a value in [0, 1] is kept |
| RougeW.Rate | src/benchmark_framework/metrics/rouge_w.py:80-122 | recall and precision: 0 for an empty side, otherwise the range-checked inverse over the length, in [0, 1] |
| RougeW.TokenFMeasure | src/benchmark_framework/metrics/rouge_w.py:124-144 | fails exactly when recall or precision does, otherwise the weighted harmonic mean, in [0, 1] |
| RougeW.Compute | src/benchmark_framework/metrics/rouge_w.py:28-31 | `_compute` fails exactly when recall or precision does, and otherwise returns a rate |
| RougeW.RatesOfNondecreasingWeight | src/benchmark_framework/metrics/rouge_w.py:80-122 | with a non-decreasing weight the inverse never sees a negative score |
| RougeW.RecallPrecisionSwap | src/benchmark_framework/metrics/rouge_w.py:80-122 | swapping prediction and reference swaps recall and precision |
| RougeW.FValueInUnit | src/benchmark_framework/metrics/rouge_w.py:127-133 | the weighted harmonic mean of two rates is a rate |
| RougeW.FMeasureOfMeaning | src/benchmark_framework/metrics/rouge_w.py:124-144 | the F-measure never trips its own range check |
| RougeW.FMeasureSymmetric | src/benchmark_framework/metrics/rouge_w.py:124-144 | with beta = 1 the F-measure, and whether it fails, do not depend on the order |
| RougeW.IdenticalRatesOne | src/benchmark_framework/metrics/rouge_w.py:80-122 | a non-empty text against itself has recall and precision 1 |
| RougeW.IdenticalScoresOne | src/benchmark_framework/metrics/rouge_w.py:124-144 | and so F-measure 1, whatever beta |
| RougeW.EmptyScoresZero | src/benchmark_framework/metrics/rouge_w.py:124-133 | two texts without tokens score 0 without error |
| RougeW.LinearRecallIsLCSRate | src/benchmark_framework/metrics/rouge_w.py:80-100 | with alpha = 1 recall is the LCS length over the reference length and never fails |
| RougeW.RecallIsSwappedPrecision | src/benchmark_framework/metrics/rouge_w.py:80-122 | recall against a reference is precision of the reference against the text |
| RougeW.ComputeSymmetric | src/benchmark_framework/metrics/rouge_w.py:28-31 | with beta = 1 the score of two texts does not depend on their order |
| RougeW.IdenticalTextScoresOne | src/benchmark_framework/metrics/rouge_w.py:28-31 | a text with a token scores 1 against itself |
| RougeW.LinearRecallOfTexts | src/benchmark_framework/metrics/rouge_w.py:80-100 | with alpha = 1, recall of two texts is their LCS length over the reference length |
| TfidfRougeN.TfInUnit | src/benchmark_framework/metrics/tfidf_rouge_n.py:111 | a reference token's term frequency lies in (0, 1] |
| TfidfRougeN.TfIdfSign | src/benchmark_framework/metrics/tfidf_rouge_n.py:111-113 | a positive IDF gives a positive weight, a non-negative IDF a non-negative one |
| TfidfRougeN.TokensTfidf | src/benchmark_framework/metrics/tfidf_rouge_n.py:99-115 | as written, and the weights the recall uses: a missing code fails its assertion, an empty token fails the length assertion; otherwise one entry per distinct reference token holding `tf * idf`, with unknown tokens at IDF 0 |
| TfidfRougeN.UnknownTokenWeighsZero | src/benchmark_framework/metrics/tfidf_rouge_n.py:112-113 | as written, a reference token missing from the IDF table weighs 0 |
| TfidfRougeN.TokenWeightsOf | src/benchmark_framework/metrics/tfidf_rouge_n.py:99-115 | corrected: succeeds exactly when the code is known and every reference token is non-empty and in the table; otherwise fails at the first bad token, in reference order; on success the same weights as written |
| TfidfRougeN.TokensTfidfChecked | src/benchmark_framework/metrics/tfidf_rouge_n.py:109-113 | the token-by-token loop computes TokenWeightsOf |
| TfidfRougeN.CheckedAgreesWithAsWritten | src/benchmark_framework/metrics/tfidf_rouge_n.py:109-113 | wherever the corrected weights exist they are the weights as written; a reference with an unknown token has weights as written but no corrected ones |
| TfidfRougeN.CheckedWeightsPositive | src/benchmark_framework/metrics/tfidf_rouge_n.py:109-113 | against a table of positive IDFs, every weight of a known reference is positive |
| TfidfRougeN.TfIdfOrder | src/benchmark_framework/metrics/tfidf_rouge_n.py:111-113 | of two tokens with the same IDF the more frequent weighs more; of two equally frequent, the one with larger IDF |
| TfidfRougeN.FirstBadToken | src/benchmark_framework/metrics/tfidf_rouge_n.py:109-113 | the index of the first reference token that is empty or unknown, every token before it being known |
| TfidfRougeN.MaxWeight | src/benchmark_framework/metrics/tfidf_rouge_n.py:122 | `max(token_weights.values())`: a value of the dictionary, at least every value |
| TfidfRougeN.MaxWeightUnique | src/benchmark_framework/metrics/tfidf_rouge_n.py:122 | a dictionary has at most one largest value |
| TfidfRougeN.FindMaxWeight | src/benchmark_framework/metrics/tfidf_rouge_n.py:122 | the loop finds MaxWeight, and an empty dictionary raises "max() arg is an empty sequence" |
| TfidfRougeN.NgramWeight | src/benchmark_framework/metrics/tfidf_rouge_n.py:117-133 | the mean over the n-gram's tokens of their weight relative to the largest, with the three assertions |
| TfidfRougeN.NgramWeightInUnit | src/benchmark_framework/metrics/tfidf_rouge_n.py:117-133 | with non-negative weights it succeeds exactly when the largest weight is positive and the n-gram is not empty, and then lies in [0, 1] |
| TfidfRougeN.NgramWeightOfMaxTokens | src/benchmark_framework/metrics/tfidf_rouge_n.py:127-131 | an n-gram made only of tokens with the largest weight weighs 1 |
| TfidfRougeN.NgramWeightOfUnknownTokens | src/benchmark_framework/metrics/tfidf_rouge_n.py:126-128 | tokens missing from the weights count 0, so an n-gram of only such tokens weighs 0 |
| TfidfRougeN.NgramWeightOfToken | src/benchmark_framework/metrics/tfidf_rouge_n.py:127-131 | a unigram weighs its token's weight over the largest |
| TfidfRougeN.NgramWeightPositive | src/benchmark_framework/metrics/tfidf_rouge_n.py:127-131 | with positive weights, an n-gram of weighted tokens has a positive weight |
| TfidfRougeN.SumsRemove | src/benchmark_framework/metrics/tfidf_rouge_n.py:89-93 | the sums do not depend on dictionary order: any n-gram can be taken out first |
| TfidfRougeN.GramRecall | src/benchmark_framework/metrics/tfidf_rouge_n.py:86-97 | the loop over the reference n-grams builds nominator and denominator, then the ratio with its range assertion |
| TfidfRougeN.CalculateRecall | src/benchmark_framework/metrics/tfidf_rouge_n.py:74-97 | `calculate_recall` equals the reference recall of the normalised texts |
| TfidfRougeN.TokenRecall | src/benchmark_framework/metrics/tfidf_rouge_n.py:78-97 | the same, once both texts are normalised |
| TfidfRougeN.SumsBounds | src/benchmark_framework/metrics/tfidf_rouge_n.py:89-93 | with non-negative weights, the nominator lies between 0 and the denominator |
| TfidfRougeN.SumsOfCovered | src/benchmark_framework/metrics/tfidf_rouge_n.py:89-93 | where the prediction has each n-gram at least as often as the reference, nominator and denominator agree |
| TfidfRougeN.SumsOfDisjoint | src/benchmark_framework/metrics/tfidf_rouge_n.py:89-93 | where the prediction has none of the n-grams, the nominator is 0 |
| TfidfRougeN.TermsBounds | src/benchmark_framework/metrics/tfidf_rouge_n.py:90-93 | one n-gram adds at least 0 to the nominator and no more than it adds to the denominator |
| TfidfRougeN.SumsPositive | src/benchmark_framework/metrics/tfidf_rouge_n.py:89-96 | with a weighted reference n-gram the denominator is positive, so the division is defined |
| TfidfRougeN.RecallFromGramsInUnit | src/benchmark_framework/metrics/tfidf_rouge_n.py:89-97 | once every reference n-gram has a weight, the recall exists and lies in [0, 1] |
| TfidfRougeN.GramsWeighted | src/benchmark_framework/metrics/tfidf_rouge_n.py:117-133 | with positive weights for every reference token, every reference n-gram has a positive weight |
| TfidfRougeN.KnownReferenceWeights | src/benchmark_framework/metrics/tfidf_rouge_n.py:99-133 | with every reference token known and of positive IDF, the weights exist, are positive, and give every reference n-gram a positive weight |
| TfidfRougeN.KnownIsWeighable | src/benchmark_framework/metrics/tfidf_rouge_n.py:99-115 | a reference whose tokens are all known is weighable |
| TfidfRougeN.AsWrittenNonNegative | src/benchmark_framework/metrics/tfidf_rouge_n.py:109-113 | over a table of positive IDFs and without empty tokens, the weights exist and are non-negative, unknown tokens included |
| TfidfRougeN.AsWrittenMaxPositive | src/benchmark_framework/metrics/tfidf_rouge_n.py:122-123 | one known reference token makes the largest weight positive, so `max_weight > 0.0` holds |
| TfidfRougeN.WeighableReferenceWeights | src/benchmark_framework/metrics/tfidf_rouge_n.py:99-133 | for a weighable reference the weights exist, are non-negative, and every reference n-gram gets a weight without an assertion failing |
| TfidfRougeN.ScaledSumOfPositiveToken | src/benchmark_framework/metrics/tfidf_rouge_n.py:126-128 | one token of positive weight among non-negative ones makes an n-gram's scaled sum positive |
| TfidfRougeN.ScaledSumNonNegative | src/benchmark_framework/metrics/tfidf_rouge_n.py:126-128 | with non-negative weights the scaled sum is non-negative |
| TfidfRougeN.SumsOfPositiveGram | src/benchmark_framework/metrics/tfidf_rouge_n.py:89-96 | one reference n-gram of positive weight among non-negative ones makes the denominator positive |
| TfidfRougeN.GramAround | src/benchmark_framework/metrics/rouge_n.py:97-100 | every reference token lies in some reference n-gram once the reference has at least n tokens |
| TfidfRougeN.GramOfPositiveToken | src/benchmark_framework/metrics/tfidf_rouge_n.py:117-133 | an n-gram holding a token of positive weight among non-negative ones has a positive weight |
| TfidfRougeN.PositiveGram | src/benchmark_framework/metrics/tfidf_rouge_n.py:117-133 | a weighable reference of at least n tokens has an n-gram of positive weight, the window holding a known token |
| TfidfRougeN.RecallInUnit | src/benchmark_framework/metrics/tfidf_rouge_n.py:74-97 | for n from 1 and a weighable reference, `calculate_recall` raises nothing and returns a value in [0, 1] |
| TfidfRougeN.UnknownReferenceFails | src/benchmark_framework/metrics/tfidf_rouge_n.py:122-123 | a reference of at least n tokens, none of them known, weighs 0 throughout, so `assert max_weight > 0.0` fails |
| TfidfRougeN.UnknownTokenRecalled | src/benchmark_framework/metrics/tfidf_rouge_n.py:109-113 | "a b" against a table knowing only "a" recalls itself with 1.0 as written, while the corrected weights raise for "b" |
| TfidfRougeN.RecallErrors | src/benchmark_framework/metrics/tfidf_rouge_n.py:81-123 | n below 1 fails with the n-gram error, then a missing code with the code assertion, then an empty reference token with the length assertion, then a reference of at least n tokens with no known token with the `max_weight` assertion |
| TfidfRougeN.RecallOfCoveredReference | src/benchmark_framework/metrics/tfidf_rouge_n.py:74-97 | for a weighable reference of at least n tokens, a prediction holding every reference n-gram at least as often has recall 1 |
| TfidfRougeN.RecallOfIdentical | src/benchmark_framework/metrics/tfidf_rouge_n.py:74-97 | a weighable reference of at least n tokens recalls itself completely |
| TfidfRougeN.RecallOfDisjoint | src/benchmark_framework/metrics/tfidf_rouge_n.py:74-97 | a prediction sharing no n-gram with the reference has recall 0 |
| TfidfRougeN.RecallOfEmptyPrediction | src/benchmark_framework/metrics/tfidf_rouge_n.py:74-97 | an empty prediction recalls nothing |
| TfidfRougeN.RecallOfEmptyReference | src/benchmark_framework/metrics/tfidf_rouge_n.py:74-97 | against an empty reference the recall is 0, whatever the table holds |
| TfidfRougeN.Recalls | src/benchmark_framework/metrics/tfidf_rouge_n.py:62-64 | one recall per n-gram length of the loop |
| TfidfRougeN.RecallAtInUnit | src/benchmark_framework/metrics/tfidf_rouge_n.py:64 | for a weighable reference, each of these recalls exists and lies in [0, 1] |
| TfidfRougeN.WeighableReferenceRecalls | src/benchmark_framework/metrics/tfidf_rouge_n.py:62-66 | for a weighable reference, every recall of the loop lies in [0, 1] |
| TfidfRougeN.RecallAt | src/benchmark_framework/metrics/tfidf_rouge_n.py:64 | the recall computed for one n-gram length of the loop |
| TfidfRougeN.AccumulatedErrorSticks | src/benchmark_framework/metrics/tfidf_rouge_n.py:62-66 | once a recall raises, that error ends the whole loop |
| TfidfRougeN.Compute | src/benchmark_framework/metrics/tfidf_rouge_n.py:49-72 | `_compute` equals the reference score of the normalised texts |
| TfidfRougeN.TokenScore | src/benchmark_framework/metrics/tfidf_rouge_n.py:54-72 | the same once the texts are normalised: 0 when either has no token, otherwise the importance-weighted mean of the recalls with the two assertions |
| TfidfRougeN.AccumulateRecalls | src/benchmark_framework/metrics/tfidf_rouge_n.py:59-66 | the loop gives the weighted sum and total weight of the applicable importances, or the first recall error |
| TfidfRougeN.AccumulatedBounds | src/benchmark_framework/metrics/tfidf_rouge_n.py:62-66 | with recalls in [0, 1], the weighted sum stays between 0 and the total weight, and the total weight is positive exactly when an importance applied |
| TfidfRougeN.AccumulatedOfOnes | src/benchmark_framework/metrics/tfidf_rouge_n.py:62-66 | recalls of 1 at every applicable length make the weighted sum equal the total weight |
| TfidfRougeN.ScoreInUnit | src/benchmark_framework/metrics/tfidf_rouge_n.py:49-72 | for a weighable reference and an importance that applies, `_compute` raises nothing and scores in [0, 1] |
| TfidfRougeN.DefaultScoreInUnit | src/benchmark_framework/metrics/tfidf_rouge_n.py:13-17 | with the default importances `[1, 1, 1]` two texts with a weighable reference always score in [0, 1] |
| TfidfRougeN.NoApplicableImportance | src/benchmark_framework/metrics/tfidf_rouge_n.py:68 | when both texts have tokens but no importance applies, the total-weight assertion fails |
| TfidfRougeN.EmptyTextScoresZero | src/benchmark_framework/metrics/tfidf_rouge_n.py:54-57 | an empty text on either side scores 0 before anything is looked up |
| TfidfRougeN.IdenticalScoresOne | src/benchmark_framework/metrics/tfidf_rouge_n.py:49-72 | a text scores 1 against itself once an importance applies and the reference is weighable |
| TfidfRougeN.ScoreOfOkInUnit | src/benchmark_framework/metrics/tfidf_rouge_n.py:70-72 | whatever `_compute` returns lies in [0, 1] |
| TfidfRougeN.AccumulatedAllFail | src/benchmark_framework/metrics/tfidf_rouge_n.py:62-66 | when every recall raises `e`, the loop raises `e` once an importance applies |
| TfidfRougeN.ScoreWithoutCode | src/benchmark_framework/metrics/tfidf_rouge_n.py:104-106 | a code missing from the lookup makes `_compute` raise the missing-code assertion |
| CalculateStats.BlankIffMissingOrWhitespace | src/benchmark_framework/stats/calculate_stats.py:37 | a model field counts as blank exactly when it is absent or only whitespace |
| CalculateStats.ComputeStats | src/benchmark_framework/stats/calculate_stats.py:8-59 | the loop computes the reference statistics of the rows |
| CalculateStats.CountRow | src/benchmark_framework/stats/calculate_stats.py:26-38 | one row adds 1 to each counter whose condition it meets |
| CalculateStats.AddRowMetrics | src/benchmark_framework/stats/calculate_stats.py:40-43 | one row adds each of its text metrics to that metric's sum |
| CalculateStats.AddScaled | src/benchmark_framework/stats/calculate_stats.py:41-43 | `sums[name] += value * factor` on a `defaultdict(float)`: the keys of both maps, each the old sum plus the scaled new value |
| CalculateStats.StatsOfEmpty | src/benchmark_framework/stats/calculate_stats.py:12-18 | an empty file gives zero rates, no text metrics and no questions |
| CalculateStats.StatsRate | src/benchmark_framework/stats/calculate_stats.py:45-58 | `questions_count` is the number of rows and each rate is the fraction of rows meeting its condition |
| CalculateStats.StatsRateCount | src/benchmark_framework/stats/calculate_stats.py:45-47 | each rate times the number of rows is the number of qualifying rows |
| CalculateStats.TextAverageScales | src/benchmark_framework/stats/calculate_stats.py:49-52 | a text-metric average times the number of all rows is the metric's sum, so it divides by every row and not only by those reporting it |
| CalculateStats.StatsRatesInUnit | src/benchmark_framework/stats/calculate_stats.py:45-47 | every rate lies in [0, 1] |
| CalculateStats.MissingAccuracyIsIncorrect | src/benchmark_framework/stats/calculate_stats.py:26-30 | a row without `accuracy_metrics` counts as a wrong answer and a wrong legal basis |
| CalculateStats.TextAverageInUnit | src/benchmark_framework/stats/calculate_stats.py:49-52 | an average stays in [0, 1] when every reported value does |
| CalculateStats.HalfReportedMetric | src/benchmark_framework/stats/calculate_stats.py:49-52 | a metric reported by one of two rows is halved |
| CalculateStats.AggregateResults | src/benchmark_framework/stats/calculate_stats.py:62-108 | the loop computes the reference aggregate: `{}` for no results, ValueError when the total count is 0, the question-weighted means otherwise |
| CalculateStats.AddRates | src/benchmark_framework/stats/calculate_stats.py:75-87 | a result with no questions is skipped; any other adds its count and its rates weighted by that count |
| CalculateStats.AddTextMetrics | src/benchmark_framework/stats/calculate_stats.py:75-90 | a result with no questions is skipped; any other adds each text metric weighted by its count |
| CalculateStats.AggregateOfSums | src/benchmark_framework/stats/calculate_stats.py:92-108 | the final division of the accumulated sums gives the reference aggregate |
| CalculateStats.AggregateOfNothing | src/benchmark_framework/stats/calculate_stats.py:66-67 | `aggregate_results([])` is `{}` |
| CalculateStats.AllEmptyResultsRaise | src/benchmark_framework/stats/calculate_stats.py:75-93 | a non-empty list whose every result has no questions raises ValueError with the source's message |
| CalculateStats.AggregateRatesInUnit | src/benchmark_framework/stats/calculate_stats.py:95-99 | the aggregated rates stay in [0, 1] when every input rate does |
| CalculateStats.FileRateContribution | src/benchmark_framework/stats/calculate_stats.py:81-87 | a file's weighted contribution to a rate is its own count of qualifying rows |
| CalculateStats.FileTextContribution | src/benchmark_framework/stats/calculate_stats.py:89-90 | a file's weighted contribution to a text metric is its own sum of that metric |
| CalculateStats.AggregateTotal | src/benchmark_framework/stats/calculate_stats.py:76-80 | over the statistics of whole files, the total count is the number of all rows |
| CalculateStats.AggregateWeighted | src/benchmark_framework/stats/calculate_stats.py:81-87 | over whole files, each weighted rate sum is the count of qualifying rows of all files |
| CalculateStats.AggregateWeightedText | src/benchmark_framework/stats/calculate_stats.py:89-90 | over whole files, each weighted text sum is that metric's sum over all rows |
| CalculateStats.AggregateKeys | src/benchmark_framework/stats/calculate_stats.py:89-102 | over whole files, the aggregated text metrics are those reported by some row |
| CalculateStats.AggregateIsStatsOfAllRows | src/benchmark_framework/stats/calculate_stats.py:62-108 | aggregating several files' statistics gives the statistics of all their rows taken together, without `questions_count` |
| CalculateStats.AggregateFromSums | src/benchmark_framework/stats/calculate_stats.py:95-102 | weighted sums equal to the row counts and sums give the row statistics |
| TextFormatter.FormatCodeAbbreviation | src/common/text_formatter.py:30-32 | no dot, no space and no capital letter is left |
| TextFormatter.CodeAbbreviationIdempotent | src/common/text_formatter.py:30-32 | formatting a formatted abbreviation changes nothing |
| TextFormatter.CodeAbbreviationAppend | src/common/text_formatter.py:30-32 | formatting distributes over concatenation |
| TextFormatter.CodeAbbreviationOfChar | src/common/text_formatter.py:30-32 | a dot or a space is dropped and every other character is lower-cased |
| TextFormatter.CleanWhitespaceJoinsWords | src/common/text_formatter.py:26-28 | `clean_whitespace(t)` is `" ".join(t.split())` |
| TextFormatter.CleanWhitespaceShape | src/common/text_formatter.py:26-28 | the result is stripped, holds only single spaces as whitespace, and keeps the words |
| TextFormatter.CleanWhitespaceIdempotent | src/common/text_formatter.py:26-28 | cleaning twice is cleaning once |
| TextFormatter.CollapseRunsShape | src/common/text_formatter.py:22-23 | `re.sub(c+, c)` leaves no run of `c` longer than one and invents no character |
| TextFormatter.CollapseRunsAbsent | src/common/text_formatter.py:22-23 | where `c` does not occur the substitution changes nothing |
| TextFormatter.StripAll | src/common/text_formatter.py:12-13 | every line stripped, in order |
| TextFormatter.FormatExtractedText | src/common/text_formatter.py:8-24 | the method computes the reference `format_extracted_text` |
| TextFormatter.JoinLines | src/common/text_formatter.py:9-21 | the loop and its `"".join` build the dehyphenated join of the stripped lines |
| TextFormatter.AppendLine | src/common/text_formatter.py:13-19 | one pass appends the line without its final hyphen, or the line and (unless it is last) a space |
| TextFormatter.JoinedIsDehyphenated | src/common/text_formatter.py:12-21 | the loop's join over all lines is the reference join |
| TextFormatter.FormattedShape | src/common/text_formatter.py:8-24 | the result is stripped, has no newline (so the newline substitution changes nothing) and no two neighbouring spaces |
| TextFormatter.HyphenJoinsLines | src/common/text_formatter.py:14-15 | a word split by a hyphen over two lines is joined back together |
| TextFormatter.PlainLinesJoinWithSpace | src/common/text_formatter.py:16-19 | two lines with no hyphen at the break are joined by one space |
| TextFormatter.WithoutMembers | src/common/text_formatter.py:30-32 | deleting a character keeps exactly the other characters |
| ResponseParser.StripMarkdownCodeBlocks | src/benchmark_framework/utils/response_parser.py:5-16 | the result is stripped; text that does not open a fence is only stripped |
| Text.SplitOn | src/benchmark_framework/utils/response_parser.py:9 | `split("\n")` yields at least one part and no part holds the separator |
| Text.JoinSplitOn | src/benchmark_framework/utils/response_parser.py:9-14 | joining the parts of a split with the separator gives the text back |
| ResponseParser.UnfencedUnchanged | src/benchmark_framework/utils/response_parser.py:6-8 | text with no fence comes back stripped and otherwise unchanged |
| ResponseParser.BareFenceIsEmpty | src/benchmark_framework/utils/response_parser.py:8-14 | a fence with no newline, such as "```json", leaves nothing |
| ResponseParser.FencedBlockUnwrapped | src/benchmark_framework/utils/response_parser.py:8-14 | a fenced block with any language tag and a closing fence on its own line is unwrapped to its stripped body |
| ResponseParser.GetStripped | src/benchmark_framework/utils/response_parser.py:24 | `.get(field, default).strip()`: a missing field gives the stripped default; a non-object or a non-string field raises AttributeError |
| ResponseParser.ExtractJsonField | src/benchmark_framework/utils/response_parser.py:19-42 | the decoded reply, then the field regex, then an embedded object, then the default; any answer not the default is stripped |
| ResponseParser.DecodedReplyIgnoresSearches | src/benchmark_framework/utils/response_parser.py:22-26 | a reply that decodes is answered from the decoded value, whatever the regular expressions find |
| ResponseParser.FieldMatchIgnoresObjectSearch | src/benchmark_framework/utils/response_parser.py:28-31 | when the reply does not decode but the field regex matches, its stripped group is returned, whatever an embedded object holds |
| ResponseParser.AllFallbacksFail | src/benchmark_framework/utils/response_parser.py:33-42 | when nothing decodes and the field regex finds nothing, the default comes back unstripped |
| ResponseParser.DecodedFieldWins | src/benchmark_framework/utils/response_parser.py:22-24 | a decoded reply holding the field as a string yields it stripped |
| CorpusesConfig.MatchesOnlyArticle | src/parsers/corpuses/corpuses_config.py:17-29 | a filter matches exactly its own article; paragraph and point, of the query or the filter, make no difference |
| CorpusesConfig.ShouldSkipArticle | src/parsers/corpuses/corpuses_config.py:93-111 | false for an unconfigured year or code; otherwise true exactly when some filter of that code matches |
| CorpusesConfig.SkippedWholeArticle | src/parsers/corpuses/corpuses_config.py:25-29 | a skipped article is skipped in every paragraph and point |
| CorpusesConfig.ConfiguredCodes | src/parsers/corpuses/corpuses_config.py:44-74 | only the 2025 corpus, for the codes kks, kpc, kpsw, krio and kw, has articles to skip |
| CorpusesConfig.FamilyCodeArticle183 | src/parsers/corpuses/corpuses_config.py:66-70 | article 183 of the family code is skipped in paragraph 5 too, though only paragraphs 1 to 1^4 are listed |
| Combiner.Decimal | parsers/combiner.py:28 | a natural number written in decimal is a non-empty run of digits |
| Combiner.DecimalValue | parsers/combiner.py:28 | the digits of `n` read back as `n` |
| Combiner.ParseDecimal | parsers/combiner.py:28 | `int(str(n)) == n` for a year written out in decimal |
| Combiner.CreateUnifiedJsonl | parsers/combiner.py:4-38 | a year that is not an integer raises exactly when there is a question, with "invalid literal for int() with base 10: '<year>'"; otherwise one unified item per question, in order |
| Combiner.LastAnswerWins | parsers/combiner.py:19 | the answer dictionary holds exactly the numbers that occur, each bound to the last answer with that number |
| Combiner.UnifiedFields | parsers/combiner.py:22-34 | each item has the question number as id, the converted year and options prefixed "A) ", "B) ", "C) ", plus answer and legal basis from the last answer with that number, or "" when there is none |
| PdfParser.ValidateQuestion | parsers/pdf_parser.py:9-31 | the errors of the failed checks in check order, and valid exactly when there are none |
| PdfParser.OptionErrorsMembers | parsers/pdf_parser.py:24-26 | an option error names an option that is missing or blank |
| PdfParser.ValidIffComplete | parsers/pdf_parser.py:9-31 | valid exactly when there is a number, a non-blank text of at least ten characters and three non-blank options |
| PdfParser.CheckMessages | parsers/pdf_parser.py:18-29 | the number, text and length checks each give their message exactly when they fail |
| PdfParser.OptionMessages | parsers/pdf_parser.py:24-26 | an option's message appears exactly when that option is missing or blank |
| PdfParser.ErrorCount | parsers/pdf_parser.py:16-31 | at most six checks can fail |
| PdfParser.MessagesDistinct | parsers/pdf_parser.py:19-29 | the messages can be told apart |
| CheckQuestions.NormalizeQuestionIsCleanWhitespace | data/check_questions.py:22-27 | `None` normalises to ""; anything else normalises as `clean_whitespace` does; normalising twice is normalising once |
| CheckQuestions.LineTriples | data/check_questions.py:41-56 | one entry per line |
| CheckQuestions.AllTriplesMembers | data/check_questions.py:39-56 | a triple is loaded exactly when some exam file holds it |
| CheckQuestions.LoadExamQuestions | data/check_questions.py:30-58 | the triples of all exam files, file by file and line by line, skipping blank and undecodable lines |
| CheckQuestions.FileTriples | data/check_questions.py:41-56 | one file's triples, in line order |
| CheckQuestions.UnknownMembers | data/check_questions.py:95-96 | a triple is listed as unknown exactly when the file holds it and it is not an exam triple |
| CheckQuestions.UnknownAppend | data/check_questions.py:95-96 | one more line appends its triple to the unknown list exactly when it is not an exam triple |
| CheckQuestions.CheckFile | data/check_questions.py:70-104 | the line total; the number of distinct triples; exactly each repeated triple, once, as a duplicate; exactly each non-exam entry, in order, as unknown; the unseen exam triples, sorted, as missing; an issue exactly when the file does not hold each exam triple once and nothing else |
| CheckQuestions.Report | data/check_questions.py:98-104 | the lists and the verdict of one file, from the counter and the unknown list |
| CheckQuestions.Tally | data/check_questions.py:76-96 | the line loop: the counter holds each triple's count with its keys in insertion order, and the unknown list is complete |
| CheckQuestions.Count | data/check_questions.py:93 | `seen[triple] += 1`: a new key goes to the end of the key order |
| CheckQuestions.Duplicates | data/check_questions.py:99 | the keys counted more than once, each once |
| CheckQuestions.Missing | data/check_questions.py:100 | the exam triples not seen, sorted, without repeats |
| CheckQuestions.ListOf | data/check_questions.py:100 | `list()` of a set holds each member exactly once |
| CheckQuestions.NotDistinctIffRepeated | data/check_questions.py:99 | some triple occurs twice exactly when the triples are not distinct |
| CheckQuestions.IssueMeansNotClean | data/check_questions.py:102 | an unknown, a duplicate or a missing triple exists exactly when the file's triples are not distinct or not exactly the exam triples |
| CheckQuestions.NoIssuesIffAllClean | data/check_questions.py:61-123 | no file has an issue exactly when every file holds each exam triple exactly once and nothing else |
| CheckQuestions.CheckResultsAgainstExam | data/check_questions.py:61-123 | the number of result files with an issue: at most the number of files, and 0 exactly when every file is clean |
| CheckQuestions.ExitCode | data/check_questions.py:125-155 | 2 when the exam or results directory is missing; otherwise 0 when every result file is clean and 1 when some file is not |
| MetricConfig.AddKeys | frontend/src/lib/metricConfig.ts:27-30 | adding keys to a JavaScript Set keeps its members in insertion order, adds exactly the new keys, and holds no key twice |
| MetricConfig.ExtractMetricKeys | frontend/src/lib/metricConfig.ts:21-36 | both lists are increasing, so sorted and without duplicates, and hold exactly the accuracy and text keys of the records |
| MetricConfig.KeySetsDependOnlyOnRecords | frontend/src/lib/metricConfig.ts:27-30 | permuting or duplicating records does not change the key sets |
| MetricConfig.ExtractionDeterministic | frontend/src/lib/metricConfig.ts:21-36 | any two results meeting the contract, for inputs holding the same records, are equal |
| MetricConfig.NoRecordsNoKeys | frontend/src/lib/metricConfig.ts:21-36 | no records give two empty lists |
| MetricConfig.CapitalizeAll | frontend/src/lib/metricConfig.ts:5 | each word capitalised, in order |
| MetricConfig.LabelOfPlainWord | frontend/src/lib/metricConfig.ts:2-12 | a key without `_` is labelled by capitalising it |
| MetricConfig.LabelOfJoined | frontend/src/lib/metricConfig.ts:2-12 | the label of `x_y` is the capitalised `x`, a space and the label of `y` |
| MetricConfig.MetricLabelByPosition | frontend/src/lib/metricConfig.ts:2-12 | the label has the key's length; `_` becomes a space, each word's first character is upper-cased and every other character is kept |
| StringOrder.Sort | frontend/src/lib/metricConfig.ts:33-34 | the sorted list is in code-point order and a permutation of the input |
| StringOrder.StrictlySortedUnique | frontend/src/lib/metricConfig.ts:33-34 | two increasing lists with the same members are equal |
| Firestore.AverageMetrics | frontend/src/lib/server/firestore.ts:18-31 | the loop computes the reference average |
| Firestore.SumPresent | frontend/src/lib/server/firestore.ts:26-27 | the sum and the number of the values present for one key |
| Firestore.AverageOfNothing | frontend/src/lib/server/firestore.ts:19 | averaging no records gives `{}` |
| Firestore.AverageIsMeanOverPresent | frontend/src/lib/server/firestore.ts:21-28 | the keys are exactly the union of the input keys; each value is the mean over the records holding the key |
| Firestore.MissingKeyIsNotZero | frontend/src/lib/server/firestore.ts:26 | a record lacking a key does not change that key's average |
| Firestore.AverageOfOne | frontend/src/lib/server/firestore.ts:18-31 | a single record averages to itself |
| Firestore.AverageWithinBounds | frontend/src/lib/server/firestore.ts:26-27 | each average lies within any bounds on the values present for its key, such as their minimum and maximum |
| Firestore.ToModelSummary | frontend/src/lib/server/firestore.ts:34-41 | copies id, name and the Polish flag; a missing config becomes `{}` |
| Firestore.AccuracyColumn | frontend/src/lib/server/firestore.ts:63-67 | the accuracy metrics of each exam, in order |
| Firestore.TextColumn | frontend/src/lib/server/firestore.ts:63-67 | the text metrics of each exam, in order |
| Firestore.GetAggregatedExams | frontend/src/lib/server/firestore.ts:44-77 | the loop builds the reference exam leaderboard |
| Firestore.GetAllJudgments | frontend/src/lib/server/firestore.ts:80-107 | the loop builds the reference judgment leaderboard |
| Firestore.ExamLeaderboardMembers | frontend/src/lib/server/firestore.ts:48-74 | exactly one entry, holding the averaged metrics, for each model with exam documents |
| Firestore.JudgmentLeaderboardMembers | frontend/src/lib/server/firestore.ts:84-104 | exactly one entry for each model with a `judgments/all` document |
| Firestore.NoExamsOnlyJudgments | frontend/src/lib/server/firestore.ts:58-96 | a model without exams is absent from the exam leaderboard, yet listed on the judgment leaderboard when it has a judgment |
| DataTable.EffectiveSortKey | frontend/src/components/tables/DataTableClient.tsx:41 | the chosen key, otherwise the first accuracy key, otherwise none |
| DataTable.SortValue | frontend/src/components/tables/DataTableClient.tsx:48-49 | the accuracy metric, else the text metric, else 0 |
| DataTable.SortRows | frontend/src/components/tables/DataTableClient.tsx:47-51 | the sorted copy is in the chosen direction and a permutation of the rows |
| DataTable.SortRowsStable | frontend/src/components/tables/DataTableClient.tsx:47-51 | the rows of any one value keep their input order |
| DataTable.StableSortUnique | frontend/src/components/tables/DataTableClient.tsx:47-51 | any arrangement sorted the same way and keeping each value's rows in input order is the result of the sort |
| DataTable.SortedRowsSpec | frontend/src/components/tables/DataTableClient.tsx:44-52 | with no usable key the rows keep their order; otherwise a stable permutation sorted by the effective column in the chosen direction |
| DataTable.Click | frontend/src/components/tables/DataTableClient.tsx:54-61 | the chosen key flips the direction; another key is chosen, descending |
| DataTable.SortState.constructor | frontend/src/components/tables/DataTableClient.tsx:31-32 | initially no column is chosen and the direction is descending |
| DataTable.SortState.HandleSort | frontend/src/components/tables/DataTableClient.tsx:54-61 | the new state is Click of the old one |
| DataTable.ClickTwiceRestores | frontend/src/components/tables/DataTableClient.tsx:55-56 | clicking the chosen column twice restores the direction |
| DataTable.ClickNewColumnDescends | frontend/src/components/tables/DataTableClient.tsx:57-59 | clicking another column always starts descending |
| DataTable.FirstClickOnDefaultColumn | frontend/src/components/tables/DataTableClient.tsx:41-60 | the first click on the default column leaves the effective column and the descending order as they were |
| DataTable.SecondClickOnDefaultColumn | frontend/src/components/tables/DataTableClient.tsx:41-60 | only the second click on the default column sorts ascending |
| DataTable.Ranks | frontend/src/components/tables/DataTableClient.tsx:151 | the ranks are exactly 1 to the number of rows, one per row, rising in display order |
| DataTable.RankOrder | frontend/src/components/tables/DataTableClient.tsx:144-151 | a smaller rank never has a worse value in the chosen direction |
| DataTable.TopRankIsBest | frontend/src/components/tables/DataTableClient.tsx:44-51 | in the default descending order, rank 1 has the highest value of all rows |

## Left out

- **I/O and external calls.** Reading files, directories, PDFs and Firestore,
  and all printing, are left out. What they produce becomes input:
  loaded rows, fetched documents, decoded JSON values and regular-expression
  matches. This covers `FileOperations.load_jsonl`, `pdfplumber`, `adminDb`,
  `json.loads`, the two `re.search` calls of `extract_json_field` and the
  report lines of `check_results_against_exam`.
- **`build_idf_lookup`.** The per-code IDF tables are an input map, because
  computing them needs file reading and `math.log`.
- **`parse_questions`, `collect_yearly_stats`, `calculate_stats_for_path`,
  `getModelDetail`, `getAllModelIds` and `formatMetricValue`.** These are file,
  regular-expression, fetch or number-formatting glue around the modelled
  functions.
- **`START_PAGE`.** It is a constant table that no modelled function reads.
- **Floating point.** Floats are `real`: rounding, NaN and infinity are not
  modelled. ROUGE-W's `k ** alpha` and `v ** (1 / alpha)` are parameters `f`
  and `finv`. The properties that need them assume a non-decreasing `f` with
  `finv` inverting it.
- **Character classes.** Whitespace is Python's `isspace` restricted to
  Latin-1. `lower()` and `toUpperCase()` map ASCII letters only.
- **`int()` edge cases.** `int(year)` accepts surrounding whitespace, an
  optional sign and decimal digits. Underscores between digits and non-ASCII
  digits are not accepted.
- **Dictionary order.** The order of dictionary keys is not modelled where
  nothing observable depends on it. The TF-IDF sums are proved independent of
  it (`TfidfRougeN.SumsRemove`). The duplicate list keeps the `Counter`
  insertion order.
- **Laziness.** `score_batch` is a generator. `Scoring.ScoreBatch` drains it:
  the length check and each pair's error are reported at once, not when a
  score is requested.
- **Exception types.** Errors are the `Err` case of `Result`, carrying the
  message: a bare `assert` gives "AssertionError". The exception types are not
  kept apart beyond that text.
- `RougeW.Clamp`: its messages leave out the offending value, giving
  "Recall is significantly below 0" where rouge_w.py:93 formats the float
  into the text, because float formatting is not modelled. The same holds at
  rouge_w.py:97, :114 and :118.
- `TfidfRougeN.CalculateRecall`: like `TfidfRougeN.TokenRecall`,
  `TfidfRougeN.RecallErrors`, `TfidfRougeN.Recalls`, `TfidfRougeN.RecallAt`,
  `TfidfRougeN.AccumulateRecalls`, `TfidfRougeN.TokenScore` and
  `TfidfRougeN.Compute`, it takes its n-grams from the corrected
  `RougeN.GetNGrams`, not from the missing `RougeNMetric.get_ngrams` that
  tfidf_rouge_n.py:81-82 calls (third Findings row). So `RecallErrors`' first
  clause, the ValueError for n below 1, is the corrected behaviour; as
  written, `_get_ngrams` would count the empty n-gram there. From n = 1 up
  the two extractions agree, and `_compute` only reaches n from 1 through
  `enumerate(importances, start=1)`.
- `Combiner.CreateUnifiedJsonl`: its error message, `Combiner.YearError`,
  quotes the year as `'year'`. Python's `repr` would switch to double quotes
  or escape characters for a year holding a quote, a backslash or a control
  character; that is not modelled.
- `CheckQuestions.CheckFile`: a line that decodes to JSON but not to an object
  (a list, a number, a string) is outside the model. There `obj.get` raises
  AttributeError at check_questions.py:51 and :89. A `Row` is either an object
  or a line that fails to decode.
- **Dead lines in `ArticleFilter.matches`.** Lines 31-39 of
  corpuses_config.py are unreachable after the early `return True`. The
  model follows the code: only the article is compared, even though the
  docstring promises paragraph and point matching.
- **JavaScript Set order.** `Array.from(set).sort()` is modelled on the Set's
  members, kept in insertion order. `metricDescriptions` and the tooltip are
  display only.
- `CheckQuestions.CheckFile`: the `seen_lines` list of line numbers is not
  modelled, because it only feeds printed output.
- `CheckQuestions.ExitCode`: `main`'s argument parsing is replaced by two
  flags saying whether the exam and results directories exist.
- `CalculateStats.ComputeStats`: `assert isinstance(metric_value, (int,
  float))` is not modelled, because text-metric values are `real` by
  construction.
- `CalculateStats.AggregateResults`: the results are the `calculate_stats`
  dictionaries, so the `KeyError` of a result without `accuracy_metrics` is
  not modelled.
- `RougeW.Rate`: its contract bounds the rate to [0, 1].
  `RougeW.RatesOfNondecreasingWeight` and `RougeW.Clamp` state the full
  computation.

## Findings

| source | as written | input that shows it | evidently intended | confidence | as-written member | corrected member |
|---|---|---|---|---|---|---|
| src/benchmark_framework/metrics/rouge_n.py:96-100 | `_get_ngrams(tokens, 0)` returns `Counter({(): len(tokens) + 1})` | tokens `["a"]`, n = 0 gives the empty n-gram counted twice | n below 1 raises ValueError "n must be > 0, got 0", as src/benchmark_framework/metrics/tests/test_rouge_n.py:67 expects | not executed | RougeN.EmptyGramCounted | RougeN.GetNGramsChecked |
| src/benchmark_framework/metrics/tfidf_rouge_n.py:109-113 | a reference token missing from the IDF table gets `idf_dict.get(token, 0)`, weight 0 | reference `["unknown"]` with a table lacking "unknown" gives weight 0 and no error | an unknown token raises ValueError "Token 'unknown' not found in ... IDF lookup", as src/benchmark_framework/metrics/tests/test_tfidf_rouge_n.py:138 expects | not executed | TfidfRougeN.UnknownTokenRecalled | TfidfRougeN.TokensTfidfChecked |
| src/benchmark_framework/metrics/tfidf_rouge_n.py:81-82 | `calculate_recall` calls `RougeNMetric.get_ngrams`, but rouge_n.py:97 defines only `_get_ngrams` | any call of `calculate_recall`, for example on "a" and "a" with n = 1 | the n-gram extraction of rouge_n.py, with the n check its tests expect | not executed | RougeN.CalledNameMissing | RougeN.GetNGramsChecked |
