/**
 * The exact-match metric (src/benchmark_framework/metrics/exact_match.py):
 * 1 when the two texts normalise to the same tokens, 0 otherwise.
 */
module ExactMatch {
  import opened Text
  import opened BaseMetric

  /** `ExactMatchMetric._compute`. */
  function Score(prediction: string, reference: string): real {
    if NormalizedWords(prediction) == NormalizedWords(reference) then 1.0 else 0.0
  }

  /** The score is 1 exactly when the token lists agree, 0 exactly when they differ, and never anything else. */
  lemma ScoreMeaning(prediction: string, reference: string)
    ensures Score(prediction, reference) == 1.0 <==> NormalizedWords(prediction) == NormalizedWords(reference)
    ensures Score(prediction, reference) == 0.0 <==> NormalizedWords(prediction) != NormalizedWords(reference)
    ensures Score(prediction, reference) == 0.0 || Score(prediction, reference) == 1.0
  {
  }

  lemma Reflexive(text: string)
    ensures Score(text, text) == 1.0
  {
  }

  lemma Symmetric(prediction: string, reference: string)
    ensures Score(prediction, reference) == Score(reference, prediction)
  {
  }

  /** Two texts that hold no token at all (empty, blank or only punctuation) match. */
  lemma EmptyTextsMatch(prediction: string, reference: string)
    requires NormalizedWords(prediction) == [] && NormalizedWords(reference) == []
    ensures Score(prediction, reference) == 1.0
  {
  }

  /** A text matches its lower-cased form. */
  lemma CaseInsensitive(text: string)
    ensures Score(Lower(text), text) == 1.0
  {
    CaseIgnored(text);
  }

  /** A text matches itself with its punctuation deleted. */
  lemma PunctuationInsensitive(text: string)
    ensures Score(RemovePunctuation(text), text) == 1.0
  {
    PunctuationIgnored(text);
  }

  /**
   * The kind of whitespace between two parts makes no difference: joining
   * them with any whitespace character matches joining them with one space.
   */
  lemma WhitespaceInsensitive(a: string, c: char, b: string)
    requires IsSpace(c)
    ensures Score(a + [c] + b, a + " " + b) == 1.0
  {
    SeparatedTexts(a, c, b);
    SeparatedTexts(a, ' ', b);
  }

  /** Neither does extra whitespace: a doubled separator matches a single one. */
  lemma RepeatedWhitespaceInsensitive(a: string, c: char, b: string)
    requires IsSpace(c)
    ensures Score(a + [c] + [c] + b, a + [c] + b) == 1.0
  {
    var ac := a + [c];
    assert a + [c] + [c] + b == ac + [c] + b;
    SeparatedTexts(ac, c, b);
    TrailingSpaceIgnored(a, c);
    SeparatedTexts(a, c, b);
  }

  lemma TrailingSpaceIgnored(a: string, c: char)
    requires IsSpace(c)
    ensures NormalizedWords(a + [c]) == NormalizedWords(a)
  {
    var e: string := [];
    SeparatedTexts(a, c, e);
    assert a + [c] + e == a + [c];
    NormalizedEmpty();
  }
}
