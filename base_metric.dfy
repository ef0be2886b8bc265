/**
 * Token normalisation shared by every metric
 * (src/benchmark_framework/metrics/base_metric.py, `get_normalized_words`):
 * newlines become spaces, every ASCII punctuation character except `^` is
 * deleted, the text is stripped, lower-cased and split on whitespace.
 */
module BaseMetric {
  import opened Text

  /**
   * A character of Python's `string.punctuation` other than `^`: the ASCII
   * ranges `!`..`/`, `:`..`@`, `[`..`` ` `` and `{`..`~`, without `^` (94).
   */
  predicate IsPunctuation(c: char) {
    (33 <= c as int <= 47) || (58 <= c as int <= 64) || (91 <= c as int <= 96 && c as int != 94) ||
    (123 <= c as int <= 126)
  }

  /** `text.replace("\n", " ")`. */
  function ReplaceNewlines(s: string): (r: string)
    ensures |r| == |s|
    ensures forall i :: 0 <= i < |s| ==> r[i] == (if s[i] == '\n' then ' ' else s[i])
  {
    seq(|s|, i requires 0 <= i < |s| => if s[i] == '\n' then ' ' else s[i])
  }

  /** `.translate(translator)`: deletes the punctuation characters and keeps the rest in order. */
  function RemovePunctuation(s: string): (r: string)
    ensures |r| <= |s|
    ensures forall i :: 0 <= i < |r| ==> !IsPunctuation(r[i])
  {
    if s == [] then []
    else (if IsPunctuation(s[0]) then [] else [s[0]]) + RemovePunctuation(s[1..])
  }

  /** A character survives exactly when it occurs in the input and is not punctuation. */
  lemma {:induction false} RemovePunctuationMembers(s: string, c: char)
    ensures c in RemovePunctuation(s) <==> c in s && !IsPunctuation(c)
  {
    if s != [] {
      RemovePunctuationMembers(s[1..], c);
      assert s == [s[0]] + s[1..];
    }
  }

  /** `get_normalized_words`. */
  function NormalizedWords(text: string): seq<string> {
    Split(Lower(Strip(RemovePunctuation(ReplaceNewlines(text)))))
  }

  lemma NormalizedEmpty()
    ensures NormalizedWords([]) == []
  {
    var e: string := [];
    assert ReplaceNewlines(e) == e;
    assert RemovePunctuation(e) == e;
    assert Strip(e) == e;
    assert Lower(e) == e;
  }

  /** A token produced by normalisation. */
  predicate IsToken(w: string) {
    IsWord(w) && IsLower(w) && forall i :: 0 <= i < |w| ==> !IsPunctuation(w[i])
  }

  /**
   * Tokens are non-empty, contain no whitespace (so no newline), no
   * punctuation other than `^`, and no capital letter.
   */
  lemma NormalizedTokens(text: string)
    ensures forall i :: 0 <= i < |NormalizedWords(text)| ==> IsToken(NormalizedWords(text)[i])
  {
    var cleaned := RemovePunctuation(ReplaceNewlines(text));
    var stripped := Strip(cleaned);
    StripChars(cleaned);
    var lowered := Lower(stripped);
    forall c | c in lowered ensures !IsPunctuation(c) && !('A' <= c <= 'Z') {
      var k :| 0 <= k < |lowered| && lowered[k] == c;
      assert stripped[k] in cleaned;
    }
    SplitChars(lowered);
  }

  lemma StripChars(s: string)
    ensures forall c :: c in Strip(s) ==> c in s
  {
    var l := LStrip(s);
    LStripShape(s);
    RStripShape(l);
    assert forall c :: c in l ==> c in s;
    assert forall c :: c in RStrip(l) ==> c in l;
  }

  lemma {:induction false} RemovePunctuationIdentity(s: string)
    requires forall i :: 0 <= i < |s| ==> !IsPunctuation(s[i])
    ensures RemovePunctuation(s) == s
  {
    if s != [] {
      RemovePunctuationIdentity(s[1..]);
      assert [s[0]] + s[1..] == s;
    }
  }

  /**
   * Normalisation is idempotent: normalising the tokens joined by single
   * spaces gives the same tokens.
   */
  lemma NormalizationIdempotent(text: string)
    ensures NormalizedWords(JoinWith(NormalizedWords(text), " ")) == NormalizedWords(text)
  {
    NormalizedTokens(text);
    TokensNormalizeToThemselves(NormalizedWords(text));
  }

  /** Tokens joined by single spaces normalise back to themselves. */
  lemma TokensNormalizeToThemselves(ws: seq<string>)
    requires forall i :: 0 <= i < |ws| ==> IsToken(ws[i])
    ensures NormalizedWords(JoinWith(ws, " ")) == ws
  {
    var j := JoinWith(ws, " ");
    JoinedTokensClean(ws);
    JoinedWordsShape(ws);
    StrippedStripsToItself(j);
    LowerOfLower(j);
    SplitJoin(ws);
  }

  lemma JoinedTokensClean(ws: seq<string>)
    requires forall i :: 0 <= i < |ws| ==> IsToken(ws[i])
    ensures RemovePunctuation(ReplaceNewlines(JoinWith(ws, " "))) == JoinWith(ws, " ")
    ensures IsLower(JoinWith(ws, " "))
  {
    var j := JoinWith(ws, " ");
    JoinedTokensChars(ws, j);
    assert ReplaceNewlines(j) == j;
    RemovePunctuationIdentity(j);
  }

  /** No character of tokens joined by spaces is a newline, a punctuation character or a capital. */
  lemma JoinedTokensChars(ws: seq<string>, j: string)
    requires forall i :: 0 <= i < |ws| ==> IsToken(ws[i])
    requires j == JoinWith(ws, " ")
    ensures forall k :: 0 <= k < |j| ==> j[k] != '\n' && !IsPunctuation(j[k]) && !('A' <= j[k] <= 'Z')
  {
    forall k | 0 <= k < |j| ensures j[k] != '\n' && !IsPunctuation(j[k]) && !('A' <= j[k] <= 'Z') {
      JoinChars(ws, " ", j[k]);
      if j[k] != ' ' {
        var i :| 0 <= i < |ws| && j[k] in ws[i];
        var m :| 0 <= m < |ws[i]| && ws[i][m] == j[k];
      }
    }
  }

  lemma {:induction false} RemovePunctuationLower(s: string)
    ensures RemovePunctuation(Lower(s)) == Lower(RemovePunctuation(s))
  {
    if s != [] {
      assert Lower(s)[1..] == Lower(s[1..]);
      RemovePunctuationLower(s[1..]);
      assert IsPunctuation(LowerChar(s[0])) <==> IsPunctuation(s[0]);
      var rest := RemovePunctuation(s[1..]);
      if !IsPunctuation(s[0]) {
        LowerAppend([s[0]], rest);
      }
    }
  }

  /** Capital letters make no difference: a text and its lower-cased form have the same tokens. */
  lemma CaseIgnored(text: string)
    ensures NormalizedWords(Lower(text)) == NormalizedWords(text)
  {
    assert ReplaceNewlines(Lower(text)) == Lower(ReplaceNewlines(text));
    var r := ReplaceNewlines(text);
    RemovePunctuationLower(r);
    StripLower(RemovePunctuation(r));
    var x := Strip(RemovePunctuation(r));
    LowerIsLower(x);
    LowerOfLower(Lower(x));
  }

  lemma {:induction false} RemovePunctuationIdempotent(s: string)
    ensures RemovePunctuation(RemovePunctuation(s)) == RemovePunctuation(s)
  {
    RemovePunctuationIdentity(RemovePunctuation(s));
  }

  lemma {:induction false} RemovePunctuationNewlines(s: string)
    ensures RemovePunctuation(ReplaceNewlines(s)) == ReplaceNewlines(RemovePunctuation(s))
  {
    if s != [] {
      assert ReplaceNewlines(s)[1..] == ReplaceNewlines(s[1..]);
      RemovePunctuationNewlines(s[1..]);
      var rest := RemovePunctuation(s[1..]);
      if !IsPunctuation(s[0]) {
        assert ReplaceNewlines([s[0]] + rest) == ReplaceNewlines([s[0]]) + ReplaceNewlines(rest);
      }
    }
  }

  /** Punctuation makes no difference: deleting it first gives the same tokens. */
  lemma PunctuationIgnored(text: string)
    ensures NormalizedWords(RemovePunctuation(text)) == NormalizedWords(text)
  {
    RemovePunctuationNewlines(text);
    RemovePunctuationIdempotent(ReplaceNewlines(text));
    RemovePunctuationNewlines(RemovePunctuation(text));
  }

  lemma RemovePunctuationAppend(a: string, b: string)
    ensures RemovePunctuation(a + b) == RemovePunctuation(a) + RemovePunctuation(b)
  {
    if a == [] {
      assert a + b == b;
    } else {
      assert (a + b)[1..] == a[1..] + b;
      RemovePunctuationAppend(a[1..], b);
    }
  }

  /**
   * Whitespace separates: the tokens of two texts joined by any whitespace
   * character are the tokens of the first followed by those of the second,
   * so the amount and kind of whitespace between words makes no difference.
   */
  lemma SeparatedTexts(a: string, c: char, b: string)
    requires IsSpace(c)
    ensures NormalizedWords(a + [c] + b) == NormalizedWords(a) + NormalizedWords(b)
  {
    var c' := if c == '\n' then ' ' else c;
    assert ReplaceNewlines(a + [c] + b) == ReplaceNewlines(a) + [c'] + ReplaceNewlines(b);
    var ra, rb := ReplaceNewlines(a), ReplaceNewlines(b);
    RemovePunctuationAppend(ra + [c'], rb);
    RemovePunctuationAppend(ra, [c']);
    assert RemovePunctuation([c']) == [c'];
    var pa, pb := RemovePunctuation(ra), RemovePunctuation(rb);
    assert RemovePunctuation(ra + [c'] + rb) == pa + [c'] + pb;
    NormalizedSkipsStrip(pa + [c'] + pb);
    NormalizedSkipsStrip(pa);
    NormalizedSkipsStrip(pb);
    LowerAppend(pa + [c'], pb);
    LowerAppend(pa, [c']);
    LowerCharSpace(c');
    var la, lb := Lower(pa), Lower(pb);
    assert Lower([c']) == [LowerChar(c')];
    assert Lower(pa + [c'] + pb) == la + [LowerChar(c')] + lb;
    SplitConcat(la, LowerChar(c'), lb);
  }

  /** The strip step never changes the split. */
  lemma NormalizedSkipsStrip(p: string)
    ensures Split(Lower(Strip(p))) == Split(Lower(p))
  {
    StripLower(p);
    SplitStrip(Lower(p));
  }

  /** The cleaning before the split: newlines to spaces, punctuation deleted, lower-cased. */
  function Cleaned(s: string): string {
    Lower(RemovePunctuation(ReplaceNewlines(s)))
  }

  lemma NormalizedIsSplitOfCleaned(s: string)
    ensures NormalizedWords(s) == Split(Cleaned(s))
  {
    NormalizedSkipsStrip(RemovePunctuation(ReplaceNewlines(s)));
  }

  lemma CleanedAppend(a: string, b: string)
    ensures Cleaned(a + b) == Cleaned(a) + Cleaned(b)
  {
    assert ReplaceNewlines(a + b) == ReplaceNewlines(a) + ReplaceNewlines(b);
    RemovePunctuationAppend(ReplaceNewlines(a), ReplaceNewlines(b));
    LowerAppend(RemovePunctuation(ReplaceNewlines(a)), RemovePunctuation(ReplaceNewlines(b)));
  }

  /** A blank text stays blank through the cleaning. */
  lemma CleanedBlank(t: string)
    requires Blank(t)
    ensures Blank(Cleaned(t))
  {
    var r := ReplaceNewlines(t);
    assert forall i :: 0 <= i < |r| ==> IsSpace(r[i]);
    var p := RemovePunctuation(r);
    forall i | 0 <= i < |p| ensures IsSpace(Lower(p)[i]) {
      RemovePunctuationMembers(r, p[i]);
      var j :| 0 <= j < |r| && r[j] == p[i];
      LowerCharSpace(p[i]);
    }
  }

  predicate Blank(t: string) {
    forall i :: 0 <= i < |t| ==> IsSpace(t[i])
  }

  /** A text is its stripped form between two runs of whitespace. */
  lemma StripParts(text: string) returns (pre: string, post: string)
    ensures text == pre + Strip(text) + post && Blank(pre) && Blank(post)
  {
    pre := LeadingBlank(text);
    post := TrailingBlank(LStrip(text));
    assert text == pre + (Strip(text) + post);
  }

  lemma LeadingBlank(text: string) returns (pre: string)
    ensures text == pre + LStrip(text) && Blank(pre)
  {
    LStripShape(text);
    pre := text[..|text| - |LStrip(text)|];
    forall i | 0 <= i < |pre| ensures IsSpace(pre[i]) {
      assert pre[i] == text[i];
    }
  }

  lemma TrailingBlank(l: string) returns (post: string)
    ensures l == RStrip(l) + post && Blank(post)
  {
    RStripShape(l);
    post := l[|RStrip(l)|..];
    forall i | 0 <= i < |post| ensures IsSpace(post[i]) {
      assert post[i] == l[|RStrip(l)| + i];
    }
  }

  /** Whitespace around a text adds no token. */
  lemma NormalizedOfPadded(pre: string, m: string, post: string)
    requires Blank(pre) && Blank(post)
    ensures NormalizedWords(pre + m + post) == NormalizedWords(m)
  {
    NormalizedIsSplitOfCleaned(pre + m + post);
    NormalizedIsSplitOfCleaned(m);
    CleanedAppend(pre + m, post);
    CleanedAppend(pre, m);
    CleanedBlank(pre);
    CleanedBlank(post);
    SplitOfPadded(Cleaned(pre), Cleaned(m), Cleaned(post));
  }

  lemma SplitOfPadded(pre: string, m: string, post: string)
    requires Blank(pre) && Blank(post)
    ensures Split(pre + m + post) == Split(m)
  {
    SplitLeadingSpaces(pre, m + post);
    assert pre + m + post == pre + (m + post);
    SplitTrailingSpaces(m, post);
  }

  /**
   * Surrounding whitespace makes no difference to the tokens, so the
   * stripping `__call__` does before `_compute` never changes a score.
   */
  lemma NormalizedIgnoresStrip(text: string)
    ensures NormalizedWords(Strip(text)) == NormalizedWords(text)
  {
    var pre, post := StripParts(text);
    NormalizedOfPadded(pre, Strip(text), post);
  }
}
