/**
 * Text clean-up used by the parsers and the TF-IDF corpus
 * (src/common/text_formatter.py): abbreviation normalisation, whitespace
 * collapsing, and joining of extracted PDF lines with dehyphenation.
 */
module TextFormatter {
  import opened Text

  // ---------------------------------------------------------------------
  // format_code_abbreviation
  // ---------------------------------------------------------------------

  /** `s.replace(c, "")`. */
  function Without(s: string, c: char): (r: string)
    ensures c !in r
  {
    if s == [] then [] else (if s[0] == c then [] else [s[0]]) + Without(s[1..], c)
  }

  /** Removing `c` keeps every other character. */
  lemma {:induction false} WithoutMembers(s: string, c: char)
    ensures forall x :: x in Without(s, c) <==> x in s && x != c
  {
    if s != [] {
      WithoutMembers(s[1..], c);
      assert s == [s[0]] + s[1..];
    }
  }

  lemma {:induction false} WithoutAbsent(s: string, c: char)
    requires c !in s
    ensures Without(s, c) == s
  {
    if s != [] {
      WithoutAbsent(s[1..], c);
    }
  }

  /** `format_code_abbreviation`: drop dots and spaces, then lower-case. */
  function FormatCodeAbbreviation(abbreviation: string): (r: string)
    ensures '.' !in r && ' ' !in r
    ensures IsLower(r)
  {
    var m := Without(Without(abbreviation, '.'), ' ');
    WithoutMembers(Without(abbreviation, '.'), ' ');
    var r := Lower(m);
    assert forall i :: 0 <= i < |r| ==> r[i] != '.' && r[i] != ' ';
    r
  }

  /** Formatting an already formatted abbreviation changes nothing. */
  lemma CodeAbbreviationIdempotent(abbreviation: string)
    ensures FormatCodeAbbreviation(FormatCodeAbbreviation(abbreviation)) == FormatCodeAbbreviation(abbreviation)
  {
    var r := FormatCodeAbbreviation(abbreviation);
    WithoutAbsent(r, '.');
    WithoutAbsent(r, ' ');
    LowerOfLower(r);
  }

  lemma {:induction false} WithoutAppend(a: string, b: string, c: char)
    ensures Without(a + b, c) == Without(a, c) + Without(b, c)
  {
    if a == [] {
      assert a + b == b;
    } else {
      assert (a + b)[1..] == a[1..] + b;
      WithoutAppend(a[1..], b, c);
    }
  }

  lemma WithoutSingle(x: char, c: char)
    ensures Without([x], c) == if x == c then [] else [x]
  {
    assert [x][1..] == [];
    assert Without([], c) == [];
  }

  /** The formatting works character by character, so it distributes over concatenation. */
  lemma CodeAbbreviationAppend(a: string, b: string)
    ensures FormatCodeAbbreviation(a + b) == FormatCodeAbbreviation(a) + FormatCodeAbbreviation(b)
  {
    WithoutAppend(a, b, '.');
    WithoutAppend(Without(a, '.'), Without(b, '.'), ' ');
    LowerAppend(Without(Without(a, '.'), ' '), Without(Without(b, '.'), ' '));
  }

  /**
   * Dots and spaces anywhere in an abbreviation are ignored, and every
   * other character is lower-cased: "k. r. i o." and "K.R.I.O." both
   * become "krio".
   */
  lemma CodeAbbreviationOfChar(x: char)
    ensures FormatCodeAbbreviation([x]) == if x == '.' || x == ' ' then "" else [LowerChar(x)]
  {
    WithoutSingle(x, '.');
    var m := Without([x], '.');
    if m != [] {
      WithoutSingle(x, ' ');
    }
    var n := Without(m, ' ');
    assert n == if x == '.' || x == ' ' then [] else [x];
  }

  // ---------------------------------------------------------------------
  // clean_whitespace
  // ---------------------------------------------------------------------

  /** `re.sub(r"\s+", " ", s)`: every run of whitespace becomes one space. */
  function CollapseWhitespace(s: string): string
    decreases |s|
  {
    if s == [] then []
    else if IsSpace(s[0]) then " " + CollapseWhitespace(LStrip(s[1..]))
    else [s[0]] + CollapseWhitespace(s[1..])
  }

  /** `clean_whitespace`. */
  function CleanWhitespace(text: string): string {
    CollapseWhitespace(Strip(text))
  }

  lemma {:induction false} CollapseAfterWord(w: string, t: string)
    requires NoSpace(w)
    ensures CollapseWhitespace(w + t) == w + CollapseWhitespace(t)
  {
    if w != [] {
      assert (w + t)[0] == w[0];
      assert (w + t)[1..] == w[1..] + t;
      CollapseAfterWord(w[1..], t);
      assert [w[0]] + w[1..] == w;
    } else {
      assert w + t == t;
    }
  }

  /** On a stripped string, collapsing whitespace is re-joining its words with single spaces. */
  lemma {:induction false} CollapseOfStripped(s: string)
    requires IsStripped(s)
    ensures CollapseWhitespace(s) == JoinWith(Split(s), " ")
    decreases |s|
  {
    if s != [] {
      var w := Word(s);
      var rest := s[|w|..];
      assert s == w + rest;
      CollapseAfterWord(w, rest);
      if rest == [] {
        assert Split(s) == [w] + Split([]);
        assert w + [] == w;
      } else {
        var u := LStrip(rest);
        LStripShape(rest);
        assert u == LStrip(rest[1..]);
        assert rest[|rest| - 1] == s[|s| - 1];
        assert u != [] && u[|u| - 1] == rest[|rest| - 1];
        CollapseOfStripped(u);
        SplitLStrip(rest);
        assert Split(s) == [w] + Split(u);
        var us := Split(u);
        assert us != [] by {
          assert !IsSpace(u[0]);
          assert Split(u) == [Word(u)] + Split(u[|Word(u)|..]);
        }
        assert ([w] + us)[1..] == us;
        assert JoinWith([w] + us, " ") == w + " " + JoinWith(us, " ");
      }
    }
  }

  /** `clean_whitespace(t)` is `" ".join(t.split())`. */
  lemma CleanWhitespaceJoinsWords(text: string)
    ensures CleanWhitespace(text) == JoinWith(Split(text), " ")
  {
    StripIsStripped(text);
    CollapseOfStripped(Strip(text));
    SplitStrip(text);
  }

  /** No two neighbouring characters are both whitespace. */
  predicate SingleSpaced(s: string) {
    forall i :: 0 <= i < |s| - 1 ==> !(IsSpace(s[i]) && IsSpace(s[i + 1]))
  }

  lemma {:induction false} JoinedWordsSingleSpaced(ws: seq<string>)
    requires forall i :: 0 <= i < |ws| ==> IsWord(ws[i])
    ensures SingleSpaced(JoinWith(ws, " "))
  {
    if |ws| >= 2 {
      JoinedWordsSingleSpaced(ws[1..]);
      var rest := JoinWith(ws[1..], " ");
      var j := ws[0] + " " + rest;
      assert JoinWith(ws, " ") == j;
      assert rest != [] by {
        JoinedWordsShape(ws[1..]);
        if |ws[1..]| == 1 { assert rest == ws[1]; } else { assert |rest| >= |ws[1]|; }
      }
      assert !IsSpace(rest[0]) by {
        if |ws[1..]| == 1 { assert rest == ws[1]; } else { assert rest[0] == ws[1][0]; }
      }
      forall i | 0 <= i < |j| - 1 ensures !(IsSpace(j[i]) && IsSpace(j[i + 1])) {
        if i + 1 < |ws[0]| {
          assert j[i] == ws[0][i] && j[i + 1] == ws[0][i + 1];
        } else if i + 1 == |ws[0]| {
          assert j[i] == ws[0][i];
        } else if i == |ws[0]| {
          assert j[i + 1] == rest[0];
        } else {
          assert j[i] == rest[i - |ws[0]| - 1] && j[i + 1] == rest[i - |ws[0]|];
        }
      }
    }
  }

  /**
   * The result of `clean_whitespace` has no whitespace at either end, its
   * only whitespace characters are single spaces, and it keeps the words.
   */
  lemma CleanWhitespaceShape(text: string)
    ensures IsStripped(CleanWhitespace(text))
    ensures SingleSpaced(CleanWhitespace(text))
    ensures forall i :: 0 <= i < |CleanWhitespace(text)| && IsSpace(CleanWhitespace(text)[i]) ==> CleanWhitespace(text)[i] == ' '
    ensures Split(CleanWhitespace(text)) == Split(text)
  {
    CleanWhitespaceJoinsWords(text);
    JoinedWordsShape(Split(text));
    JoinedWordsSingleSpaced(Split(text));
    SplitJoin(Split(text));
  }

  /** Cleaning twice is cleaning once. */
  lemma CleanWhitespaceIdempotent(text: string)
    ensures CleanWhitespace(CleanWhitespace(text)) == CleanWhitespace(text)
  {
    CleanWhitespaceJoinsWords(text);
    CleanWhitespaceJoinsWords(CleanWhitespace(text));
    SplitJoin(Split(text));
  }

  // ---------------------------------------------------------------------
  // format_extracted_text
  // ---------------------------------------------------------------------

  /** `s` without its leading run of `c`. */
  function DropLeading(s: string, c: char): (r: string)
    ensures |r| <= |s| && r == s[|s| - |r|..]
    ensures r == [] || r[0] != c
  {
    if s != [] && s[0] == c then DropLeading(s[1..], c) else s
  }

  /** `re.sub(c + "+", c, s)`: every run of `c` becomes a single `c`. */
  function CollapseRuns(s: string, c: char): string
    decreases |s|
  {
    if s == [] then []
    else if s[0] == c then [c] + CollapseRuns(DropLeading(s[1..], c), c)
    else [s[0]] + CollapseRuns(s[1..], c)
  }

  /** No two neighbouring characters are both `c`. */
  predicate NoDouble(s: string, c: char) {
    forall i :: 0 <= i < |s| - 1 ==> !(s[i] == c && s[i + 1] == c)
  }

  /** Collapsing leaves no run of `c` longer than one, and invents no character. */
  lemma {:induction false} CollapseRunsShape(s: string, c: char)
    ensures NoDouble(CollapseRuns(s, c), c)
    ensures forall x :: x in CollapseRuns(s, c) ==> x in s
    ensures |CollapseRuns(s, c)| > 0 && s != [] ==> CollapseRuns(s, c)[0] == s[0]
    decreases |s|
  {
    if s != [] {
      if s[0] == c {
        var t := DropLeading(s[1..], c);
        CollapseRunsShape(t, c);
        var r := CollapseRuns(t, c);
        assert forall x :: x in t ==> x in s;
        assert r != [] ==> r[0] == t[0] && t[0] != c;
        assert CollapseRuns(s, c) == [c] + r;
      } else {
        CollapseRunsShape(s[1..], c);
        var r := CollapseRuns(s[1..], c);
        assert forall x :: x in s[1..] ==> x in s;
        assert CollapseRuns(s, c) == [s[0]] + r;
      }
    }
  }

  /** Where `c` does not occur, collapsing it is the identity. */
  lemma {:induction false} CollapseRunsAbsent(s: string, c: char)
    requires c !in s
    ensures CollapseRuns(s, c) == s
  {
    if s != [] {
      CollapseRunsAbsent(s[1..], c);
      assert [s[0]] + s[1..] == s;
    }
  }

  /** A stripped line that ends with a hyphen: the word goes on in the next line. */
  predicate Hyphenated(t: string) {
    |t| > 0 && t[|t| - 1] == '-'
  }

  /** What a stripped line contributes: its text, without the final hyphen if it has one. */
  function Body(t: string): string {
    if Hyphenated(t) then t[..|t| - 1] else t
  }

  /** `[line.strip() for line in lines]`. */
  function StripAll(lines: seq<string>): (r: seq<string>)
    ensures |r| == |lines|
    ensures forall i :: 0 <= i < |lines| ==> r[i] == Strip(lines[i])
  {
    if lines == [] then [] else [Strip(lines[0])] + StripAll(lines[1..])
  }

  /** What the loop appends for stripped line `i`: the body, and a space unless hyphenated or last. */
  function LineText(ts: seq<string>, i: nat): string
    requires i < |ts|
  {
    if Hyphenated(ts[i]) then Body(ts[i])
    else if i < |ts| - 1 then ts[i] + " "
    else ts[i]
  }

  /** `"".join(result_lines)` after the first `k` lines. */
  function Joined(ts: seq<string>, k: nat): string
    requires k <= |ts|
  {
    if k == 0 then "" else Joined(ts, k - 1) + LineText(ts, k - 1)
  }

  /**
   * The reference reading of the join of stripped lines: a hyphenated line
   * runs straight into the next one, every other line is followed by one
   * space, the last line by nothing.
   */
  function Dehyphenated(ts: seq<string>): string {
    if |ts| == 0 then ""
    else if |ts| == 1 then Body(ts[0])
    else Body(ts[0]) + (if Hyphenated(ts[0]) then "" else " ") + Dehyphenated(ts[1..])
  }

  /** `format_extracted_text`. */
  function FormatExtractedTextOf(text: string): string {
    Strip(CollapseRuns(CollapseRuns(Dehyphenated(StripAll(SplitOn(text, '\n'))), '\n'), ' '))
  }

  method FormatExtractedText(text: string) returns (r: string)
    ensures r == FormatExtractedTextOf(text)
  {
    var lines := SplitOn(text, '\n');
    var result := JoinLines(lines);
    result := CollapseRuns(result, '\n');
    result := CollapseRuns(result, ' ');
    r := Strip(result);
  }

  /** The loop of `format_extracted_text` and its `"".join(result_lines)`. */
  method JoinLines(lines: seq<string>) returns (joined: string)
    ensures joined == Dehyphenated(StripAll(lines))
  {
    ghost var ts := StripAll(lines);
    var resultLines: seq<string> := [];
    var i := 0;
    assert |ts| == |lines|;
    while i < |lines|
      invariant i <= |lines| == |ts|
      invariant JoinWith(resultLines, "") == Joined(ts, i)
    {
      var strippedLine := Strip(lines[i]);
      assert strippedLine == ts[i];
      resultLines := AppendLine(resultLines, ts, i, strippedLine, i == |lines| - 1);
      i := i + 1;
    }
    JoinedIsDehyphenated(ts);
    joined := JoinWith(resultLines, "");
  }

  /** One pass of the loop of `format_extracted_text`: the parts it appends for stripped line `i`. */
  method AppendLine(resultLines: seq<string>, ghost ts: seq<string>, ghost i: nat, strippedLine: string, last: bool)
    returns (r: seq<string>)
    requires i < |ts| && strippedLine == ts[i] && (last <==> i == |ts| - 1)
    ensures JoinWith(r, "") == JoinWith(resultLines, "") + LineText(ts, i)
  {
    ghost var before := JoinWith(resultLines, "");
    if |strippedLine| > 0 && strippedLine[|strippedLine| - 1] == '-' {
      r := Appended(resultLines, strippedLine[..|strippedLine| - 1]);
    } else {
      r := Appended(resultLines, strippedLine);
      if !last {
        r := Appended(r, " ");
        Associative(before, strippedLine, " ");
      }
    }
  }

  lemma Associative(a: string, b: string, c: string)
    ensures a + b + c == a + (b + c)
  {
  }

  /** `parts.append(x)`, with what it does to `"".join(parts)`. */
  method Appended(parts: seq<string>, x: string) returns (r: seq<string>)
    ensures r == parts + [x]
    ensures JoinWith(r, "") == JoinWith(parts, "") + x
  {
    JoinAppend(parts, x);
    r := parts + [x];
  }

  lemma {:induction false} JoinAppend(parts: seq<string>, x: string)
    ensures JoinWith(parts + [x], "") == JoinWith(parts, "") + x
  {
    if |parts| == 1 {
      assert (parts + [x])[1..] == [x];
    } else if |parts| > 1 {
      assert (parts + [x])[1..] == parts[1..] + [x];
      JoinAppend(parts[1..], x);
    }
  }

  /** The join over the first `k` lines, read from the front. */
  lemma {:induction false} JoinedFront(ts: seq<string>, k: nat)
    requires 1 <= k <= |ts|
    ensures Joined(ts, k) == LineText(ts, 0) + Joined(ts[1..], k - 1)
  {
    if k > 1 {
      JoinedFront(ts, k - 1);
      var tail := ts[1..];
      assert tail[k - 2] == ts[k - 1];
      assert LineText(ts, k - 1) == LineText(tail, k - 2);
      assert Joined(tail, k - 1) == Joined(tail, k - 2) + LineText(tail, k - 2);
      assert Joined(ts, k) == Joined(ts, k - 1) + LineText(ts, k - 1);
    } else {
      assert Joined(ts, 1) == "" + LineText(ts, 0);
    }
  }

  /** The loop builds exactly the reference join. */
  lemma {:induction false} JoinedIsDehyphenated(ts: seq<string>)
    ensures Joined(ts, |ts|) == Dehyphenated(ts)
  {
    if |ts| >= 2 {
      JoinedFront(ts, |ts|);
      JoinedIsDehyphenated(ts[1..]);
    } else if |ts| == 1 {
      assert Joined(ts, 1) == "" + LineText(ts, 0);
    }
  }

  /** `Strip(s)` is a slice of `s`. */
  lemma StripSlice(s: string) returns (a: nat, b: nat)
    ensures a <= b <= |s| && Strip(s) == s[a..b]
  {
    var l := LStrip(s);
    LStripShape(s);
    RStripShape(l);
    a := |s| - |l|;
    b := a + |RStrip(l)|;
    assert l[..|RStrip(l)|] == s[a..b];
  }

  /** Stripping invents no character. */
  lemma StripChars(s: string, c: char)
    requires c !in s
    ensures c !in Strip(s)
  {
    var a, b := StripSlice(s);
  }

  /** A character other than the space that no line holds is not in the join either. */
  lemma {:induction false} DehyphenatedChars(ts: seq<string>, c: char)
    requires c != ' ' && forall i :: 0 <= i < |ts| ==> c !in ts[i]
    ensures c !in Dehyphenated(ts)
  {
    if |ts| > 0 {
      assert c !in Body(ts[0]);
      if |ts| > 1 {
        DehyphenatedChars(ts[1..], c);
      }
    }
  }

  /** No stripped line of the split holds a newline. */
  lemma LinesWithoutNewline(text: string)
    ensures forall i :: 0 <= i < |StripAll(SplitOn(text, '\n'))| ==> '\n' !in StripAll(SplitOn(text, '\n'))[i]
  {
    var lines := SplitOn(text, '\n');
    forall i | 0 <= i < |lines| ensures '\n' !in StripAll(lines)[i] {
      StripChars(lines[i], '\n');
    }
  }

  /** A slice keeps `NoDouble`. */
  lemma SliceNoDouble(s: string, c: char, a: nat, b: nat)
    requires a <= b <= |s| && NoDouble(s, c)
    ensures NoDouble(s[a..b], c)
  {
    var r := s[a..b];
    forall i | 0 <= i < |r| - 1 ensures !(r[i] == c && r[i + 1] == c) {
      assert r[i] == s[a + i] && r[i + 1] == s[a + i + 1];
    }
  }

  /**
   * The result of `format_extracted_text` has no whitespace at either end,
   * no newline (so the newline substitution never changes anything) and no
   * two neighbouring spaces.
   */
  lemma FormattedShape(text: string)
    ensures IsStripped(FormatExtractedTextOf(text))
    ensures '\n' !in FormatExtractedTextOf(text)
    ensures NoDouble(FormatExtractedTextOf(text), ' ')
    ensures CollapseRuns(Dehyphenated(StripAll(SplitOn(text, '\n'))), '\n') == Dehyphenated(StripAll(SplitOn(text, '\n')))
  {
    var joined := Dehyphenated(StripAll(SplitOn(text, '\n')));
    LinesWithoutNewline(text);
    DehyphenatedChars(StripAll(SplitOn(text, '\n')), '\n');
    CollapseRunsAbsent(joined, '\n');
    var collapsed := CollapseRuns(joined, ' ');
    CollapseRunsShape(joined, ' ');
    StripIsStripped(collapsed);
    var a, b := StripSlice(collapsed);
    SliceNoDouble(collapsed, ' ', a, b);
    assert '\n' !in collapsed;
    StripChars(collapsed, '\n');
  }

  /** The split of two lines. */
  lemma TwoLines(a: string, b: string)
    requires '\n' !in a && '\n' !in b
    ensures SplitOn(a + "\n" + b, '\n') == [a, b]
  {
    assert a + "\n" + b == a + ['\n'] + b;
    SplitOnPrefix(a, '\n', b);
    SplitOnNoSep(b, '\n');
  }

  /** A word split by a hyphen over two lines is joined back together. */
  lemma HyphenJoinsLines(a: string, b: string)
    requires IsWord(a) && IsWord(b) && '\n' !in a && '\n' !in b && b[|b| - 1] != '-'
    ensures FormatExtractedTextOf(a + "-\n" + b) == a + b
  {
    var first := a + "-";
    assert a + "-\n" + b == first + "\n" + b;
    TwoLines(first, b);
    assert NoSpace(first);
    NoSpaceStripped(first);
    NoSpaceStripped(b);
    var ts := StripAll([first, b]);
    assert ts == [first, b];
    assert Body(first) == a by { assert first[..|first| - 1] == a; }
    assert ts[1..] == [b];
    assert Dehyphenated(ts) == a + b;
    CollapseRunsAbsent(a + b, '\n');
    CollapseRunsAbsent(a + b, ' ');
    NoSpaceStripped(a + b);
  }

  /** Two lines with no hyphen at the break are joined by one space. */
  lemma PlainLinesJoinWithSpace(a: string, b: string)
    requires IsWord(a) && IsWord(b) && '\n' !in a && '\n' !in b
    requires a[|a| - 1] != '-' && b[|b| - 1] != '-'
    ensures FormatExtractedTextOf(a + "\n" + b) == a + " " + b
  {
    TwoLines(a, b);
    NoSpaceStripped(a);
    NoSpaceStripped(b);
    var ts := StripAll([a, b]);
    assert ts == [a, b];
    assert ts[1..] == [b];
    var j := a + " " + b;
    assert Dehyphenated(ts) == j;
    CollapseRunsAbsent(j, '\n');
    CollapseAfterSpace(a, b);
    assert IsStripped(j);
  }

  lemma CollapseAfterSpace(a: string, b: string)
    requires IsWord(a) && IsWord(b)
    ensures CollapseRuns(a + " " + b, ' ') == a + " " + b
  {
    CollapseRunsWord(a, " " + b);
    assert (" " + b)[1..] == b;
    assert DropLeading(b, ' ') == b;
    CollapseRunsAbsent(b, ' ');
    assert a + " " + b == a + (" " + b);
  }

  lemma {:induction false} CollapseRunsWord(w: string, t: string)
    requires ' ' !in w
    ensures CollapseRuns(w + t, ' ') == w + CollapseRuns(t, ' ')
  {
    if w != [] {
      assert (w + t)[1..] == w[1..] + t;
      CollapseRunsWord(w[1..], t);
      assert [w[0]] + w[1..] == w;
    } else {
      assert w + t == t;
    }
  }
}
