/**
 * String primitives shared by the Python and TypeScript parts of the model:
 * whitespace, `strip`, whitespace `split`, `split` on one separator, `join`,
 * and ASCII case mapping.
 */
module Text {

  /** Python's `str.isspace`, restricted to the Latin-1 range. */
  predicate IsSpace(c: char) {
    (9 <= c as int <= 13) || (28 <= c as int <= 32) || c as int == 0x85 || c as int == 0xA0
  }

  predicate NoSpace(s: string) {
    forall i :: 0 <= i < |s| ==> !IsSpace(s[i])
  }

  /** A token produced by a whitespace split: non-empty and free of whitespace. */
  predicate IsWord(w: string) {
    |w| > 0 && NoSpace(w)
  }

  /** Neither end of `s` is whitespace. */
  predicate IsStripped(s: string) {
    s == [] || (!IsSpace(s[0]) && !IsSpace(s[|s| - 1]))
  }

  /** `str.lstrip()`: drops the leading whitespace. */
  function LStrip(s: string): (r: string)
    ensures |r| <= |s|
  {
    if |s| > 0 && IsSpace(s[0]) then LStrip(s[1..]) else s
  }

  /** `LStrip` keeps a suffix that starts with a non-space, and drops only whitespace. */
  lemma {:induction false} LStripShape(s: string)
    ensures LStrip(s) == s[|s| - |LStrip(s)|..]
    ensures LStrip(s) == [] || !IsSpace(LStrip(s)[0])
    ensures forall i :: 0 <= i < |s| - |LStrip(s)| ==> IsSpace(s[i])
  {
    if |s| > 0 && IsSpace(s[0]) {
      LStripShape(s[1..]);
    }
  }

  /** `str.rstrip()`: drops the trailing whitespace. */
  function RStrip(s: string): (r: string)
    ensures |r| <= |s|
  {
    if |s| > 0 && IsSpace(s[|s| - 1]) then RStrip(s[..|s| - 1]) else s
  }

  /** `RStrip` keeps a prefix that ends with a non-space, and drops only whitespace. */
  lemma {:induction false} RStripShape(s: string)
    ensures RStrip(s) == s[..|RStrip(s)|]
    ensures RStrip(s) == [] || !IsSpace(RStrip(s)[|RStrip(s)| - 1])
    ensures forall i :: |RStrip(s)| <= i < |s| ==> IsSpace(s[i])
  {
    if |s| > 0 && IsSpace(s[|s| - 1]) {
      RStripShape(s[..|s| - 1]);
    }
  }

  /** Python's `str.strip()` with no argument. */
  function Strip(s: string): string {
    RStrip(LStrip(s))
  }

  lemma StripIsStripped(s: string)
    ensures IsStripped(Strip(s))
  {
    var l := LStrip(s);
    var r := RStrip(l);
    LStripShape(s);
    RStripShape(l);
    if r != [] {
      assert r[0] == l[0];
    }
  }

  lemma StrippedStripsToItself(s: string)
    requires IsStripped(s)
    ensures Strip(s) == s
  {
  }

  /** Stripping twice is stripping once. */
  lemma StripIdempotent(s: string)
    ensures Strip(Strip(s)) == Strip(s)
  {
    StripIsStripped(s);
    StrippedStripsToItself(Strip(s));
  }

  /** A string with no whitespace at all is its own strip. */
  lemma NoSpaceStripped(s: string)
    requires NoSpace(s)
    ensures IsStripped(s)
  {
  }

  /** Strip(s) is empty exactly when s consists of whitespace only. */
  lemma StripEmptyIffBlank(s: string)
    ensures Strip(s) == [] <==> forall i :: 0 <= i < |s| ==> IsSpace(s[i])
  {
    var l := LStrip(s);
    LStripShape(s);
    RStripShape(l);
    if Strip(s) != [] {
      assert l != [] && l[0] == s[|s| - |l|];
      assert !IsSpace(s[|s| - |l|]);
    }
  }

  // ---------------------------------------------------------------------
  // Whitespace split (Python's `str.split()` with no argument)
  // ---------------------------------------------------------------------

  /** The longest prefix of `s` without whitespace. */
  function Word(s: string): (w: string)
    ensures |w| <= |s| && w == s[..|w|]
    ensures NoSpace(w)
    ensures |w| == |s| || IsSpace(s[|w|])
  {
    if s == [] || IsSpace(s[0]) then [] else [s[0]] + Word(s[1..])
  }

  function Split(s: string): (words: seq<string>)
    ensures forall i :: 0 <= i < |words| ==> IsWord(words[i])
    decreases |s|
  {
    if s == [] then []
    else if IsSpace(s[0]) then Split(s[1..])
    else
      var w := Word(s);
      [w] + Split(s[|w|..])
  }

  /** Python's `sep.join(parts)`. */
  function JoinWith(parts: seq<string>, sep: string): string {
    if |parts| == 0 then ""
    else if |parts| == 1 then parts[0]
    else parts[0] + sep + JoinWith(parts[1..], sep)
  }

  lemma WordOfPrefixed(w: string, t: string)
    requires NoSpace(w)
    requires t == [] || IsSpace(t[0])
    ensures Word(w + t) == w
  {
    if w != [] {
      assert (w + t)[1..] == w[1..] + t;
      WordOfPrefixed(w[1..], t);
    } else {
      assert w + t == t;
    }
  }

  lemma SplitOfWordThen(w: string, t: string)
    requires IsWord(w)
    requires t == [] || IsSpace(t[0])
    ensures Split(w + t) == [w] + Split(t)
  {
    WordOfPrefixed(w, t);
    assert (w + t)[0] == w[0];
    assert (w + t)[|w|..] == t;
  }

  /** Splitting words joined by single spaces gives the words back. */
  lemma {:induction false} SplitJoin(ws: seq<string>)
    requires forall i :: 0 <= i < |ws| ==> IsWord(ws[i])
    ensures Split(JoinWith(ws, " ")) == ws
  {
    if |ws| == 0 {
    } else if |ws| == 1 {
      SplitOfWordThen(ws[0], "");
      assert ws[0] + "" == ws[0];
    } else {
      var rest := JoinWith(ws[1..], " ");
      assert ws[0] + " " + rest == ws[0] + (" " + rest);
      SplitOfWordThen(ws[0], " " + rest);
      assert (" " + rest)[1..] == rest;
      SplitJoin(ws[1..]);
      assert ws == [ws[0]] + ws[1..];
    }
  }

  /** A word ends at the first whitespace, so what follows it does not matter. */
  lemma {:induction false} WordOfExtended(x: string, t: string)
    requires t == [] || IsSpace(t[0])
    ensures Word(x + t) == Word(x)
  {
    if x == [] {
      assert x + t == t;
    } else if !IsSpace(x[0]) {
      assert (x + t)[1..] == x[1..] + t;
      WordOfExtended(x[1..], t);
    }
  }

  /** A whitespace character separates: the words of both sides are kept apart. */
  lemma {:induction false} SplitConcat(x: string, c: char, y: string)
    requires IsSpace(c)
    ensures Split(x + [c] + y) == Split(x) + Split(y)
    decreases |x|, 1
  {
    if x == [] {
      assert (x + [c] + y)[1..] == y;
    } else if IsSpace(x[0]) {
      SplitConcatAfterSpace(x, c, y);
    } else {
      SplitConcatAfterWord(x, c, y);
    }
  }

  lemma {:induction false} SplitConcatAfterSpace(x: string, c: char, y: string)
    requires IsSpace(c) && x != [] && IsSpace(x[0])
    ensures Split(x + [c] + y) == Split(x) + Split(y)
    decreases |x|, 0
  {
    assert (x + [c] + y)[1..] == x[1..] + [c] + y;
    SplitConcat(x[1..], c, y);
  }

  lemma {:induction false} SplitConcatAfterWord(x: string, c: char, y: string)
    requires IsSpace(c) && x != [] && !IsSpace(x[0])
    ensures Split(x + [c] + y) == Split(x) + Split(y)
    decreases |x|, 0
  {
    var t := [c] + y;
    var s := x + t;
    assert x + [c] + y == s;
    WordOfExtended(x, t);
    var w := Word(x);
    var rest := x[|w|..];
    assert s[0] == x[0];
    SplitOfWord(s);
    SplitOfWord(x);
    DropFromConcat(x, t, |w|);
    assert rest + t == rest + [c] + y;
    SplitConcat(rest, c, y);
    assert [w] + (Split(rest) + Split(y)) == ([w] + Split(rest)) + Split(y);
  }

  /** A text that starts with a word splits into that word and the words after it. */
  lemma SplitOfWord(s: string)
    requires s != [] && !IsSpace(s[0])
    ensures Split(s) == [Word(s)] + Split(s[|Word(s)|..])
  {
  }

  lemma DropFromConcat(x: string, t: string, k: nat)
    requires k <= |x|
    ensures (x + t)[k..] == x[k..] + t
  {
  }

  lemma {:induction false} SplitOfSpaces(t: string)
    requires forall i :: 0 <= i < |t| ==> IsSpace(t[i])
    ensures Split(t) == []
  {
    if t != [] {
      SplitOfSpaces(t[1..]);
    }
  }

  lemma {:induction false} SplitLeadingSpaces(t: string, y: string)
    requires forall i :: 0 <= i < |t| ==> IsSpace(t[i])
    ensures Split(t + y) == Split(y)
  {
    if t == [] {
      assert t + y == y;
    } else {
      assert (t + y)[1..] == t[1..] + y;
      SplitLeadingSpaces(t[1..], y);
    }
  }

  lemma SplitTrailingSpaces(x: string, t: string)
    requires forall i :: 0 <= i < |t| ==> IsSpace(t[i])
    ensures Split(x + t) == Split(x)
  {
    if t == [] {
      assert x + t == x;
    } else {
      assert x + t == x + [t[0]] + t[1..];
      SplitConcat(x, t[0], t[1..]);
      SplitOfSpaces(t[1..]);
    }
  }

  /** Splitting ignores leading and trailing whitespace. */
  lemma SplitStrip(s: string)
    ensures Split(Strip(s)) == Split(s)
  {
    SplitLStrip(s);
    SplitRStrip(LStrip(s));
  }

  lemma SplitLStrip(s: string)
    ensures Split(LStrip(s)) == Split(s)
  {
    var l := LStrip(s);
    LStripShape(s);
    var lead := s[..|s| - |l|];
    assert s == lead + l;
    assert forall i :: 0 <= i < |lead| ==> IsSpace(lead[i]);
    SplitLeadingSpaces(lead, l);
  }

  lemma SplitRStrip(l: string)
    ensures Split(RStrip(l)) == Split(l)
  {
    var r := RStrip(l);
    RStripShape(l);
    var trail := l[|r|..];
    assert l == r + trail;
    assert forall i :: 0 <= i < |trail| ==> IsSpace(trail[i]) by {
      forall i | 0 <= i < |trail| ensures IsSpace(trail[i]) {
        assert trail[i] == l[|r| + i];
      }
    }
    SplitTrailingSpaces(r, trail);
  }

  /** Every character of every word comes from the split string. */
  lemma {:induction false} SplitChars(s: string)
    ensures forall i, j :: 0 <= i < |Split(s)| && 0 <= j < |Split(s)[i]| ==> Split(s)[i][j] in s
    decreases |s|
  {
    if s != [] {
      if IsSpace(s[0]) {
        SplitChars(s[1..]);
        assert forall c :: c in s[1..] ==> c in s;
      } else {
        var w := Word(s);
        SplitChars(s[|w|..]);
        assert forall c :: c in s[|w|..] ==> c in s;
        assert forall c :: c in w ==> c in s;
      }
    }
  }

  /** Every character of a join is a separator character or comes from one of the parts. */
  lemma {:induction false} JoinChars(parts: seq<string>, sep: string, c: char)
    requires c in JoinWith(parts, sep)
    ensures c in sep || exists i :: 0 <= i < |parts| && c in parts[i]
  {
    if |parts| == 1 {
      assert c in parts[0];
    } else if |parts| > 1 {
      var rest := JoinWith(parts[1..], sep);
      assert JoinWith(parts, sep) == parts[0] + sep + rest;
      if c in parts[0] {
      } else if c in sep {
      } else {
        assert c in rest;
        JoinChars(parts[1..], sep, c);
        var i :| 0 <= i < |parts| - 1 && c in parts[1..][i];
        assert c in parts[i + 1];
      }
    }
  }

  /** No character of a space-joined word list is whitespace other than the separators. */
  lemma {:induction false} JoinedWordsShape(ws: seq<string>)
    requires forall i :: 0 <= i < |ws| ==> IsWord(ws[i])
    ensures IsStripped(JoinWith(ws, " "))
    ensures forall i :: 0 <= i < |JoinWith(ws, " ")| ==>
              (IsSpace(JoinWith(ws, " ")[i]) ==> JoinWith(ws, " ")[i] == ' ')
  {
    if |ws| >= 2 {
      JoinedWordsShape(ws[1..]);
      var rest := JoinWith(ws[1..], " ");
      var j := ws[0] + " " + rest;
      assert JoinWith(ws, " ") == j;
      forall i | 0 <= i < |j| ensures IsSpace(j[i]) ==> j[i] == ' ' {
        if i < |ws[0]| {
          assert j[i] == ws[0][i];
        } else if i > |ws[0]| {
          assert j[i] == rest[i - |ws[0]| - 1];
        }
      }
      assert j[|j| - 1] == rest[|rest| - 1];
    }
  }

  // ---------------------------------------------------------------------
  // Split on one separator character (Python's `s.split("\n")`, JS `s.split('_')`)
  // ---------------------------------------------------------------------

  function SplitOn(s: string, c: char): (parts: seq<string>)
    ensures |parts| >= 1
    ensures forall i :: 0 <= i < |parts| ==> c !in parts[i]
  {
    if s == [] then [[]]
    else
      var rest := SplitOn(s[1..], c);
      if s[0] == c then [[]] + rest else [[s[0]] + rest[0]] + rest[1..]
  }

  lemma JoinWithConsFirst(x: char, parts: seq<string>, sep: string)
    requires |parts| >= 1
    ensures JoinWith([[x] + parts[0]] + parts[1..], sep) == [x] + JoinWith(parts, sep)
  {
    var ps := [[x] + parts[0]] + parts[1..];
    if |parts| > 1 {
      assert ps[1..] == parts[1..];
    }
  }

  /** Splitting on `c` and joining with `c` gives the original string back. */
  lemma {:induction false} JoinSplitOn(s: string, c: char)
    ensures JoinWith(SplitOn(s, c), [c]) == s
  {
    if s != [] {
      var rest := SplitOn(s[1..], c);
      JoinSplitOn(s[1..], c);
      if s[0] == c {
        assert JoinWith([[]] + rest, [c]) == [] + [c] + JoinWith(rest, [c]);
      } else {
        JoinWithConsFirst(s[0], rest, [c]);
      }
      assert s == [s[0]] + s[1..];
    }
  }

  /** Splitting `x + [c] + y`, where `y` has no `c`, ends with the part `y`. */
  lemma {:induction false} SplitOnAppendLast(x: string, c: char, y: string)
    requires c !in y
    ensures SplitOn(x + [c] + y, c) == SplitOn(x, c)[..|SplitOn(x, c)| - 1] + [SplitOn(x, c)[|SplitOn(x, c)| - 1] ] + [y]
  {
    if x == [] {
      SplitOnNoSep(y, c);
      assert ([] + [c] + y)[1..] == y;
    } else {
      assert (x + [c] + y)[1..] == x[1..] + [c] + y;
      SplitOnAppendLast(x[1..], c, y);
    }
  }

  /** A string without the separator splits into itself alone. */
  lemma {:induction false} SplitOnNoSep(y: string, c: char)
    requires c !in y
    ensures SplitOn(y, c) == [y]
  {
    if y != [] {
      assert c !in y[1..];
      SplitOnNoSep(y[1..], c);
      assert [y[0]] + y[1..] == y;
    }
  }

  /** `x + [c] + y` with `c` not in `x` splits into `[x] + SplitOn(y)`. */
  lemma {:induction false} SplitOnPrefix(x: string, c: char, y: string)
    requires c !in x
    ensures SplitOn(x + [c] + y, c) == [x] + SplitOn(y, c)
  {
    if x == [] {
      assert ([] + [c] + y)[1..] == y;
    } else {
      assert (x + [c] + y)[1..] == x[1..] + [c] + y;
      SplitOnPrefix(x[1..], c, y);
      assert [x[0]] + x[1..] == x;
    }
  }

  // ---------------------------------------------------------------------
  // ASCII case mapping
  // ---------------------------------------------------------------------

  function LowerChar(ch: char): char {
    if 'A' <= ch <= 'Z' then (ch as int + 32) as char else ch
  }

  function UpperChar(ch: char): char {
    if 'a' <= ch <= 'z' then (ch as int - 32) as char else ch
  }

  function Lower(s: string): (r: string)
    ensures |r| == |s|
    ensures forall i :: 0 <= i < |s| ==> r[i] == LowerChar(s[i])
  {
    seq(|s|, i requires 0 <= i < |s| => LowerChar(s[i]))
  }

  /** No character of `s` is an ASCII capital. */
  predicate IsLower(s: string) {
    forall i :: 0 <= i < |s| ==> !('A' <= s[i] <= 'Z')
  }

  lemma LowerIsLower(s: string)
    ensures IsLower(Lower(s))
  {
  }

  lemma LowerOfLower(s: string)
    requires IsLower(s)
    ensures Lower(s) == s
  {
  }

  /** Whitespace is fixed by lower-casing, in both directions. */
  lemma LowerCharSpace(ch: char)
    ensures IsSpace(LowerChar(ch)) <==> IsSpace(ch)
  {
  }

  lemma LowerAppend(a: string, b: string)
    ensures Lower(a + b) == Lower(a) + Lower(b)
  {
  }

  lemma {:induction false} LStripLower(s: string)
    ensures LStrip(Lower(s)) == Lower(LStrip(s))
  {
    if |s| > 0 {
      LowerCharSpace(s[0]);
      assert Lower(s)[1..] == Lower(s[1..]);
      if IsSpace(s[0]) {
        LStripLower(s[1..]);
      }
    }
  }

  lemma {:induction false} RStripLower(s: string)
    ensures RStrip(Lower(s)) == Lower(RStrip(s))
  {
    if |s| > 0 {
      LowerCharSpace(s[|s| - 1]);
      assert Lower(s)[..|s| - 1] == Lower(s[..|s| - 1]);
      if IsSpace(s[|s| - 1]) {
        RStripLower(s[..|s| - 1]);
      }
    }
  }

  /** Lower-casing and stripping commute. */
  lemma StripLower(s: string)
    ensures Strip(Lower(s)) == Lower(Strip(s))
  {
    LStripLower(s);
    RStripLower(LStrip(s));
  }
}
