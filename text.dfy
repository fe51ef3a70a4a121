/**
 * The Python `str` operations the dashboard's data shaping relies on:
 * `strip`, `lower`, `title`, `startswith`, `endswith`, `in` (substring),
 * `splitlines` and `join`, plus Python's ordering of strings.
 *
 * Whitespace and line boundaries are the exact character sets Python uses;
 * case mapping (`lower`, `title`) is modelled for ASCII letters only.
 */
module Text {
  import opened Basics

  // ---------------------------------------------------------------------
  // Character classes

  /** The characters for which Python's `str.isspace` holds. */
  predicate IsSpace(c: char) {
    || ('\t' <= c <= '\r')
    || ('\U{1C}' <= c <= ' ')
    || c == '\U{85}' || c == '\U{A0}' || c == '\U{1680}'
    || ('\U{2000}' <= c <= '\U{200A}')
    || c == '\U{2028}' || c == '\U{2029}' || c == '\U{202F}'
    || c == '\U{205F}' || c == '\U{3000}'
  }

  /** The characters at which Python's `str.splitlines` ends a line. */
  predicate IsLineBreak(c: char) {
    || c == '\n' || c == '\r' || c == '\U{0B}' || c == '\U{0C}'
    || c == '\U{1C}' || c == '\U{1D}' || c == '\U{1E}' || c == '\U{85}'
    || c == '\U{2028}' || c == '\U{2029}'
  }

  predicate IsUpper(c: char) { 'A' <= c <= 'Z' }
  predicate IsLower(c: char) { 'a' <= c <= 'z' }
  predicate IsLetter(c: char) { IsUpper(c) || IsLower(c) }

  function LowerChar(c: char): char {
    if IsUpper(c) then (c as int + 32) as char else c
  }

  function UpperChar(c: char): char {
    if IsLower(c) then (c as int - 32) as char else c
  }

  // ---------------------------------------------------------------------
  // strip

  /** No whitespace at either end: what `str.strip` returns. */
  predicate Trimmed(s: string) {
    s == [] || (!IsSpace(s[0]) && !IsSpace(s[|s| - 1]))
  }

  /** `str.lstrip()`. */
  function LStrip(s: string): string {
    if s != [] && IsSpace(s[0]) then LStrip(s[1..]) else s
  }

  /** `str.rstrip()`. */
  function RStrip(s: string): string {
    if s != [] && IsSpace(s[|s| - 1]) then RStrip(s[..|s| - 1]) else s
  }

  /** `lstrip` drops the leading whitespace and nothing else. */
  lemma {:induction false} LStripSpec(s: string)
    ensures |LStrip(s)| <= |s| && LStrip(s) == s[|s| - |LStrip(s)|..]
    ensures forall k :: 0 <= k < |s| - |LStrip(s)| ==> IsSpace(s[k])
    ensures LStrip(s) == [] || !IsSpace(LStrip(s)[0])
  {
    if s != [] && IsSpace(s[0]) {
      var t := s[1..];
      LStripSpec(t);
      assert LStrip(s) == LStrip(t);
      assert s[|s| - |LStrip(s)|..] == t[|t| - |LStrip(t)|..];
      forall k | 0 <= k < |s| - |LStrip(s)|
        ensures IsSpace(s[k])
      {
        if k > 0 {
          assert s[k] == t[k - 1];
        }
      }
    }
  }

  /** `rstrip` drops the trailing whitespace and nothing else. */
  lemma {:induction false} RStripSpec(s: string)
    ensures |RStrip(s)| <= |s| && RStrip(s) == s[..|RStrip(s)|]
    ensures forall k :: |RStrip(s)| <= k < |s| ==> IsSpace(s[k])
    ensures RStrip(s) == [] || !IsSpace(RStrip(s)[|RStrip(s)| - 1])
  {
    if s != [] && IsSpace(s[|s| - 1]) {
      var t := s[..|s| - 1];
      RStripSpec(t);
      assert RStrip(s) == RStrip(t);
      assert s[..|RStrip(s)|] == t[..|RStrip(t)|];
      forall k | |RStrip(s)| <= k < |s|
        ensures IsSpace(s[k])
      {
        if k < |t| {
          assert s[k] == t[k];
        }
      }
    }
  }

  /** `str.strip()`. */
  function Strip(s: string): (r: string)
    ensures Trimmed(r) && |r| <= |s|
  {
    LStripSpec(s);
    RStripSpec(LStrip(s));
    RStrip(LStrip(s))
  }

  /**
   * `strip` drops the whitespace at both ends and nothing else: its result
   * is the slice of `s` that starts at `lo`, with only whitespace before
   * and after it.
   */
  lemma StripSpec(s: string) returns (lo: nat)
    ensures lo + |Strip(s)| <= |s| && Strip(s) == s[lo..lo + |Strip(s)|]
    ensures forall k :: 0 <= k < lo ==> IsSpace(s[k])
    ensures forall k :: lo + |Strip(s)| <= k < |s| ==> IsSpace(s[k])
    ensures Strip(s) == [] || (!IsSpace(Strip(s)[0]) && !IsSpace(Strip(s)[|Strip(s)| - 1]))
  {
    LStripSpec(s);
    var l := LStrip(s);
    RStripSpec(l);
    var r := RStrip(l);
    lo := |s| - |l|;
    assert l == s[lo..];
    assert r == s[lo..lo + |r|];
    forall k | lo + |r| <= k < |s|
      ensures IsSpace(s[k])
    {
      assert s[k] == l[k - lo];
    }
  }

  /** A string without whitespace at its ends is its own `strip`. */
  lemma StripTrimmed(s: string)
    requires Trimmed(s)
    ensures Strip(s) == s
  {
    assert LStrip(s) == s;
    if s != [] {
      assert RStrip(s) == s;
    }
  }

  /** `strip` is idempotent. */
  lemma StripIdempotent(s: string)
    ensures Strip(Strip(s)) == Strip(s)
  {
    StripTrimmed(Strip(s));
  }

  // ---------------------------------------------------------------------
  // lower and title

  /** `str.lower()` (ASCII letters). */
  function Lower(s: string): (r: string)
    ensures |r| == |s|
    ensures forall i :: 0 <= i < |s| ==> r[i] == LowerChar(s[i])
  {
    seq(|s|, i requires 0 <= i < |s| => LowerChar(s[i]))
  }

  /** Whether position `i` of `s` begins a run of letters. */
  predicate StartsRun(s: string, i: int)
    requires 0 <= i < |s|
  {
    i == 0 || !IsLetter(s[i - 1])
  }

  /**
   * `str.title()` scanning from left to right; `afterLetter` says whether
   * the character before `s` was a letter.
   */
  function TitleFrom(s: string, afterLetter: bool): (r: string)
    ensures |r| == |s|
  {
    if s == [] then []
    else
      var c := s[0];
      var d := if !IsLetter(c) then c else if afterLetter then LowerChar(c) else UpperChar(c);
      [d] + TitleFrom(s[1..], IsLetter(c))
  }

  /** `str.title()`: the first letter of every run of letters upper-cased, the others lower-cased. */
  function Title(s: string): string {
    TitleFrom(s, false)
  }

  lemma {:induction false} TitleFromAt(s: string, afterLetter: bool, i: int)
    requires 0 <= i < |s|
    ensures TitleFrom(s, afterLetter)[i] ==
      if !IsLetter(s[i]) then s[i]
      else if (i == 0 && afterLetter) || (i > 0 && IsLetter(s[i - 1])) then LowerChar(s[i])
      else UpperChar(s[i])
  {
    if i > 0 {
      TitleFromAt(s[1..], IsLetter(s[0]), i - 1);
    }
  }

  /**
   * Position by position, `Title` upper-cases the letters that begin a run,
   * lower-cases the other letters and leaves every other character alone.
   */
  lemma TitleAt(s: string, i: int)
    requires 0 <= i < |s|
    ensures |Title(s)| == |s|
    ensures Title(s)[i] ==
      if !IsLetter(s[i]) then s[i]
      else if StartsRun(s, i) then UpperChar(s[i])
      else LowerChar(s[i])
  {
    TitleFromAt(s, false, i);
  }

  /** Title-casing keeps letters letters and every other character as it is. */
  lemma TitleKeepsClasses(s: string, i: int)
    requires 0 <= i < |s|
    ensures |Title(s)| == |s|
    ensures IsLetter(Title(s)[i]) == IsLetter(s[i])
    ensures !IsLetter(s[i]) ==> Title(s)[i] == s[i]
  {
    TitleAt(s, i);
  }

  /** `title` is idempotent. */
  lemma TitleIdempotent(s: string)
    ensures Title(Title(s)) == Title(s)
  {
    var t := Title(s);
    forall i | 0 <= i < |s|
      ensures Title(t)[i] == t[i]
    {
      TitleAt(s, i);
      TitleAt(t, i);
      if i > 0 {
        TitleKeepsClasses(s, i - 1);
      }
    }
  }

  /** Title-casing a string without whitespace at its ends adds none. */
  lemma TitleTrimmed(s: string)
    requires Trimmed(s)
    ensures Trimmed(Title(s))
  {
    if s != [] {
      TitleKeepsClasses(s, 0);
      TitleKeepsClasses(s, |s| - 1);
    }
  }

  // ---------------------------------------------------------------------
  // Prefixes, suffixes, substrings

  predicate StartsWith(s: string, p: string) {
    |p| <= |s| && s[..|p|] == p
  }

  predicate EndsWith(s: string, p: string) {
    |p| <= |s| && s[|s| - |p|..] == p
  }

  /** Python's `h in s` for strings. */
  predicate Contains(s: string, h: string)
    decreases |s|
  {
    StartsWith(s, h) || (s != [] && Contains(s[1..], h))
  }

  // ---------------------------------------------------------------------
  // splitlines and join

  /** The index of the first line boundary in `s`, or `|s|` when there is none. */
  function BreakIndex(s: string): (i: nat)
    ensures i <= |s|
    ensures forall k :: 0 <= k < i ==> !IsLineBreak(s[k])
    ensures i < |s| ==> IsLineBreak(s[i])
  {
    if s == [] || IsLineBreak(s[0]) then 0 else 1 + BreakIndex(s[1..])
  }

  /**
   * `str.splitlines()`: the lines of `s` without their boundaries; `\r\n`
   * is one boundary, and a boundary at the very end opens no extra line.
   */
  function SplitLines(s: string): (r: seq<string>)
    ensures forall k, j :: 0 <= k < |r| && 0 <= j < |r[k]| ==> !IsLineBreak(r[k][j])
    decreases |s|
  {
    if s == [] then []
    else
      var i := BreakIndex(s);
      if i == |s| then [s]
      else
        var next := if s[i] == '\r' && i + 1 < |s| && s[i + 1] == '\n' then i + 2 else i + 1;
        [s[..i]] + SplitLines(s[next..])
  }

  /** `s` holds no line boundary. */
  predicate NoBreak(s: string) {
    forall k :: 0 <= k < |s| ==> !IsLineBreak(s[k])
  }

  /** Two pieces without a line boundary join into one without. */
  lemma NoBreakConcat(a: string, b: string)
    requires NoBreak(a) && NoBreak(b)
    ensures NoBreak(a + b)
  {
    forall k | 0 <= k < |a + b|
      ensures !IsLineBreak((a + b)[k])
    {
      if k >= |a| {
        assert (a + b)[k] == b[k - |a|];
      }
    }
  }

  /** Stripping keeps a subsequence of the characters, so adds no line boundary. */
  lemma StripNoBreak(s: string)
    requires NoBreak(s)
    ensures NoBreak(Strip(s))
  {
    LStripSpec(s);
    RStripSpec(LStrip(s));
  }

  /** `sep.join(xs)`. */
  function Join(sep: string, xs: seq<string>): string {
    if xs == [] then []
    else if |xs| == 1 then xs[0]
    else xs[0] + sep + Join(sep, xs[1..])
  }

  lemma {:induction false} JoinNoBreak(sep: string, xs: seq<string>)
    requires NoBreak(sep)
    requires forall k :: 0 <= k < |xs| ==> NoBreak(xs[k])
    ensures NoBreak(Join(sep, xs))
  {
    if |xs| > 1 {
      JoinNoBreak(sep, xs[1..]);
      var rest := Join(sep, xs[1..]);
      assert NoBreak(xs[0]);
      assert forall k :: 0 <= k < |xs[0] + sep + rest| ==>
        (xs[0] + sep + rest)[k] == (if k < |xs[0]| then xs[0][k]
                                   else if k < |xs[0]| + |sep| then sep[k - |xs[0]|]
                                   else rest[k - |xs[0]| - |sep|]);
    }
  }

  /**
   * Joining non-empty lines without line boundaries by `\n` and splitting
   * the result gives the lines back.
   */
  lemma {:induction false} SplitLinesJoin(xs: seq<string>)
    requires forall k :: 0 <= k < |xs| ==> xs[k] != [] && NoBreak(xs[k])
    ensures SplitLines(Join("\n", xs)) == xs
  {
    if |xs| == 1 {
      assert NoBreak(xs[0]);
      assert BreakIndex(xs[0]) == |xs[0]|;
    } else if |xs| > 1 {
      var first, rest := xs[0], Join("\n", xs[1..]);
      var s := first + "\n" + rest;
      assert NoBreak(first);
      var i := BreakIndex(s);
      assert s[|first|] == '\n';
      assert forall k :: 0 <= k < |first| ==> s[k] == first[k];
      assert i == |first|;
      assert s[..i] == first;
      assert s[i + 1..] == rest;
      SplitLinesJoin(xs[1..]);
    }
  }

  /**
   * Splitting a text whose only line boundary is `\n`, and which does not
   * end in one, and joining the lines with `\n` gives the text back.
   */
  lemma {:induction false} JoinSplitLines(s: string)
    requires forall k :: 0 <= k < |s| && IsLineBreak(s[k]) ==> s[k] == '\n'
    requires s == [] || s[|s| - 1] != '\n'
    ensures Join("\n", SplitLines(s)) == s
    decreases |s|
  {
    if s != [] {
      var i := BreakIndex(s);
      if i < |s| {
        var rest := s[i + 1..];
        assert s[i] == '\n' && rest != [];
        assert forall k :: 0 <= k < |rest| ==> rest[k] == s[i + 1 + k];
        JoinSplitLines(rest);
        var tail := SplitLines(rest);
        assert SplitLines(s) == [s[..i]] + tail;
        assert tail != [];
        assert Join("\n", [s[..i]] + tail) == s[..i] + "\n" + Join("\n", tail);
        SplitAt(s, i);
      }
    }
  }

  // ---------------------------------------------------------------------
  // Python's ordering of strings: lexicographic by code point

  predicate StrLess(a: string, b: string)
    decreases |a|
  {
    if a == [] then b != []
    else if b == [] then false
    else a[0] < b[0] || (a[0] == b[0] && StrLess(a[1..], b[1..]))
  }

  lemma {:induction false} StrLessIrreflexive(a: string)
    ensures !StrLess(a, a)
    decreases |a|
  {
    if a != [] {
      StrLessIrreflexive(a[1..]);
    }
  }

  lemma {:induction false} StrLessTransitive(a: string, b: string, c: string)
    requires StrLess(a, b) && StrLess(b, c)
    ensures StrLess(a, c)
    decreases |a|
  {
    if a != [] && b != [] && c != [] && a[0] == b[0] == c[0] {
      StrLessTransitive(a[1..], b[1..], c[1..]);
    }
  }

  lemma {:induction false} StrLessTotal(a: string, b: string)
    requires a != b
    ensures StrLess(a, b) || StrLess(b, a)
    decreases |a|
  {
    if a != [] && b != [] && a[0] == b[0] {
      assert a == [a[0]] + a[1..] && b == [b[0]] + b[1..];
      StrLessTotal(a[1..], b[1..]);
    }
  }
}
