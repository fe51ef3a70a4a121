/**
 * The three text helpers of the one-click draft polisher:
 * `_summarize_lines` flattens a text to one line and caps its length,
 * `_to_bullets` turns the non-blank lines into a Markdown bullet list of
 * bounded length, and `_sectionize` splits a grant draft into the sections
 * whose heading lines name one of the eleven known headings.
 */
module Narrative {
  import opened Basics
  import opened Text

  /** The one-character ellipsis `…` that marks a cut. */
  const Ellipsis: char := '\U{2026}'

  // ---------------------------------------------------------------------
  // _summarize_lines

  function StripAll(lines: seq<string>): (r: seq<string>)
    ensures |r| == |lines|
    ensures forall k :: 0 <= k < |lines| ==> r[k] == Strip(lines[k])
  {
    seq(|lines|, k requires 0 <= k < |lines| => Strip(lines[k]))
  }

  /** Every line of `text` stripped, the lines joined by single spaces. */
  function Flatten(text: string): string {
    Join(" ", StripAll(SplitLines(text)))
  }

  /** The flattened text is a single line. */
  lemma FlattenOneLine(text: string)
    ensures NoBreak(Flatten(text))
  {
    var lines := SplitLines(text);
    forall k | 0 <= k < |lines|
      ensures NoBreak(StripAll(lines)[k])
    {
      assert NoBreak(lines[k]);
      StripNoBreak(lines[k]);
    }
    JoinNoBreak(" ", StripAll(lines));
  }

  /**
   * `_summarize_lines`: the flattened text when it fits in `maxChars`;
   * otherwise its first `maxChars` characters, without trailing
   * whitespace, followed by the ellipsis.
   */
  function SummarizeLines(text: string, maxChars: nat): (r: string)
    ensures text == [] ==> r == []
    ensures |Flatten(text)| <= maxChars ==> r == Flatten(text)
    ensures |Flatten(text)| > maxChars ==>
              && 1 <= |r| <= maxChars + 1
              && r[|r| - 1] == Ellipsis
              && StartsWith(Flatten(text), r[..|r| - 1])
              && (|r| == 1 || !IsSpace(r[|r| - 2]))
              && (forall k :: |r| - 1 <= k < maxChars ==> IsSpace(Flatten(text)[k]))
  {
    if text == [] then []
    else
      var t := Flatten(text);
      if |t| > maxChars then
        RStripSpec(t[..maxChars]);
        assert forall k :: 0 <= k < maxChars ==> t[..maxChars][k] == t[k];
        RStrip(t[..maxChars]) + [Ellipsis]
      else t
  }

  /** A summary is a single line. */
  lemma SummaryOneLine(text: string, maxChars: nat)
    ensures NoBreak(SummarizeLines(text, maxChars))
  {
    FlattenOneLine(text);
    var t := Flatten(text);
    if |t| > maxChars {
      var r := SummarizeLines(text, maxChars);
      assert r[..|r| - 1] == t[..|r| - 1];
    }
  }

  // ---------------------------------------------------------------------
  // _to_bullets

  /** The bullet for one stripped, non-blank line. */
  function Bullet(s: string): (b: string)
    requires s != []
    ensures StartsWith(b, "- ")
    ensures EndsWith(s, ":") ==> b == "- **" + s[..|s| - 1] + "**"
    ensures !EndsWith(s, ":") && StartsWith(s, "- ") ==> b == s
    ensures !EndsWith(s, ":") && !StartsWith(s, "- ") ==> b == "- " + s
    ensures NoBreak(s) ==> NoBreak(b)
  {
    if EndsWith(s, ":") then
      assert "- " + ("**" + s[..|s| - 1] + "**") == "- **" + s[..|s| - 1] + "**";
      assert NoBreak(s) ==> NoBreak(s[..|s| - 1]);
      Dash(Bold(s[..|s| - 1]))
    else if !StartsWith(s, "- ") then Dash(s)
    else s
  }

  /** `"- " + t`. */
  function Dash(t: string): (b: string)
    ensures b == "- " + t && b[2..] == t
    ensures NoBreak(t) ==> NoBreak(b)
  {
    assert NoBreak(t) ==> NoBreak("- " + t) by {
      if NoBreak(t) {
        NoBreakConcat("- ", t);
      }
    }
    "- " + t
  }

  /** `"**" + t + "**"`. */
  function Bold(t: string): (b: string)
    ensures b == "**" + t + "**"
    ensures NoBreak(t) ==> NoBreak(b)
  {
    assert NoBreak(t) ==> NoBreak("**" + t + "**") by {
      if NoBreak(t) {
        NoBreakConcat("**", t);
        NoBreakConcat("**" + t, "**");
      }
    }
    "**" + t + "**"
  }

  /**
   * The loop of `_to_bullets` from line `lines[0]` on, with `out` the
   * entries so far: blank lines are skipped, and once `maxLines` entries
   * exist the ellipsis is added and the loop stops.
   */
  function BulletLoop(lines: seq<string>, out: seq<string>, maxLines: nat): seq<string>
    decreases |lines|
  {
    if lines == [] then out
    else
      var s := Strip(lines[0]);
      if s == [] then BulletLoop(lines[1..], out, maxLines)
      else
        var more := out + [Bullet(s)];
        if |more| >= maxLines then more + [[Ellipsis]]
        else BulletLoop(lines[1..], more, maxLines)
  }

  /** `_to_bullets`. */
  method ToBullets(text: string, maxLines: nat) returns (r: string)
    ensures r == Join("\n", BulletLoop(SplitLines(text), [], maxLines))
  {
    var lines := SplitLines(text);
    var out: seq<string> := [];
    var i := 0;
    while i < |lines|
      invariant 0 <= i <= |lines|
      invariant BulletLoop(lines[i..], out, maxLines) == BulletLoop(lines, [], maxLines)
    {
      assert lines[i..][1..] == lines[i + 1..];
      var s := Strip(lines[i]);
      if s != [] {
        out := out + [Bullet(s)];
        if |out| >= maxLines {
          out := out + [[Ellipsis]];
          break;
        }
      }
      i := i + 1;
    }
    r := Join("\n", out);
  }

  /** The stripped non-blank lines, in order. */
  function NonBlank(lines: seq<string>): (r: seq<string>)
    ensures forall k :: 0 <= k < |r| ==> r[k] != []
  {
    if lines == [] then []
    else (if Strip(lines[0]) == [] then [] else [Strip(lines[0])]) + NonBlank(lines[1..])
  }

  function Bullets(xs: seq<string>): (r: seq<string>)
    requires forall k :: 0 <= k < |xs| ==> xs[k] != []
    ensures |r| == |xs|
    ensures forall k :: 0 <= k < |xs| ==> r[k] == Bullet(xs[k])
  {
    seq(|xs|, k requires 0 <= k < |xs| => Bullet(xs[k]))
  }

  /** How many entries `_to_bullets` keeps before the ellipsis: `maxLines`, but at least one. */
  function Cap(maxLines: nat): nat {
    if maxLines == 0 then 1 else maxLines
  }

  /** A list cut to its first `m` entries, with the ellipsis after a cut. */
  function Truncate(bs: seq<string>, m: nat): seq<string> {
    if |bs| >= m then bs[..m] + [[Ellipsis]] else bs
  }

  lemma BulletsCons(s: string, xs: seq<string>)
    requires s != [] && forall k :: 0 <= k < |xs| ==> xs[k] != []
    ensures Bullets([s] + xs) == [Bullet(s)] + Bullets(xs)
  {
    var l, r := Bullets([s] + xs), [Bullet(s)] + Bullets(xs);
    assert |l| == |r|;
    forall k | 0 <= k < |l|
      ensures l[k] == r[k]
    {
      if k > 0 {
        assert ([s] + xs)[k] == xs[k - 1];
      }
    }
  }

  /** A cut after `more`, the entries so far, whatever comes next. */
  lemma TruncateAtCap(more: seq<string>, rest: seq<string>, m: nat)
    requires |more| == m
    ensures Truncate(more + rest, m) == more + [[Ellipsis]]
  {
    assert (more + rest)[..m] == more;
  }

  lemma {:induction false} BulletLoopTruncates(lines: seq<string>, out: seq<string>, maxLines: nat)
    requires |out| < Cap(maxLines)
    ensures BulletLoop(lines, out, maxLines) == Truncate(out + Bullets(NonBlank(lines)), Cap(maxLines))
    decreases |lines|
  {
    if lines == [] {
      assert out + Bullets(NonBlank(lines)) == out;
    } else {
      var s := Strip(lines[0]);
      if s == [] {
        assert NonBlank(lines) == NonBlank(lines[1..]);
        BulletLoopTruncates(lines[1..], out, maxLines);
      } else {
        var rest := Bullets(NonBlank(lines[1..]));
        assert NonBlank(lines) == [s] + NonBlank(lines[1..]);
        BulletsCons(s, NonBlank(lines[1..]));
        var more := out + [Bullet(s)];
        assert out + Bullets(NonBlank(lines)) == more + rest;
        if |more| < maxLines {
          BulletLoopTruncates(lines[1..], more, maxLines);
        } else {
          TruncateAtCap(more, rest, Cap(maxLines));
        }
      }
    }
  }

  /**
   * `_to_bullets` in one sentence: the bullets of the non-blank lines, cut
   * after `maxLines` of them (at least one) with the ellipsis.
   */
  lemma ToBulletsIsTruncation(text: string, maxLines: nat)
    ensures BulletLoop(SplitLines(text), [], maxLines) ==
            Truncate(Bullets(NonBlank(SplitLines(text))), Cap(maxLines))
  {
    BulletLoopTruncates(SplitLines(text), [], maxLines);
    assert [] + Bullets(NonBlank(SplitLines(text))) == Bullets(NonBlank(SplitLines(text)));
  }

  /**
   * The list has at most `maxLines` + 1 entries (2 when `maxLines` is 0);
   * every entry is a bullet, except a last one that is the ellipsis; and
   * there are as many bullets as non-blank lines when nothing is cut.
   */
  lemma BulletListShape(text: string, maxLines: nat)
    ensures |BulletLoop(SplitLines(text), [], maxLines)| <= Cap(maxLines) + 1
    ensures forall k :: 0 <= k < |BulletLoop(SplitLines(text), [], maxLines)| ==>
              StartsWith(BulletLoop(SplitLines(text), [], maxLines)[k], "- ") ||
              (k == |BulletLoop(SplitLines(text), [], maxLines)| - 1 &&
               BulletLoop(SplitLines(text), [], maxLines)[k] == [Ellipsis])
    ensures |NonBlank(SplitLines(text))| < Cap(maxLines) ==>
              BulletLoop(SplitLines(text), [], maxLines) == Bullets(NonBlank(SplitLines(text)))
  {
    ToBulletsIsTruncation(text, maxLines);
  }

  lemma {:induction false} NonBlankNoBreak(lines: seq<string>)
    requires forall k :: 0 <= k < |lines| ==> NoBreak(lines[k])
    ensures forall k :: 0 <= k < |NonBlank(lines)| ==> NoBreak(NonBlank(lines)[k])
  {
    if lines != [] {
      assert NoBreak(lines[0]);
      StripNoBreak(lines[0]);
      NonBlankNoBreak(lines[1..]);
    }
  }

  /** Reading the bullet text back line by line gives exactly the entries. */
  lemma BulletsReadBack(text: string, maxLines: nat)
    ensures SplitLines(Join("\n", BulletLoop(SplitLines(text), [], maxLines))) ==
            BulletLoop(SplitLines(text), [], maxLines)
  {
    var lines := SplitLines(text);
    forall k | 0 <= k < |lines|
      ensures NoBreak(lines[k])
    {
    }
    NonBlankNoBreak(lines);
    ToBulletsIsTruncation(text, maxLines);
    var bs := Bullets(NonBlank(lines));
    var r := BulletLoop(lines, [], maxLines);
    forall k | 0 <= k < |r|
      ensures r[k] != [] && NoBreak(r[k])
    {
      if |bs| >= Cap(maxLines) && k == Cap(maxLines) {
        assert r[k] == [Ellipsis];
      } else {
        assert r[k] == bs[k];
        assert NoBreak(NonBlank(lines)[k]);
      }
    }
    SplitLinesJoin(r);
  }

  // ---------------------------------------------------------------------
  // _sectionize

  /** The eleven section names a heading line may contain. */
  const Headings: seq<string> := [
    "Executive Summary", "Statement of Need", "Recent Indicator Trends",
    "Community Voice", "Target Population", "Proposed Strategies",
    "Partnerships", "SMART Outcomes", "Implementation Timeline",
    "Evaluation & Equity Monitoring", "Budget & Sustainability"]

  /** `line` contains one of `names`. */
  predicate NamesAny(line: string, names: seq<string>) {
    names != [] && (Contains(line, names[0]) || NamesAny(line, names[1..]))
  }

  predicate NamesHeading(line: string) {
    NamesAny(line, Headings)
  }

  /** A non-blank line, not indented by a space, that names one of the headings. */
  predicate IsHeading(line: string) {
    Strip(line) != [] && !StartsWith(line, " ") && NamesHeading(line)
  }

  /** The `sections` dictionary: heading and body lines, in insertion order. */
  type Sections = seq<(string, seq<string>)>

  function Keys(secs: Sections): (ks: seq<string>)
    ensures |ks| == |secs|
    ensures forall i :: 0 <= i < |secs| ==> ks[i] == secs[i].0
  {
    seq(|secs|, i requires 0 <= i < |secs| => secs[i].0)
  }

  predicate DistinctKeys(secs: Sections) {
    forall i, j :: 0 <= i < j < |secs| ==> secs[i].0 != secs[j].0
  }

  function IndexOf(secs: Sections, k: string): (i: nat)
    requires k in Keys(secs)
    ensures i < |secs| && secs[i].0 == k
  {
    if secs[0].0 == k then 0 else 1 + IndexOf(secs[1..], k)
  }

  /** `sections[k]`. */
  function Get(secs: Sections, k: string): seq<string>
    requires k in Keys(secs)
  {
    secs[IndexOf(secs, k)].1
  }

  /** `sections[k] = v`: a new key goes last, an existing one keeps its place. */
  function Put(secs: Sections, k: string, v: seq<string>): (r: Sections)
    requires DistinctKeys(secs)
    ensures DistinctKeys(r)
    ensures k in Keys(secs) ==> Keys(r) == Keys(secs)
    ensures k !in Keys(secs) ==> Keys(r) == Keys(secs) + [k]
    ensures k in Keys(r) && Get(r, k) == v
    ensures forall j :: j in Keys(secs) && j != k ==> j in Keys(r) && Get(r, j) == Get(secs, j)
  {
    if k in Keys(secs) then
      var i := IndexOf(secs, k);
      var r := secs[i := (k, v)];
      assert Keys(r) == Keys(secs);
      assert forall j :: j in Keys(secs) ==> IndexOf(r, j) == IndexOf(secs, j);
      r
    else
      var r := secs + [(k, v)];
      assert Keys(r) == Keys(secs) + [k];
      assert forall j :: j in Keys(secs) ==> IndexOf(r, j) == IndexOf(secs, j);
      assert IndexOf(r, k) == |secs|;
      r
  }

  /** The state of the `_sectionize` loop: the sections so far and `current`. */
  datatype Scan = Scan(secs: Sections, cur: Option<string>)

  predicate ScanOk(s: Scan) {
    DistinctKeys(s.secs) && (s.cur.Some? ==> s.cur.value in Keys(s.secs))
  }

  /**
   * One line: a heading opens (or reopens, emptied) its section and becomes
   * current; any other line is added to the current section, if there is one.
   */
  function Step(s: Scan, line: string): (r: Scan)
    requires ScanOk(s)
    ensures ScanOk(r)
  {
    if IsHeading(line) then
      var c := Strip(line);
      Scan(Put(s.secs, c, []), Some(c))
    else if s.cur.Some? then
      Scan(Put(s.secs, s.cur.value, Get(s.secs, s.cur.value) + [line]), s.cur)
    else s
  }

  function ScanAll(lines: seq<string>): (s: Scan)
    ensures ScanOk(s)
  {
    if lines == [] then Scan([], None)
    else Step(ScanAll(lines[..|lines| - 1]), lines[|lines| - 1])
  }

  /** The returned dictionary: each section's lines joined by `\n` and stripped. */
  function Finalize(secs: Sections): (r: seq<(string, string)>)
    ensures |r| == |secs|
    ensures forall i :: 0 <= i < |secs| ==> r[i] == (secs[i].0, Strip(Join("\n", secs[i].1)))
  {
    seq(|secs|, i requires 0 <= i < |secs| => (secs[i].0, Strip(Join("\n", secs[i].1))))
  }

  /** `_sectionize`. */
  method Sectionize(text: string) returns (r: seq<(string, string)>)
    ensures r == Finalize(ScanAll(SplitLines(text)).secs)
  {
    var lines := SplitLines(text);
    var sections: Sections := [];
    var current: Option<string> := None;
    for i := 0 to |lines|
      invariant Scan(sections, current) == ScanAll(lines[..i])
    {
      assert lines[..i + 1][..i] == lines[..i];
      var line := lines[i];
      if Strip(line) != [] && !StartsWith(line, " ") {
        if NamesHeading(line) {
          current := Some(Strip(line));
          sections := Put(sections, current.value, []);
          continue;
        }
      }
      if current.Some? {
        sections := Put(sections, current.value, Get(sections, current.value) + [line]);
      }
    }
    assert lines[..|lines|] == lines;
    r := Finalize(sections);
  }

  // ---------------------------------------------------------------------
  // What _sectionize returns, stated on the lines

  /** The last heading line whose stripped text is `k`. */
  function LastHeading(lines: seq<string>, k: string): (h: Option<nat>)
    ensures h.Some? ==> h.value < |lines| && IsHeading(lines[h.value]) && Strip(lines[h.value]) == k
    ensures h.Some? ==> forall j :: h.value < j < |lines| ==> !(IsHeading(lines[j]) && Strip(lines[j]) == k)
    ensures h.None? ==> forall j :: 0 <= j < |lines| ==> !(IsHeading(lines[j]) && Strip(lines[j]) == k)
  {
    if lines == [] then None
    else
      var n := |lines| - 1;
      if IsHeading(lines[n]) && Strip(lines[n]) == k then Some(n)
      else
        assert forall j :: 0 <= j < n ==> lines[..n][j] == lines[j];
        LastHeading(lines[..n], k)
  }

  /** The last heading line of all. */
  function LastAny(lines: seq<string>): (h: Option<nat>)
    ensures h.Some? ==> h.value < |lines| && IsHeading(lines[h.value])
    ensures h.Some? ==> forall j :: h.value < j < |lines| ==> !IsHeading(lines[j])
    ensures h.None? ==> forall j :: 0 <= j < |lines| ==> !IsHeading(lines[j])
  {
    if lines == [] then None
    else
      var n := |lines| - 1;
      if IsHeading(lines[n]) then Some(n)
      else
        assert forall j :: 0 <= j < n ==> lines[..n][j] == lines[j];
        LastAny(lines[..n])
  }

  /** The first heading line at or after `from`, or the end of the text. */
  function NextHeading(lines: seq<string>, from: nat): (e: nat)
    requires from <= |lines|
    ensures from <= e <= |lines|
    ensures e < |lines| ==> IsHeading(lines[e])
    ensures forall j :: from <= j < e ==> !IsHeading(lines[j])
    decreases |lines| - from
  {
    if from == |lines| || IsHeading(lines[from]) then from else NextHeading(lines, from + 1)
  }

  /**
   * The body of section `k`: the lines after its last heading line, up to
   * the next heading line or the end.
   */
  function Body(lines: seq<string>, k: string): seq<string>
    requires LastHeading(lines, k).Some?
  {
    var h := LastHeading(lines, k).value;
    lines[h + 1..NextHeading(lines, h + 1)]
  }

  /** The scan of a text, stated without the loop. */
  ghost predicate ScanMatches(lines: seq<string>, s: Scan) {
    && (forall k :: k in Keys(s.secs) <==> LastHeading(lines, k).Some?)
    && s.cur == (match LastAny(lines) case None => None case Some(h) => Some(Strip(lines[h])))
    && (forall k :: k in Keys(s.secs) ==> DistinctKeys(s.secs) && Get(s.secs, k) == Body(lines, k))
  }

  /** Adding a line to the end of a text leaves the next heading of an earlier position where it was, or at the new line. */
  lemma NextHeadingSnoc(lines: seq<string>, x: string, from: nat)
    requires from <= |lines|
    ensures NextHeading(lines + [x], from) ==
      (if NextHeading(lines, from) < |lines| || IsHeading(x) then NextHeading(lines, from) else |lines| + 1)
    decreases |lines| - from
  {
    var l := lines + [x];
    if from < |lines| {
      assert l[from] == lines[from];
      if !IsHeading(lines[from]) {
        NextHeadingSnoc(lines, x, from + 1);
      }
    }
  }

  lemma {:induction false} ScanAllMatches(lines: seq<string>)
    ensures ScanMatches(lines, ScanAll(lines))
  {
    if lines != [] {
      var n := |lines| - 1;
      var p, x := lines[..n], lines[n];
      assert lines == p + [x];
      ScanAllMatches(p);
      var s := ScanAll(p);
      if IsHeading(x) {
        StepHeading(p, x, s);
      } else if s.cur.Some? {
        StepBodyLine(p, x, s);
      } else {
        StepBeforeHeadings(p, x, s);
      }
    }
  }

  lemma LastHeadingSnoc(p: seq<string>, x: string, k: string)
    ensures LastHeading(p + [x], k) ==
      (if IsHeading(x) && Strip(x) == k then Some(|p|) else LastHeading(p, k))
  {
    assert (p + [x])[..|p|] == p;
  }

  lemma LastAnySnoc(p: seq<string>, x: string)
    ensures LastAny(p + [x]) == (if IsHeading(x) then Some(|p|) else LastAny(p))
  {
    assert (p + [x])[..|p|] == p;
  }

  /** A section closed by a later heading line keeps its body when a line is added. */
  lemma BodyClosed(p: seq<string>, x: string, h: nat)
    requires h < |p|
    requires NextHeading(p, h + 1) < |p| || IsHeading(x)
    ensures (p + [x])[h + 1..NextHeading(p + [x], h + 1)] == p[h + 1..NextHeading(p, h + 1)]
  {
    NextHeadingSnoc(p, x, h + 1);
    var e := NextHeading(p, h + 1);
    assert (p + [x])[h + 1..e] == p[h + 1..e];
  }

  /** The section still open at the end of the text takes the added line. */
  lemma BodyOpen(p: seq<string>, x: string, h: nat)
    requires h < |p| && !IsHeading(x)
    requires NextHeading(p, h + 1) == |p|
    ensures (p + [x])[h + 1..NextHeading(p + [x], h + 1)] == p[h + 1..NextHeading(p, h + 1)] + [x]
  {
    NextHeadingSnoc(p, x, h + 1);
    assert (p + [x])[h + 1..|p| + 1] == p[h + 1..|p|] + [x];
  }

  /** A heading line added at the end opens a section with an empty body. */
  lemma BodyFresh(p: seq<string>, x: string)
    ensures (p + [x])[|p| + 1..NextHeading(p + [x], |p| + 1)] == []
  {
    assert NextHeading(p + [x], |p + [x]|) == |p + [x]|;
  }

  lemma StepHeading(p: seq<string>, x: string, s: Scan)
    requires ScanOk(s) && ScanMatches(p, s) && IsHeading(x)
    ensures ScanMatches(p + [x], Step(s, x))
  {
    var lines, c, r := p + [x], Strip(x), Step(s, x);
    LastAnySnoc(p, x);
    assert lines[|p|] == x;
    forall k
      ensures k in Keys(r.secs) <==> LastHeading(lines, k).Some?
    {
      LastHeadingSnoc(p, x, k);
    }
    forall k | k in Keys(r.secs)
      ensures Get(r.secs, k) == Body(lines, k)
    {
      HeadingKey(p, x, s, k);
    }
  }

  /** A heading line empties its own section and leaves every other section's body alone. */
  lemma HeadingKey(p: seq<string>, x: string, s: Scan, k: string)
    requires ScanOk(s) && ScanMatches(p, s) && IsHeading(x)
    requires k in Keys(Step(s, x).secs)
    ensures LastHeading(p + [x], k).Some? && Get(Step(s, x).secs, k) == Body(p + [x], k)
  {
    if k == Strip(x) {
      BodyOpened(p, x);
    } else {
      assert LastHeading(p, k).Some? && Get(s.secs, k) == Body(p, k);
      BodyClosedBy(p, x, k);
    }
  }

  lemma BodyOpened(p: seq<string>, x: string)
    requires IsHeading(x)
    ensures LastHeading(p + [x], Strip(x)) == Some(|p|)
    ensures Body(p + [x], Strip(x)) == []
  {
    LastHeadingSnoc(p, x, Strip(x));
    BodyFresh(p, x);
  }

  lemma BodyClosedBy(p: seq<string>, x: string, k: string)
    requires IsHeading(x) && Strip(x) != k && LastHeading(p, k).Some?
    ensures LastHeading(p + [x], k) == LastHeading(p, k)
    ensures Body(p + [x], k) == Body(p, k)
  {
    LastHeadingSnoc(p, x, k);
    BodyClosed(p, x, LastHeading(p, k).value);
  }

  lemma StepBodyLine(p: seq<string>, x: string, s: Scan)
    requires ScanOk(s) && ScanMatches(p, s) && !IsHeading(x) && s.cur.Some?
    ensures ScanMatches(p + [x], Step(s, x))
  {
    var lines, r := p + [x], Step(s, x);
    LastAnySnoc(p, x);
    forall k
      ensures k in Keys(r.secs) <==> LastHeading(lines, k).Some?
    {
      LastHeadingSnoc(p, x, k);
    }
    forall k | k in Keys(r.secs)
      ensures Get(r.secs, k) == Body(lines, k)
    {
      BodyLineKey(p, x, s, k);
    }
  }

  /** A body line goes to the current section only; every other section keeps its body. */
  lemma BodyLineKey(p: seq<string>, x: string, s: Scan, k: string)
    requires ScanOk(s) && ScanMatches(p, s) && !IsHeading(x) && s.cur.Some?
    requires k in Keys(s.secs)
    ensures LastHeading(p + [x], k).Some? && Get(Step(s, x).secs, k) == Body(p + [x], k)
  {
    assert LastHeading(p, k).Some? && Get(s.secs, k) == Body(p, k);
    var c, last := s.cur.value, LastAny(p).value;
    if k == c {
      BodyExtended(p, x, c, last);
    } else {
      BodyKept(p, x, k, c, last);
    }
  }

  /** The section of the last heading line takes a non-heading line added at the end. */
  lemma BodyExtended(p: seq<string>, x: string, c: string, last: nat)
    requires !IsHeading(x) && LastAny(p) == Some(last) && Strip(p[last]) == c
    ensures LastHeading(p + [x], c) == LastHeading(p, c) == Some(last)
    ensures Body(p + [x], c) == Body(p, c) + [x]
  {
    LastHeadingSnoc(p, x, c);
    LastHeadingOfLast(p, last);
    NothingAfterLast(p, last);
    BodyOpen(p, x, last);
  }

  /** The last heading line is the last one of its own section. */
  lemma LastHeadingOfLast(p: seq<string>, last: nat)
    requires LastAny(p) == Some(last)
    ensures LastHeading(p, Strip(p[last])) == Some(last)
  {
    var h := LastHeading(p, Strip(p[last]));
    assert h.Some?;
    assert h.value >= last;
  }

  /** The next heading line comes no later than any heading line at or after `from`. */
  lemma HeadingBound(p: seq<string>, from: nat, j: nat)
    requires from <= j < |p| && IsHeading(p[j])
    ensures NextHeading(p, from) <= j
  {
  }

  /** A heading line sits no later than the last heading line. */
  lemma NoHeadingAfterLast(p: seq<string>, last: nat, h: nat)
    requires LastAny(p) == Some(last) && h < |p| && IsHeading(p[h])
    ensures h <= last
  {
  }

  /** No heading line follows the last heading line. */
  lemma NothingAfterLast(p: seq<string>, last: nat)
    requires LastAny(p) == Some(last)
    ensures NextHeading(p, last + 1) == |p|
  {
  }

  /** Every other section keeps its body when a non-heading line is added at the end. */
  lemma BodyKept(p: seq<string>, x: string, k: string, c: string, last: nat)
    requires !IsHeading(x) && LastAny(p) == Some(last) && Strip(p[last]) == c && k != c
    requires LastHeading(p, k).Some?
    ensures LastHeading(p + [x], k) == LastHeading(p, k)
    ensures Body(p + [x], k) == Body(p, k)
  {
    LastHeadingSnoc(p, x, k);
    var h := LastHeading(p, k).value;
    NoHeadingAfterLast(p, last, h);
    assert h != last;
    HeadingBound(p, h + 1, last);
    BodyClosed(p, x, h);
  }

  lemma StepBeforeHeadings(p: seq<string>, x: string, s: Scan)
    requires ScanOk(s) && ScanMatches(p, s) && !IsHeading(x) && s.cur.None?
    ensures ScanMatches(p + [x], Step(s, x))
  {
    LastAnySnoc(p, x);
    forall k
      ensures LastHeading(p + [x], k).None?
    {
      LastHeadingSnoc(p, x, k);
    }
  }

  /**
   * `_sectionize` returns one entry per distinct stripped heading line,
   * each holding the stripped text of the lines under that heading's last
   * occurrence, up to the next heading line.
   */
  lemma SectionizeSpec(text: string)
    ensures var lines, secs := SplitLines(text), ScanAll(SplitLines(text)).secs;
      && DistinctKeys(secs)
      && (forall k :: k in Keys(secs) <==> LastHeading(lines, k).Some?)
      && (forall i :: 0 <= i < |secs| ==>
            Finalize(secs)[i] == (secs[i].0, Strip(Join("\n", Body(lines, secs[i].0)))))
  {
    var lines := SplitLines(text);
    var secs := ScanAll(lines).secs;
    ScanAllMatches(lines);
    forall i | 0 <= i < |secs|
      ensures secs[i].1 == Body(lines, secs[i].0)
    {
      assert secs[i].0 in Keys(secs);
      assert IndexOf(secs, secs[i].0) == i;
    }
  }

  /** A text without heading lines has no sections. */
  lemma NoHeadingNoSections(text: string)
    requires forall j :: 0 <= j < |SplitLines(text)| ==> !IsHeading(SplitLines(text)[j])
    ensures Finalize(ScanAll(SplitLines(text)).secs) == []
  {
    var lines := SplitLines(text);
    var secs := ScanAll(lines).secs;
    ScanAllMatches(lines);
    SectionsNeedHeadings(lines, ScanAll(lines));
  }

  lemma SectionsNeedHeadings(lines: seq<string>, s: Scan)
    requires ScanMatches(lines, s)
    ensures s.secs != [] ==> LastAny(lines).Some?
  {
    if s.secs != [] {
      var k := s.secs[0].0;
      assert k in Keys(s.secs);
      var h := LastHeading(lines, k).value;
      assert IsHeading(lines[h]);
    }
  }
}
