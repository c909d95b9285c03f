/**
 * `extractHeadings` (src/lib/utils.ts): every match of `/^(#{2,3})\s+(.+)$/gm`,
 * found by repeated `exec`, becomes a heading with the number of marks as its
 * depth, the trimmed group 2 as its text and `slugify(text)` as its slug.
 */
module Headings {
  import opened Opt
  import opened Text
  import Slug

  datatype Heading = Heading(depth: nat, text: string, slug: string)

  /** One match of the heading pattern: its span, the number of marks and the text of group 2. */
  datatype HeadingMatch = HeadingMatch(start: nat, end: nat, depth: nat, text: string)

  predicate IsHash(c: char) { c == '#' }

  /** The number of `#` marks starting at `p`. */
  function HashCount(s: string, p: nat): nat
    requires p <= |s|
  {
    RunEnd(s, p, IsHash) - p
  }

  /**
   * The last position in `[lo, hi)` that is not a line break: where `.+` can
   * start once `\s+` has given back as few characters as possible.
   */
  function LastNonBreak(s: string, lo: nat, hi: nat): (r: Option<nat>)
    requires hi <= |s|
    decreases hi
    ensures r.Some? ==> lo <= r.value < hi && !IsLineBreak(s[r.value])
    ensures r.Some? ==> forall j | r.value < j < hi :: IsLineBreak(s[j])
    ensures r.None? ==> forall j | lo <= j < hi :: IsLineBreak(s[j])
  {
    if hi <= lo then None
    else if !IsLineBreak(s[hi - 1]) then Some(hi - 1)
    else LastNonBreak(s, lo, hi - 1)
  }

  /**
   * The text of `m` is the rest of a line of `s`: it follows whitespace that
   * starts at `q`, ends where the match ends, and a line break or the end of
   * the text comes next.
   */
  predicate TextEndsLine(s: string, q: nat, m: HeadingMatch) {
    && m.text != []
    && q < m.end - |m.text|
    && m.end <= |s|
    && (forall j | q <= j < m.end - |m.text| :: IsSpace(s[j]))
    && s[m.end - |m.text|..m.end] == m.text
    && (m.end < |s| ==> IsLineBreak(s[m.end]))
  }

  lemma LineTextSpan(s: string, q: nat, t: nat, e: nat, m: HeadingMatch)
    requires q < t < e <= |s| && m.end == e && m.text == s[t..e]
    requires forall j | q <= j < t :: IsSpace(s[j])
    requires forall j | t <= j < e :: NotLineBreak(s[j])
    requires e < |s| ==> IsLineBreak(s[e])
    ensures TextEndsLine(s, q, m)
    ensures forall c | c in m.text :: !IsLineBreak(c)
  {
    SliceAll(s, t, e, NotLineBreak);
  }

  /** `\s+(.+)$` tried at `p + n`, after `#{2,3}` has taken `n` marks at `p`. */
  function RestAt(s: string, p: nat, n: nat): (m: Option<HeadingMatch>)
    requires p + n <= |s|
    ensures m.Some? ==> m.value.start == p && p + n < m.value.end <= |s| && m.value.depth == n
    ensures m.Some? ==> forall c | c in m.value.text :: !IsLineBreak(c)
    ensures m.Some? ==> TextEndsLine(s, p + n, m.value)
  {
    var q := p + n;
    if q == |s| || !IsSpace(s[q]) then None
    else
      var w := RunEnd(s, q, IsSpace);
      if w < |s| then
        // `s[w]` is not whitespace, hence no line break: `.+` takes the rest of its line
        var e := RunEnd(s, w, NotLineBreak);
        LineTextSpan(s, q, w, e, HeadingMatch(p, e, n, s[w..e]));
        Some(HeadingMatch(p, e, n, s[w..e]))
      else
        // the whitespace reaches the end of the text: `\s+` gives characters back
        // until `.+` can start on one that is not a line break
        match LastNonBreak(s, q + 1, |s|)
        case None => None
        case Some(t) =>
          var e := RunEnd(s, t, NotLineBreak);
          LineTextSpan(s, q, t, e, HeadingMatch(p, e, n, s[t..e]));
          Some(HeadingMatch(p, e, n, s[t..e]))
  }

  /** The pattern anchored at `p`; `#{2,3}` is greedy, so three marks are tried before two. */
  function MatchAt(s: string, p: nat): (m: Option<HeadingMatch>)
    ensures m.Some? ==> m.value.start == p < m.value.end <= |s|
    ensures m.Some? ==> m.value.depth == 2 || m.value.depth == 3
    ensures m.Some? ==> forall c | c in m.value.text :: !IsLineBreak(c)
    ensures m.Some? ==> TextEndsLine(s, p + m.value.depth, m.value)
  {
    if p >= |s| || !AtLineStart(s, p) then None
    else
      var h := HashCount(s, p);
      if h < 2 then None
      else if h == 2 then RestAt(s, p, 2)
      else
        var three := RestAt(s, p, 3);
        if three.Some? then three else RestAt(s, p, 2)
  }

  /**
   * What the pattern accepts at `p`: a line start, exactly two or three marks,
   * whitespace right after them, and somewhere after that whitespace a
   * character that is not a line break.
   */
  predicate HeadingLine(s: string, p: nat) {
    && p < |s|
    && AtLineStart(s, p)
    && (HashCount(s, p) == 2 || HashCount(s, p) == 3)
    && p + HashCount(s, p) < |s|
    && IsSpace(s[p + HashCount(s, p)])
    && exists k | p + HashCount(s, p) < k < |s| :: !IsLineBreak(s[k])
  }

  lemma RestAtSucceeds(s: string, p: nat, n: nat, k: nat)
    requires p + n < |s| && IsSpace(s[p + n])
    requires p + n < k < |s| && !IsLineBreak(s[k])
    ensures RestAt(s, p, n).Some?
  {
    var q := p + n;
    var w := RunEnd(s, q, IsSpace);
    if w == |s| {
      var found := LastNonBreak(s, q + 1, |s|);
    }
  }

  lemma RestAtNeedsText(s: string, p: nat, n: nat)
    requires p + n <= |s| && RestAt(s, p, n).Some?
    ensures p + n < |s| && IsSpace(s[p + n])
    ensures exists k | p + n < k < |s| :: !IsLineBreak(s[k])
  {
    var q := p + n;
    var w := RunEnd(s, q, IsSpace);
    if w < |s| {
      assert !IsLineBreak(s[w]);
    } else {
      var t := LastNonBreak(s, q + 1, |s|).value;
      assert !IsLineBreak(s[t]);
    }
  }

  /** The matcher accepts exactly the heading lines, and the depth is the number of marks. */
  lemma MatchAtIsHeadingLine(s: string, p: nat)
    ensures MatchAt(s, p).Some? <==> HeadingLine(s, p)
    ensures MatchAt(s, p).Some? ==> MatchAt(s, p).value.depth == HashCount(s, p)
  {
    if p < |s| && AtLineStart(s, p) {
      var h := HashCount(s, p);
      if h >= 3 {
        assert s[p + 2] == '#';
        if h > 3 {
          assert s[p + 3] == '#';
        }
      }
      if h >= 2 && RestAt(s, p, if h == 2 then 2 else 3).Some? {
        RestAtNeedsText(s, p, if h == 2 then 2 else 3);
      }
      if HeadingLine(s, p) {
        var k :| p + h < k < |s| && !IsLineBreak(s[k]);
        RestAtSucceeds(s, p, h, k);
      }
    }
  }

  /** A line opening with one mark, or with four or more, yields no heading. */
  lemma OtherMarkCountsIgnored(s: string, p: nat)
    requires p <= |s|
    requires HashCount(s, p) == 1 || HashCount(s, p) >= 4
    ensures MatchAt(s, p).None?
  {
    MatchAtIsHeadingLine(s, p);
  }

  /** One `exec` with `lastIndex == from`: the leftmost match starting at or after `from`. */
  function NextMatch(s: string, from: nat): (m: Option<HeadingMatch>)
    ensures m.Some? ==> from <= m.value.start < m.value.end <= |s| && ValidMatch(m.value)
    decreases |s| - from
  {
    if from >= |s| then None
    else if MatchAt(s, from).Some? then MatchAt(s, from)
    else NextMatch(s, from + 1)
  }

  /** `exec` returns the match found at its own start. */
  lemma {:induction false} NextMatchIsLeftmost(s: string, from: nat)
    requires NextMatch(s, from).Some?
    decreases |s| - from
    ensures MatchAt(s, NextMatch(s, from).value.start) == NextMatch(s, from)
  {
    if from < |s| && MatchAt(s, from).None? {
      NextMatchIsLeftmost(s, from + 1);
    }
  }

  /** Nothing matches between `from` and the start of the match found, nor anywhere after `from` when none is found. */
  lemma {:induction false} NoMatchBefore(s: string, from: nat, i: nat)
    requires from <= i
    requires NextMatch(s, from).None? || i < NextMatch(s, from).value.start
    decreases i - from
    ensures MatchAt(s, i).None?
  {
    if from < i {
      assert NextMatch(s, from) == NextMatch(s, from + 1);
      NoMatchBefore(s, from + 1, i);
    } else if from < |s| {
      assert NextMatch(s, from).None? || NextMatch(s, from) != MatchAt(s, from);
    }
  }


  /** The matches that successive `exec` calls return, starting from `lastIndex == from`. */
  function Scan(s: string, from: nat): (ms: seq<HeadingMatch>)
    requires from <= |s|
    decreases |s| - from
    ensures forall i | 0 <= i < |ms| :: from <= ms[i].start && ValidMatch(ms[i])
    ensures forall i | 0 <= i < |ms| - 1 :: ms[i].end <= ms[i + 1].start
  {
    match NextMatch(s, from)
    case None => []
    case Some(m) =>
      var rest := Scan(s, m.end);
      assert forall i | 0 < i <= |rest| :: ([m] + rest)[i] == rest[i - 1];
      [m] + rest
  }

  /** Each match the scan returns is the pattern's match at its own start. */
  lemma {:induction false} ScanMatches(s: string, from: nat)
    requires from <= |s|
    decreases |s| - from
    ensures forall i | 0 <= i < |Scan(s, from)| :: MatchAt(s, Scan(s, from)[i].start) == Some(Scan(s, from)[i])
  {
    match NextMatch(s, from)
    case None =>
    case Some(m) =>
      NextMatchIsLeftmost(s, from);
      ScanMatches(s, m.end);
      var rest := Scan(s, m.end);
      assert Scan(s, from) == [m] + rest;
      forall i | 0 <= i < |[m] + rest| ensures MatchAt(s, ([m] + rest)[i].start) == Some(([m] + rest)[i]) {
        if i > 0 {
          assert ([m] + rest)[i] == rest[i - 1];
        }
      }
  }

  /**
   * No heading line is skipped: every position where the pattern matches is the
   * start of a returned match or lies inside one (the only way a line can be
   * passed over is by `\s+` carrying an earlier match across it).
   */
  lemma {:induction false} ScanMissesNothing(s: string, from: nat, p: nat)
    requires from <= p < |s| && MatchAt(s, p).Some?
    ensures exists i | 0 <= i < |Scan(s, from)| :: Scan(s, from)[i].start <= p < Scan(s, from)[i].end
    decreases |s| - from
  {
    var m := NextMatch(s, from);
    var ms := Scan(s, from);
    if m.None? || p < m.value.start {
      NoMatchBefore(s, from, p);
      assert false;
    }
    NextMatchIsLeftmost(s, from);
    assert ms[0] == m.value;
    if p >= m.value.end {
      ScanMissesNothing(s, m.value.end, p);
      var rest := Scan(s, m.value.end);
      var i :| 0 <= i < |rest| && rest[i].start <= p < rest[i].end;
      assert ms[i + 1] == rest[i];
    }
  }

  /** A heading is well formed: depth 2 or 3, trimmed single-line text, and the slug of that text. */
  predicate WellFormed(h: Heading) {
    && (h.depth == 2 || h.depth == 3)
    && Trimmed(h.text)
    && (forall c | c in h.text :: !IsLineBreak(c))
    && h.slug == Slug.Slugify(h.text)
  }

  /** What the matcher guarantees of each match it returns. */
  predicate ValidMatch(m: HeadingMatch) {
    (m.depth == 2 || m.depth == 3) && forall c | c in m.text :: !IsLineBreak(c)
  }

  function HeadingOf(m: HeadingMatch): Heading {
    var text := Trim(m.text);
    Heading(m.depth, text, Slug.Slugify(text))
  }

  function HeadingsOf(ms: seq<HeadingMatch>): seq<Heading> {
    if ms == [] then [] else [HeadingOf(ms[0])] + HeadingsOf(ms[1..])
  }

  lemma HeadingOfWellFormed(m: HeadingMatch)
    requires ValidMatch(m)
    ensures WellFormed(HeadingOf(m))
  {
  }

  lemma {:induction false} HeadingsOfWellFormed(ms: seq<HeadingMatch>)
    requires forall i | 0 <= i < |ms| :: ValidMatch(ms[i])
    ensures |HeadingsOf(ms)| == |ms|
    ensures forall i | 0 <= i < |HeadingsOf(ms)| :: WellFormed(HeadingsOf(ms)[i])
  {
    if ms != [] {
      var h := HeadingOf(ms[0]);
      var rest := HeadingsOf(ms[1..]);
      assert HeadingsOf(ms) == [h] + rest;
      HeadingOfWellFormed(ms[0]);
      HeadingsOfWellFormed(ms[1..]);
      forall i | 0 < i < |ms| ensures WellFormed(([h] + rest)[i]) {
        assert ([h] + rest)[i] == rest[i - 1];
      }
    }
  }

  /** The outline of `markdown`: one heading per match, in document order, slugs not deduplicated. */
  function Outline(markdown: string): (hs: seq<Heading>)
    ensures forall i | 0 <= i < |hs| :: WellFormed(hs[i])
  {
    var ms := Scan(markdown, 0);
    HeadingsOfWellFormed(ms);
    HeadingsOf(ms)
  }

  /** One `exec` step of the outline: the next match's heading, then the rest. */
  lemma ScanStep(s: string, from: nat)
    requires from <= |s|
    ensures NextMatch(s, from).None? ==> HeadingsOf(Scan(s, from)) == []
    ensures NextMatch(s, from).Some? ==>
      HeadingsOf(Scan(s, from)) == [HeadingOf(NextMatch(s, from).value)] + HeadingsOf(Scan(s, NextMatch(s, from).value.end))
  {
    var ms := Scan(s, from);
    if ms != [] {
      assert ms[1..] == Scan(s, NextMatch(s, from).value.end);
    }
  }

  /** The `while ((match = headingRegex.exec(markdown)) !== null)` loop. */
  method ExtractHeadings(markdown: string) returns (headings: seq<Heading>)
    ensures headings == Outline(markdown)
    ensures forall i | 0 <= i < |headings| :: WellFormed(headings[i])
  {
    headings := [];
    var lastIndex := 0;
    while true
      invariant lastIndex <= |markdown|
      invariant headings + HeadingsOf(Scan(markdown, lastIndex)) == Outline(markdown)
      decreases |markdown| - lastIndex
    {
      ScanStep(markdown, lastIndex);
      var m := NextMatch(markdown, lastIndex);
      if m.None? {
        assert headings + [] == headings;
        break;
      }
      var heading := HeadingOf(m.value);
      Regroup(headings, [heading], HeadingsOf(Scan(markdown, m.value.end)), Outline(markdown));
      headings := headings + [heading];
      lastIndex := m.value.end;
    }
  }
}
