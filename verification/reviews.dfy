/**
 * `extractReviews` (src/lib/utils.ts): find the first `| Overall Quality Score |`
 * row, walk back at most ten lines to a header row, and pair the header's item
 * names with the `X/Y` ratings of the score row.
 */
module Reviews {
  import opened Opt
  import opened Text

  /** The review body: the text found (possibly empty), or not modelled for names holding regex syntax. */
  datatype Body = Body(text: string) | NotModelled

  /**
   * One rating. `ratingValue` is the matched `[\d.]+` text, which the source
   * hands to `parseFloat`; `bestRating` is the value of the digits after `/`.
   */
  datatype ReviewItem = ReviewItem(itemName: string, ratingValue: string, bestRating: nat, worstRating: nat, reviewBody: Body)

  /** A match of the score-row pattern: where it starts, and its group 1. */
  datatype ScoreMatch = ScoreMatch(start: nat, group: string)

  const ScoreLabel: string := "Overall Quality Score"

  /** The label as the `i` flag compares it. */
  const ScoreLabelLowered: string := "overall quality score"

  lemma ScoreLabelLoweredIsLower(s: string, i: nat)
    ensures StartsAtLowered(s, i, ScoreLabelLowered) <==> StartsAtIgnoreCase(s, i, ScoreLabel)
  {
    assert Lower(ScoreLabel) == ScoreLabelLowered;
  }

  /** The label starts with a letter, so the whitespace before it ends where it begins. */
  lemma ScoreLabelStart(s: string, i: nat)
    requires StartsAtIgnoreCase(s, i, ScoreLabel)
    ensures i < |s| && !IsSpace(s[i])
  {
    assert LowerChar(s[i]) == Lower(s[i..i + |ScoreLabel|])[0] == Lower(ScoreLabel)[0];
  }

  /** `.` without the `s` flag, and not the closing `|`. */
  predicate InCell(c: char) { !IsLineBreak(c) && c != '|' }

  /** `cell` stands between two bars of `s`, the second at `z`. */
  predicate CellEndsAt(s: string, z: nat, cell: string) {
    && |cell| < z < |s|
    && s[z - |cell| - 1] == '|'
    && s[z - |cell|..z] == cell
    && s[z] == '|'
  }

  lemma CellSpan(s: string, w: nat, z: nat)
    requires w < z < |s| && s[w] == '|' && s[z] == '|'
    ensures CellEndsAt(s, z, s[w + 1..z])
  {
  }

  /**
   * A score row laid out at `i`: a bar, whitespace, the label in any case from
   * `w1`, whitespace, a bar at `w2`, then `group` on one line up to the next bar.
   */
  predicate ScoreRowLayout(s: string, i: nat, w1: nat, w2: nat, group: string) {
    && i < w1 && w1 + |ScoreLabel| <= w2 && w2 + 1 + |group| < |s|
    && s[i] == '|'
    && (forall j | i + 1 <= j < w1 :: IsSpace(s[j]))
    && StartsAtIgnoreCase(s, w1, ScoreLabel)
    && (forall j | w1 + |ScoreLabel| <= j < w2 :: IsSpace(s[j]))
    && s[w2] == '|'
    && s[w2 + 1..w2 + 1 + |group|] == group
    && (forall c | c in group :: InCell(c))
    && s[w2 + 1 + |group|] == '|'
  }

  /**
   * `\|\s*Overall Quality Score\s*\|(.*?)\|` under the `i` flag, anchored at
   * `i`. The label starts with a letter and is followed by `|`, neither of which
   * is whitespace, so both `\s*` take whole runs; the lazy group stops at the
   * first `|`, and fails at a line break.
   */
  function ScoreRowAt(s: string, i: nat): (m: Option<ScoreMatch>)
    ensures m.Some? ==> m.value.start == i && '|' !in m.value.group
    ensures m.Some? ==> exists z :: CellEndsAt(s, z, m.value.group)
    ensures m.Some? ==> exists w1, w2 :: ScoreRowLayout(s, i, w1, w2, m.value.group)
  {
    if i >= |s| || s[i] != '|' then None
    else
      var w1 := RunEnd(s, i + 1, IsSpace);
      ScoreRowFacts(s, i, w1);
      LabelFrom(s, i, w1)
  }

  /** The rest of the score-row match once the whitespace after the opening bar ends at `w1`. */
  function LabelFrom(s: string, i: nat, w1: nat): (m: Option<ScoreMatch>)
    requires w1 <= |s|
  {
    if !StartsAtLowered(s, w1, ScoreLabelLowered) then None
    else CellFrom(s, i, RunEnd(s, w1 + |ScoreLabel|, IsSpace))
  }

  /** The rest of the score-row match once the whitespace after the label ends at `w2`. */
  function CellFrom(s: string, i: nat, w2: nat): (m: Option<ScoreMatch>)
    requires w2 <= |s|
  {
    if w2 >= |s| || s[w2] != '|' then None
    else
      var z := RunEnd(s, w2 + 1, InCell);
      if z >= |s| || s[z] != '|' then None
      else Some(ScoreMatch(i, s[w2 + 1..z]))
  }

  lemma ScoreRowFacts(s: string, i: nat, w1: nat)
    requires i < |s| && s[i] == '|' && w1 == RunEnd(s, i + 1, IsSpace)
    ensures LabelFrom(s, i, w1).Some? ==>
      var g := LabelFrom(s, i, w1).value.group;
      && LabelFrom(s, i, w1).value.start == i && '|' !in g
      && (exists z :: CellEndsAt(s, z, g))
      && (exists w1', w2 :: ScoreRowLayout(s, i, w1', w2, g))
  {
    if StartsAtLowered(s, w1, ScoreLabelLowered) {
      var w2 := RunEnd(s, w1 + |ScoreLabel|, IsSpace);
      if w2 < |s| && s[w2] == '|' {
        var z := RunEnd(s, w2 + 1, InCell);
        if z < |s| && s[z] == '|' {
          assert LabelFrom(s, i, w1) == Some(ScoreMatch(i, s[w2 + 1..z]));
          ScoreRowSpan(s, i, w1, w2, z);
        }
      }
    }
  }

  lemma ScoreRowSpan(s: string, i: nat, w1: nat, w2: nat, z: nat)
    requires i < w1 && w1 + |ScoreLabel| <= w2 < z < |s|
    requires s[i] == '|' && s[w2] == '|' && s[z] == '|'
    requires forall j | i + 1 <= j < w1 :: IsSpace(s[j])
    requires StartsAtLowered(s, w1, ScoreLabelLowered)
    requires forall j | w1 + |ScoreLabel| <= j < w2 :: IsSpace(s[j])
    requires forall j | w2 + 1 <= j < z :: InCell(s[j])
    ensures '|' !in s[w2 + 1..z]
    ensures CellEndsAt(s, z, s[w2 + 1..z])
    ensures ScoreRowLayout(s, i, w1, w2, s[w2 + 1..z])
  {
    SliceAll(s, w2 + 1, z, InCell);
    CellSpan(s, w2, z);
    ScoreLabelLoweredIsLower(s, w1);
  }

  lemma CellFromAccepts(s: string, i: nat, w2: nat, group: string)
    requires w2 + 1 + |group| < |s| && s[w2] == '|'
    requires s[w2 + 1..w2 + 1 + |group|] == group
    requires forall c | c in group :: InCell(c)
    requires s[w2 + 1 + |group|] == '|'
    ensures CellFrom(s, i, w2) == Some(ScoreMatch(i, group))
  {
    var z := w2 + 1 + |group|;
    forall j | w2 + 1 <= j < z ensures InCell(s[j]) {
      assert s[j] == group[j - w2 - 1];
    }
    RunEndAt(s, w2 + 1, z, InCell);
  }

  lemma LabelFromAccepts(s: string, i: nat, w1: nat, w2: nat)
    requires w1 + |ScoreLabel| <= w2 < |s|
    requires StartsAtIgnoreCase(s, w1, ScoreLabel)
    requires forall j | w1 + |ScoreLabel| <= j < w2 :: IsSpace(s[j])
    requires s[w2] == '|'
    ensures LabelFrom(s, i, w1) == CellFrom(s, i, w2)
  {
    ScoreLabelLoweredIsLower(s, w1);
    RunEndAt(s, w1 + |ScoreLabel|, w2, IsSpace);
  }

  lemma ScoreRowAtFrom(s: string, i: nat, w1: nat)
    requires i < |s| && s[i] == '|' && RunEnd(s, i + 1, IsSpace) == w1
    ensures ScoreRowAt(s, i) == LabelFrom(s, i, w1)
  {
  }

  /** Wherever a score row is laid out, the pattern matches there and captures its cell. */
  lemma ScoreRowAtAccepts(s: string, i: nat, w1: nat, w2: nat, group: string)
    requires ScoreRowLayout(s, i, w1, w2, group)
    ensures ScoreRowAt(s, i) == Some(ScoreMatch(i, group))
  {
    ScoreLabelStart(s, w1);
    RunEndAt(s, i + 1, w1, IsSpace);
    ScoreRowAtFrom(s, i, w1);
    LabelFromAccepts(s, i, w1, w2);
    CellFromAccepts(s, i, w2, group);
  }

  /** `markdown.match(overallScoreRegex)`: the leftmost score row at or after `from`. */
  function FirstScoreRow(s: string, from: nat): (m: Option<ScoreMatch>)
    decreases |s| - from
    ensures m.Some? ==> from <= m.value.start < |s| && '|' !in m.value.group
  {
    if from >= |s| then None
    else if ScoreRowAt(s, from).Some? then ScoreRowAt(s, from)
    else FirstScoreRow(s, from + 1)
  }

  /** `match` returns the score row found at its own start. */
  lemma {:induction false} FirstScoreRowIsLeftmost(s: string, from: nat)
    requires FirstScoreRow(s, from).Some?
    decreases |s| - from
    ensures ScoreRowAt(s, FirstScoreRow(s, from).value.start) == FirstScoreRow(s, from)
  {
    if from < |s| && ScoreRowAt(s, from).None? {
      FirstScoreRowIsLeftmost(s, from + 1);
    }
  }

  /**
   * No score row starts between `from` and the row `match` returns, nor
   * anywhere from `from` on when it returns nothing.
   */
  lemma {:induction false} NoScoreRowBefore(s: string, from: nat, i: nat)
    requires from <= i
    requires FirstScoreRow(s, from).None? || i < FirstScoreRow(s, from).value.start
    decreases i - from
    ensures ScoreRowAt(s, i).None?
  {
    if from < i {
      assert FirstScoreRow(s, from) == FirstScoreRow(s, from + 1);
      NoScoreRowBefore(s, from + 1, i);
    } else if from < |s| {
      assert FirstScoreRow(s, from).None? || FirstScoreRow(s, from) != ScoreRowAt(s, from);
    }
  }

  /** A line that can be the header row: a cell separator, no table rule, not the score label itself. */
  predicate IsHeaderCandidate(line: string) {
    '|' in line && !Contains(line, "---") && !Contains(line, ScoreLabel)
  }

  /** The last candidate among `lines[lo..hi]`. */
  function LastCandidate(lines: seq<string>, lo: nat, hi: nat): (h: Option<string>)
    requires hi <= |lines|
    decreases hi
    ensures h.Some? ==> IsHeaderCandidate(h.value)
  {
    if hi <= lo then None
    else if IsHeaderCandidate(lines[hi - 1]) then Some(lines[hi - 1])
    else LastCandidate(lines, lo, hi - 1)
  }

  /** The candidate found is the nearest one to `hi`, and there is none only when no line qualifies. */
  lemma {:induction false} LastCandidateIsNearest(lines: seq<string>, lo: nat, hi: nat)
    requires hi <= |lines|
    decreases hi
    ensures LastCandidate(lines, lo, hi).Some? ==>
      exists k | lo <= k < hi :: lines[k] == LastCandidate(lines, lo, hi).value && forall j | k < j < hi :: !IsHeaderCandidate(lines[j])
    ensures LastCandidate(lines, lo, hi).None? <==> forall k | lo <= k < hi :: !IsHeaderCandidate(lines[k])
  {
    if lo < hi {
      LastCandidateIsNearest(lines, lo, hi - 1);
      if IsHeaderCandidate(lines[hi - 1]) {
        assert lines[hi - 1] == LastCandidate(lines, lo, hi).value;
      }
    }
  }

  /** The lookback window: `Math.max(0, tableLines.length - 10)`. */
  function WindowStart(lines: seq<string>): nat {
    if |lines| >= 10 then |lines| - 10 else 0
  }

  /** The header row: the nearest candidate among the last ten lines. */
  function HeaderRow(lines: seq<string>): Option<string> {
    LastCandidate(lines, WindowStart(lines), |lines|)
  }

  /** The backward `for` loop with `break` over `tableLines`. */
  method FindHeaderRow(tableLines: seq<string>) returns (headerRow: Option<string>)
    ensures headerRow == HeaderRow(tableLines)
    ensures headerRow.Some? ==> IsHeaderCandidate(headerRow.value)
  {
    headerRow := None;
    var lo := WindowStart(tableLines);
    var i: int := |tableLines| - 1;
    while i >= lo
      invariant lo - 1 <= i < |tableLines|
      invariant LastCandidate(tableLines, lo, i + 1) == HeaderRow(tableLines)
      decreases i
    {
      var line := tableLines[i];
      if IsHeaderCandidate(line) {
        headerRow := Some(line);
        break;
      }
      i := i - 1;
    }
  }

  /** `.map(part => part.trim()).filter(part => part)` */
  function NonBlank(parts: seq<string>): (cells: seq<string>)
    ensures |cells| <= |parts|
  {
    if parts == [] then []
    else
      var cell := Trim(parts[0]);
      (if cell != [] then [cell] else []) + NonBlank(parts[1..])
  }

  /** The cells of a table row. */
  function Cells(row: string): seq<string> {
    NonBlank(SplitOn(row, '|'))
  }

  /** Every cell is non-empty and trimmed, and holds no `|`, when no part does. */
  lemma {:induction false} NonBlankCells(parts: seq<string>)
    requires forall k | 0 <= k < |parts| :: '|' !in parts[k]
    ensures forall k | 0 <= k < |NonBlank(parts)| ::
      NonBlank(parts)[k] != [] && Trimmed(NonBlank(parts)[k]) && '|' !in NonBlank(parts)[k]
  {
    if parts != [] {
      NonBlankCells(parts[1..]);
      var cell := Trim(parts[0]);
      var head := if cell != [] then [cell] else [];
      var rest := NonBlank(parts[1..]);
      forall k | 0 <= k < |head + rest|
        ensures (head + rest)[k] != [] && Trimmed((head + rest)[k]) && '|' !in (head + rest)[k]
      {
        if k >= |head| {
          assert (head + rest)[k] == rest[k - |head|];
        }
      }
    }
  }

  lemma CellsShape(row: string)
    ensures forall k | 0 <= k < |Cells(row)| :: Cells(row)[k] != [] && Trimmed(Cells(row)[k]) && '|' !in Cells(row)[k]
  {
    NonBlankCells(SplitOn(row, '|'));
  }

  /** A row without `|` has at most one cell. */
  lemma OneCellWithoutBar(row: string)
    requires '|' !in row
    ensures |Cells(row)| <= 1
  {
    SplitOnAbsent(row, '|');
  }

  /** The item names: the header cells after the label column (`headerParts.slice(1)`). */
  function ItemNames(header: string): seq<string> {
    var parts := Cells(header);
    if parts == [] then [] else parts[1..]
  }

  predicate IsRatingChar(c: char) { IsDigit(c) || c == '.' }

  /** A match of `([\d.]+)\/(\d+)`: the numerator text and the denominator digits. */
  datatype Rating = Rating(value: string, scale: string)

  /**
   * `r` is the text of `t` at `p`: the value, then `/`, then the scale, which
   * no further digit follows.
   */
  predicate RatingSpans(t: string, p: nat, r: Rating) {
    var e := p + |r.value|;
    var d := e + 1 + |r.scale|;
    && d <= |t|
    && t[p..e] == r.value
    && t[e] == '/'
    && t[e + 1..d] == r.scale
    && (d < |t| ==> !IsDigit(t[d]))
  }

  /**
   * `([\d.]+)\/(\d+)` anchored at `p`. Group 1 can only give back digits and
   * dots, never a `/`, so the `/` must follow the whole run.
   */
  function RatingAt(t: string, p: nat): (r: Option<Rating>)
    requires p <= |t|
    ensures r.Some? ==> r.value.value != [] && forall c | c in r.value.value :: IsRatingChar(c)
    ensures r.Some? ==> r.value.scale != [] && forall c | c in r.value.scale :: IsDigit(c)
    ensures r.Some? ==> RatingSpans(t, p, r.value)
  {
    var e := RunEnd(t, p, IsRatingChar);
    if e == p || e >= |t| || t[e] != '/' then None
    else
      var d := RunEnd(t, e + 1, IsDigit);
      if d == e + 1 then None
      else
        SliceAll(t, p, e, IsRatingChar);
        SliceAll(t, e + 1, d, IsDigit);
        Some(Rating(t[p..e], t[e + 1..d]))
  }

  /**
   * The pattern matches at `p` whenever a run of digits and dots starts there
   * and is followed by `/` and a digit; the value is that whole run.
   */
  lemma RatingAtAccepts(t: string, p: nat, e: nat)
    requires p < e && e + 1 < |t|
    requires forall j | p <= j < e :: IsRatingChar(t[j])
    requires t[e] == '/' && IsDigit(t[e + 1])
    ensures RatingAt(t, p).Some? && RatingAt(t, p).value.value == t[p..e]
  {
    assert RunEnd(t, p, IsRatingChar) == e;
  }

  /** `ratingText.match(/([\d.]+)\/(\d+)/)`: the leftmost rating at or after `from`. */
  function FirstRating(t: string, from: nat): (r: Option<Rating>)
    requires from <= |t|
    decreases |t| - from
    ensures r.Some? ==> r.value.value != [] && forall c | c in r.value.value :: IsRatingChar(c)
    ensures r.Some? ==> r.value.scale != [] && forall c | c in r.value.scale :: IsDigit(c)
  {
    if RatingAt(t, from).Some? then RatingAt(t, from)
    else if from == |t| then None
    else FirstRating(t, from + 1)
  }

  /** `match` returns the rating at the first position where the pattern matches. */
  lemma {:induction false} FirstRatingIsLeftmost(t: string, from: nat, p: nat)
    requires from <= p <= |t| && RatingAt(t, p).Some?
    requires forall q | from <= q < p :: RatingAt(t, q).None?
    decreases p - from
    ensures FirstRating(t, from) == RatingAt(t, p)
  {
    if from < p {
      assert RatingAt(t, from).None?;
      FirstRatingIsLeftmost(t, from + 1, p);
    }
  }

  /** `match` returns nothing only when the pattern matches nowhere. */
  lemma {:induction false} NoRatingAnywhere(t: string, from: nat, p: nat)
    requires from <= p <= |t| && FirstRating(t, from).None?
    decreases p - from
    ensures RatingAt(t, p).None?
  {
    if from < p {
      NoRatingAnywhere(t, from + 1, p);
    }
  }

  /** Whatever `match` returns is the rating at some position at or after `from`. */
  lemma {:induction false} FirstRatingFound(t: string, from: nat)
    requires from <= |t|
    decreases |t| - from
    ensures FirstRating(t, from).Some? ==> exists p | from <= p <= |t| :: RatingAt(t, p) == FirstRating(t, from)
  {
    if RatingAt(t, from).None? && from < |t| {
      FirstRatingFound(t, from + 1);
    }
  }

  /** `parseInt` of a string of decimal digits. */
  function DecimalValue(digits: string): nat
    requires forall c | c in digits :: IsDigit(c)
  {
    if digits == [] then 0
    else
      assert digits[..|digits| - 1] <= digits;
      var last := digits[|digits| - 1];
      assert last in digits && IsDigit(last);
      DecimalValue(digits[..|digits| - 1]) * 10 + (last as int - '0' as int)
  }

  /** The digit string of `n`, without leading zeros (and `"0"` for zero). */
  function Digits(n: nat): (s: string)
    ensures s != [] && forall c | c in s :: IsDigit(c)
  {
    if n < 10 then [('0' as int + n) as char] else Digits(n / 10) + [('0' as int + n % 10) as char]
  }

  /** `parseInt` reads back the digits of any number. */
  lemma {:induction false} DecimalValueOfDigits(n: nat)
    ensures DecimalValue(Digits(n)) == n
  {
    if n >= 10 {
      DecimalValueOfDigits(n / 10);
      var s := Digits(n);
      assert s[..|s| - 1] == Digits(n / 10);
    }
  }

  predicate IsStar(c: char) { c == '*' }

  /** `.replace(/\*\*\/g, '')`: remove `**` pairs, scanning left to right. */
  function RemoveDoubleStars(s: string): (r: string)
    ensures |r| <= |s|
    ensures forall c | c in r :: c in s
    ensures s != [] && !IsStar(s[0]) ==> r != [] && r[0] == s[0]
    ensures s != [] && !IsStar(s[|s| - 1]) ==> r != [] && r[|r| - 1] == s[|s| - 1]
  {
    if s == [] then []
    else if |s| >= 2 && s[0] == '*' && s[1] == '*' then RemoveDoubleStars(s[2..])
    else [s[0]] + RemoveDoubleStars(s[1..])
  }

  /** Every character that is not a star comes through, in order: only stars are removed. */
  lemma {:induction false} RemoveDoubleStarsKeepsText(s: string)
    ensures Filter(RemoveDoubleStars(s), NotStar) == Filter(s, NotStar)
  {
    if s != [] {
      if |s| >= 2 && s[0] == '*' && s[1] == '*' {
        RemoveDoubleStarsKeepsText(s[2..]);
        assert s == [s[0]] + ([s[1]] + s[2..]);
        FilterAppend([s[0]], [s[1]] + s[2..], NotStar);
        FilterAppend([s[1]], s[2..], NotStar);
        FilterOne(s[0], NotStar);
        FilterOne(s[1], NotStar);
      } else {
        RemoveDoubleStarsKeepsText(s[1..]);
        assert s == [s[0]] + s[1..];
        FilterAppend([s[0]], s[1..], NotStar);
        FilterAppend([s[0]], RemoveDoubleStars(s[1..]), NotStar);
      }
    }
  }

  /** After the removal no two stars stand side by side: no `**` is left. */
  lemma {:induction false} NoDoubleStarLeft(s: string)
    ensures NoAdjacent(RemoveDoubleStars(s), IsStar)
  {
    if s != [] {
      if |s| >= 2 && s[0] == '*' && s[1] == '*' {
        NoDoubleStarLeft(s[2..]);
      } else {
        NoDoubleStarLeft(s[1..]);
        var rest := RemoveDoubleStars(s[1..]);
        var r := [s[0]] + rest;
        forall k | 0 <= k < |r| - 1 ensures !(IsStar(r[k]) && IsStar(r[k + 1])) {
          if k > 0 {
            assert r[k] == rest[k - 1] && r[k + 1] == rest[k];
          } else if IsStar(s[0]) {
            assert r[1] == rest[0] == s[1];
          }
        }
      }
    }
  }

  /** Text without `**` is left as it is. */
  lemma {:induction false} RemoveDoubleStarsIdentity(s: string)
    requires NoAdjacent(s, IsStar)
    ensures RemoveDoubleStars(s) == s
  {
    if s != [] {
      assert !(|s| >= 2 && s[0] == '*' && s[1] == '*');
      assert NoAdjacent(s[1..], IsStar) by {
        forall k | 0 <= k < |s[1..]| - 1 ensures !(IsStar(s[1..][k]) && IsStar(s[1..][k + 1])) {
          assert s[1..][k] == s[k + 1] && s[1..][k + 1] == s[k + 2];
        }
      }
      RemoveDoubleStarsIdentity(s[1..]);
    }
  }

  /** Removing `**` twice is the same as once. */
  lemma RemoveDoubleStarsIdempotent(s: string)
    ensures RemoveDoubleStars(RemoveDoubleStars(s)) == RemoveDoubleStars(s)
  {
    NoDoubleStarLeft(s);
    RemoveDoubleStarsIdentity(RemoveDoubleStars(s));
  }

  /** Characters with a meaning in a `RegExp` source outside a class. */
  predicate IsRegexSyntax(c: char) {
    || c == '^' || c == '$' || c == '\\' || c == '.' || c == '*' || c == '+' || c == '?'
    || c == '(' || c == ')' || c == '[' || c == ']' || c == '{' || c == '}' || c == '|'
  }

  predicate NotDot(c: char) { c != '.' }

  /**
   * `\*\*<name>[^*]*\*\*[^.]*\.` under the `i` flag, anchored at `i`, for a name
   * without regex syntax; the end of the match. Neither run can give back a
   * character the next literal needs, so both are taken whole.
   */
  function MentionAt(s: string, name: string, i: nat): (e: Option<nat>)
    ensures e.Some? ==> i + 2 < e.value <= |s| && StartsAt(s, i, "**") && s[e.value - 1] == '.'
    ensures e.Some? ==> StartsAtIgnoreCase(s, i + 2, name)
    ensures e.Some? ==> exists a :: MentionLayout(s, name, i, a, e.value)
  {
    if !StartsAt(s, i, "**") || !StartsAtIgnoreCase(s, i + 2, name) then None
    else
      var a := RunEnd(s, i + 2 + |name|, NotStar);
      if !StartsAt(s, a, "**") then None
      else
        var b := RunEnd(s, a + 2, NotDot);
        if b >= |s| then None
        else
          assert MentionLayout(s, name, i, a, b + 1);
          Some(b + 1)
  }

  /**
   * A bold mention of `name` laid out from `i` to `e`: `**`, the name in any
   * case, text without `*` up to the `**` at `a`, then text without `.` up to
   * the `.` that ends it.
   */
  predicate MentionLayout(s: string, name: string, i: nat, a: nat, e: nat) {
    && i + 2 + |name| <= a && a + 2 < e <= |s|
    && StartsAt(s, i, "**")
    && StartsAtIgnoreCase(s, i + 2, name)
    && (forall j | i + 2 + |name| <= j < a :: NotStar(s[j]))
    && StartsAt(s, a, "**")
    && (forall j | a + 2 <= j < e - 1 :: NotDot(s[j]))
    && s[e - 1] == '.'
  }

  /** `MentionAt` with the ends of its runs given. */
  lemma MentionAtRuns(s: string, name: string, i: nat, a: nat, b: nat)
    requires StartsAt(s, i, "**") && StartsAtIgnoreCase(s, i + 2, name)
    requires RunEnd(s, i + 2 + |name|, NotStar) == a && StartsAt(s, a, "**")
    requires RunEnd(s, a + 2, NotDot) == b && b < |s|
    ensures MentionAt(s, name, i) == Some(b + 1)
  {
  }

  /** Wherever a bold mention of the name is laid out, the pattern matches there, up to its first `.`. */
  lemma MentionAtAccepts(s: string, name: string, i: nat, a: nat, e: nat)
    requires MentionLayout(s, name, i, a, e)
    ensures MentionAt(s, name, i) == Some(e)
  {
    RunEndAt(s, i + 2 + |name|, a, NotStar);
    RunEndAt(s, a + 2, e - 1, NotDot);
    MentionAtRuns(s, name, i, a, e - 1);
  }

  predicate NotStar(c: char) { c != '*' }

  /** The leftmost mention at or after `from`, as the span it covers. */
  function FirstMention(s: string, name: string, from: nat): (m: Option<(nat, nat)>)
    decreases |s| - from
    ensures m.Some? ==> from <= m.value.0 < m.value.1 <= |s| && s[m.value.1 - 1] == '.'
  {
    if from >= |s| then None
    else
      match MentionAt(s, name, from)
      case Some(e) => Some((from, e))
      case None => FirstMention(s, name, from + 1)
  }

  /**
   * `match` returns the leftmost mention: the pattern does not match at any `i`
   * from `from` up to the returned start (or anywhere from `from` on when
   * nothing is returned).
   */
  lemma {:induction false} FirstMentionIsLeftmost(s: string, name: string, from: nat, i: nat)
    requires from <= i
    decreases |s| - from
    ensures FirstMention(s, name, from).Some? ==>
      MentionAt(s, name, FirstMention(s, name, from).value.0) == Some(FirstMention(s, name, from).value.1)
    ensures FirstMention(s, name, from).None? || i < FirstMention(s, name, from).value.0 ==> MentionAt(s, name, i).None?
  {
    if from < |s| && MentionAt(s, name, from).None? {
      if i == from {
        FirstMentionIsLeftmost(s, name, from + 1, i + 1);
      } else {
        FirstMentionIsLeftmost(s, name, from + 1, i);
      }
    }
  }

  /** `reviewBody`: the first bold mention of the name, `**` removed and trimmed; `''` if there is none. */
  function ReviewBody(markdown: string, name: string): (body: Body)
    ensures body == NotModelled <==> exists c | c in name :: IsRegexSyntax(c)
  {
    if exists c | c in name :: IsRegexSyntax(c) then NotModelled
    else
      match FirstMention(markdown, name, 0)
      case None => Body([])
      case Some(span) => Body(Trim(RemoveDoubleStars(markdown[span.0..span.1])))
  }

  /** A mention with `**` removed and trimmed ends in `.` and holds no `**`. */
  lemma MentionShape(mention: string)
    requires mention != [] && mention[|mention| - 1] == '.'
    ensures var text := Trim(RemoveDoubleStars(mention));
      text != [] && text[|text| - 1] == '.' && NoAdjacent(text, IsStar)
  {
    NoDoubleStarLeft(mention);
    TrimKeepsNoAdjacent(RemoveDoubleStars(mention), IsStar);
  }

  /**
   * A body found is `''`, or text without `**` that ends in `.`; it is `''`
   * exactly when the name has no bold mention.
   */
  lemma ReviewBodyShape(markdown: string, name: string)
    ensures ReviewBody(markdown, name).Body? ==>
      var text := ReviewBody(markdown, name).text;
      text == [] || (text[|text| - 1] == '.' && NoAdjacent(text, IsStar))
    ensures !(exists c | c in name :: IsRegexSyntax(c)) ==>
      (ReviewBody(markdown, name) == Body([]) <==> FirstMention(markdown, name, 0).None?)
  {
    if !(exists c | c in name :: IsRegexSyntax(c)) {
      var found := FirstMention(markdown, name, 0);
      if found.Some? {
        var span := found.value;
        var mention := markdown[span.0..span.1];
        assert mention[|mention| - 1] == '.';
        MentionShape(mention);
      }
    }
  }

  /** The item for column `i`, if its score cell holds a rating. */
  function ItemAt(markdown: string, name: string, ratingText: string): seq<ReviewItem> {
    match FirstRating(ratingText, 0)
    case None => []
    case Some(r) =>
      if name == [] then []
      else [ReviewItem(name, r.value, DecimalValue(r.scale), 1, ReviewBody(markdown, name))]
  }

  /** The items for the first `n` columns. */
  function ItemsUpTo(markdown: string, names: seq<string>, ratings: seq<string>, n: nat): (items: seq<ReviewItem>)
    requires n <= |names| && n <= |ratings|
    ensures forall k | 0 <= k < |items| ::
      items[k].worstRating == 1 && items[k].itemName != [] && items[k].ratingValue != []
  {
    if n == 0 then []
    else ItemsUpTo(markdown, names, ratings, n - 1) + ItemAt(markdown, names[n - 1], ratings[n - 1])
  }

  function Min(a: nat, b: nat): nat { if a < b then a else b }

  /** `textBeforeRatings.split('\n')`: the lines before the first score row. */
  function TableLines(markdown: string): seq<string>
    requires FirstScoreRow(markdown, 0).Some?
  {
    SplitOn(markdown[..FirstScoreRow(markdown, 0).value.start], '\n')
  }

  /** The header row for the first score row, if there is one. */
  function Header(markdown: string): Option<string> {
    if FirstScoreRow(markdown, 0).None? then None else HeaderRow(TableLines(markdown))
  }

  /** The cells of the captured part of the first score row. */
  function ScoreCells(markdown: string): (cells: seq<string>)
    ensures |cells| <= 1
  {
    match FirstScoreRow(markdown, 0)
    case None => []
    case Some(m) =>
      OneCellWithoutBar(m.group);
      Cells(m.group)
  }

  /** The review items of `markdown`. */
  function ReviewItems(markdown: string): (items: seq<ReviewItem>)
    ensures forall k | 0 <= k < |items| ::
      items[k].worstRating == 1 && items[k].itemName != [] && items[k].ratingValue != []
  {
    match Header(markdown)
    case None => []
    case Some(header) =>
      var names := ItemNames(header);
      var ratings := ScoreCells(markdown);
      ItemsUpTo(markdown, names, ratings, Min(|names|, |ratings|))
  }

  lemma NoHeaderNoItems(markdown: string)
    requires Header(markdown).None?
    ensures ReviewItems(markdown) == []
  {
  }

  lemma ReviewItemsOfHeader(markdown: string)
    requires Header(markdown).Some?
    ensures var names := ItemNames(Header(markdown).value);
      ReviewItems(markdown) == ItemsUpTo(markdown, names, ScoreCells(markdown), Min(|names|, |ScoreCells(markdown)|))
  {
  }

  /** The items are made in column order; the indexed `for` loop pushes each. */
  method ExtractReviews(markdown: string) returns (reviewItems: seq<ReviewItem>)
    ensures reviewItems == ReviewItems(markdown)
  {
    reviewItems := [];
    var scoreMatch := FirstScoreRow(markdown, 0);
    if scoreMatch.None? {
      NoHeaderNoItems(markdown);
      return;
    }
    var ratingsRow := scoreMatch.value.group;
    var tableLines := SplitOn(markdown[..scoreMatch.value.start], '\n');
    var headerRow := FindHeaderRow(tableLines);
    assert headerRow == Header(markdown);
    if headerRow.None? {
      NoHeaderNoItems(markdown);
      return;
    }
    var productNames := ItemNames(headerRow.value);
    var ratingParts := Cells(ratingsRow);
    assert ratingParts == ScoreCells(markdown);
    var n := Min(|productNames|, |ratingParts|);
    for i := 0 to n
      invariant reviewItems == ItemsUpTo(markdown, productNames, ratingParts, i)
    {
      var ratingText := ratingParts[i];
      var productName := productNames[i];
      var ratingMatch := FirstRating(ratingText, 0);
      if ratingMatch.Some? && productName != [] {
        var item := ReviewItem(productName, ratingMatch.value.value, DecimalValue(ratingMatch.value.scale), 1,
                               ReviewBody(markdown, productName));
        assert ItemAt(markdown, productName, ratingText) == [item];
        reviewItems := reviewItems + [item];
      } else {
        assert ItemAt(markdown, productName, ratingText) == [];
      }
    }
    ReviewItemsOfHeader(markdown);
  }

  /** With at most one score cell there is at most one item, made from the first column. */
  lemma {:induction false} FirstColumnOnly(markdown: string, names: seq<string>, ratings: seq<string>)
    requires |ratings| <= 1
    ensures ItemsUpTo(markdown, names, ratings, Min(|names|, |ratings|)) ==
      if Min(|names|, |ratings|) == 0 then [] else ItemAt(markdown, names[0], ratings[0])
  {
    if Min(|names|, |ratings|) == 1 {
      assert ItemsUpTo(markdown, names, ratings, 0) == [];
    }
  }

  /** The lazy capture stops at the first `|`: there is at most one score cell, hence at most one item. */
  lemma AtMostOneReview(markdown: string)
    ensures |ReviewItems(markdown)| <= 1
  {
    match Header(markdown)
    case None =>
    case Some(header) =>
      FirstColumnOnly(markdown, ItemNames(header), ScoreCells(markdown));
  }

  /** Without a score row there are no items. */
  lemma NoScoreRowNoReviews(markdown: string)
    requires forall i | 0 <= i < |markdown| :: ScoreRowAt(markdown, i).None?
    ensures ReviewItems(markdown) == []
  {
    if FirstScoreRow(markdown, 0).Some? {
      FirstScoreRowIsLeftmost(markdown, 0);
    }
  }

  /** Without a header candidate among the ten lines before the score row there are no items. */
  lemma NoHeaderNoReviews(markdown: string)
    requires FirstScoreRow(markdown, 0).Some?
    requires forall k | WindowStart(TableLines(markdown)) <= k < |TableLines(markdown)| ::
      !IsHeaderCandidate(TableLines(markdown)[k])
    ensures ReviewItems(markdown) == []
  {
    var lines := TableLines(markdown);
    LastCandidateIsNearest(lines, WindowStart(lines), |lines|);
    NoHeaderNoItems(markdown);
  }

  /** Without a rating in the score cell there are no items. */
  lemma NoRatingNoReviews(markdown: string)
    requires forall k | 0 <= k < |ScoreCells(markdown)| :: FirstRating(ScoreCells(markdown)[k], 0).None?
    ensures ReviewItems(markdown) == []
  {
    match Header(markdown)
    case None =>
    case Some(header) =>
      FirstColumnOnly(markdown, ItemNames(header), ScoreCells(markdown));
  }

  /**
   * An item returned comes from the nearest header candidate before the score
   * row: it names that row's first item column, carries the leftmost `X/Y` of
   * the score cell, has worst rating 1, and the body looked up for its name.
   */
  lemma ReviewFacts(markdown: string)
    requires ReviewItems(markdown) != []
    ensures Header(markdown).Some? && IsHeaderCandidate(Header(markdown).value)
    ensures |ScoreCells(markdown)| == 1 && |ItemNames(Header(markdown).value)| >= 1
    ensures ReviewItems(markdown)[0].itemName == ItemNames(Header(markdown).value)[0]
    ensures ReviewItems(markdown)[0].itemName != [] && Trimmed(ReviewItems(markdown)[0].itemName)
    ensures FirstRating(ScoreCells(markdown)[0], 0).Some?
    ensures ReviewItems(markdown)[0].ratingValue == FirstRating(ScoreCells(markdown)[0], 0).value.value
    ensures ReviewItems(markdown)[0].bestRating == DecimalValue(FirstRating(ScoreCells(markdown)[0], 0).value.scale)
    ensures ReviewItems(markdown)[0].worstRating == 1
    ensures ReviewItems(markdown)[0].reviewBody == ReviewBody(markdown, ReviewItems(markdown)[0].itemName)
  {
    var header := Header(markdown).value;
    var names := ItemNames(header);
    var ratings := ScoreCells(markdown);
    FirstColumnOnly(markdown, names, ratings);
    CellsShape(header);
  }
}
