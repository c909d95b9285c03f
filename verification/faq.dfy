/**
 * `extractFAQ` (src/lib/utils.ts): find the first FAQ heading, cut the section
 * it opens at the next `## ` heading, and turn every bold question followed by
 * a blank line and an answer paragraph into a question/answer pair.
 */
module Faq {
  import opened Opt
  import opened Text

  datatype FAQItem = FAQItem(question: string, answer: string)

  /** A span `[start, end)` of the document. */
  datatype Span = Span(start: nat, end: nat)

  /** `(FAQ|Frequently Asked Questions|Common Questions)` under the `i` flag, at `w`. */
  predicate FaqTitleAt(s: string, w: nat) {
    || StartsAtIgnoreCase(s, w, "FAQ")
    || StartsAtIgnoreCase(s, w, "Frequently Asked Questions")
    || StartsAtIgnoreCase(s, w, "Common Questions")
  }

  /**
   * `^##\s+(FAQ|…)` under the `m` and `i` flags, at `p`. Every title starts with
   * a letter, so `\s+` can only be followed by one after taking the whole run of
   * whitespace; giving characters back never helps.
   */
  predicate FaqHeadingAt(s: string, p: nat) {
    && AtLineStart(s, p)
    && StartsAt(s, p, "##")
    && p + 2 < |s|
    && IsSpace(s[p + 2])
    && FaqTitleAt(s, RunEnd(s, p + 2, IsSpace))
  }

  /** `markdown.match(faqSectionRegex)`: the leftmost FAQ heading at or after `from`. */
  function FirstFaqHeading(s: string, from: nat): (p: Option<nat>)
    decreases |s| - from
    ensures p.Some? ==> from <= p.value < |s| && FaqHeadingAt(s, p.value)
    ensures p.Some? ==> forall q | from <= q < p.value :: !FaqHeadingAt(s, q)
    ensures p.None? ==> forall q | from <= q :: !FaqHeadingAt(s, q)
  {
    if from >= |s| then None
    else if FaqHeadingAt(s, from) then Some(from)
    else FirstFaqHeading(s, from + 1)
  }

  /** `^##\s+` under the `m` flag, at `j`. */
  predicate SectionMarkAt(t: string, j: nat) {
    AtLineStart(t, j) && StartsAt(t, j, "##") && j + 2 < |t| && IsSpace(t[j + 2])
  }

  /** The leftmost section mark at or after `from`. */
  function FirstSectionMark(t: string, from: nat): (j: Option<nat>)
    decreases |t| - from
    ensures j.Some? ==> from <= j.value < |t| && SectionMarkAt(t, j.value)
    ensures j.Some? ==> forall k | from <= k < j.value :: !SectionMarkAt(t, k)
    ensures j.None? ==> forall k | from <= k :: !SectionMarkAt(t, k)
  {
    if from >= |t| then None
    else if SectionMarkAt(t, from) then Some(from)
    else FirstSectionMark(t, from + 1)
  }

  /**
   * Where the section opened by the heading at `p` ends: `afterFAQ.substring(1)`
   * is searched for a section mark, which lies one character further on in
   * `afterFAQ`; without one the section runs to the end.
   */
  function SectionEnd(s: string, p: nat): (e: nat)
    requires p < |s|
    ensures p < e <= |s|
  {
    var after := s[p..];
    match FirstSectionMark(after[1..], 0)
    case None => |s|
    case Some(j) => p + j + 1
  }

  /** The FAQ section: from the first FAQ heading to the end of the section it opens. */
  function FaqSection(s: string): (span: Option<Span>)
    ensures span.Some? ==> span.value.start < span.value.end <= |s|
  {
    match FirstFaqHeading(s, 0)
    case None => None
    case Some(p) => Some(Span(p, SectionEnd(s, p)))
  }

  /** A section mark found after dropping the first `d` characters is one of the whole text. */
  lemma MarkInSuffix(s: string, d: nat, j: nat)
    requires d <= |s| && 1 <= j
    ensures SectionMarkAt(s[d..], j) <==> SectionMarkAt(s, d + j)
  {
    var t := s[d..];
    if j < |t| {
      assert t[j - 1] == s[d + j - 1];
      assert j + 2 <= |t| ==> t[j..j + 2] == s[d + j..d + j + 2];
      assert j + 2 < |t| ==> t[j + 2] == s[d + j + 2];
    }
  }

  /**
   * A section opened by `##` and whitespace at `p` holds no other section mark
   * and ends at the next one, or at the end of the document.
   */
  lemma SectionEndIsNextMark(s: string, p: nat)
    requires StartsAt(s, p, "##") && p + 2 < |s| && IsSpace(s[p + 2])
    ensures forall k | p < k < SectionEnd(s, p) :: !SectionMarkAt(s, k)
    ensures SectionEnd(s, p) < |s| ==> SectionMarkAt(s, SectionEnd(s, p))
  {
    var t := s[p + 1..];
    assert s[p..][1..] == t;
    assert s[p] == '#' && s[p + 1] == '#';
    // right after the heading's `##` comes whitespace, so `t` does not open with `##`
    assert !SectionMarkAt(t, 0) by {
      assert t[1] == s[p + 2];
    }
    var mark := FirstSectionMark(t, 0);
    var e := SectionEnd(s, p);
    forall k | p < k < e ensures !SectionMarkAt(s, k) {
      if k == p + 1 {
        assert !IsLineBreak(s[p]);
      } else {
        MarkInSuffix(s, p + 1, k - p - 1);
      }
    }
    if mark.Some? {
      MarkInSuffix(s, p + 1, mark.value);
    }
  }

  /**
   * The section starts at the first FAQ heading, contains no other section
   * mark, and ends at the next one or at the end of the document; there is a
   * section exactly when there is an FAQ heading.
   */
  lemma FaqSectionBounds(s: string)
    ensures FaqSection(s).None? <==> forall p | 0 <= p < |s| :: !FaqHeadingAt(s, p)
    ensures FaqSection(s).Some? ==>
      var sp := FaqSection(s).value;
      && FaqHeadingAt(s, sp.start)
      && (forall p | 0 <= p < sp.start :: !FaqHeadingAt(s, p))
      && (forall k | sp.start < k < sp.end :: !SectionMarkAt(s, k))
      && (sp.end < |s| ==> SectionMarkAt(s, sp.end))
  {
    var first := FirstFaqHeading(s, 0);
    if first.Some? {
      SectionEndIsNextMark(s, first.value);
    }
  }

  predicate NotStar(c: char) { c != '*' }

  /** `[^\n*]`: a character an answer line is made of. */
  predicate IsAnswerChar(c: char) { c != '\n' && c != '*' }

  predicate IsNewline(c: char) { c == '\n' }

  /** `\n\n` at `k`, followed by the first character of an answer. */
  predicate BlankLineAt(c: string, k: nat) {
    StartsAt(c, k, "\n\n") && k + 2 < |c| && IsAnswerChar(c[k + 2])
  }

  /**
   * Where `\n\n` can start once the greedy `\s*` has given back as few
   * characters as needed: the last such `k` in `[lo, hi)`.
   */
  function LastBlankLine(c: string, lo: nat, hi: nat): (k: Option<nat>)
    decreases hi
    ensures k.Some? ==> lo <= k.value < hi && BlankLineAt(c, k.value)
  {
    if hi <= lo then None
    else if BlankLineAt(c, hi - 1) then Some(hi - 1)
    else LastBlankLine(c, lo, hi - 1)
  }

  /** The blank line found is the last one in range, and none is missed. */
  lemma {:induction false} LastBlankLineIsLast(c: string, lo: nat, hi: nat)
    ensures LastBlankLine(c, lo, hi).Some? ==> forall j | LastBlankLine(c, lo, hi).value < j < hi :: !BlankLineAt(c, j)
    ensures LastBlankLine(c, lo, hi).None? ==> forall j | lo <= j < hi :: !BlankLineAt(c, j)
    decreases hi
  {
    if lo < hi && !BlankLineAt(c, hi - 1) {
      LastBlankLineIsLast(c, lo, hi - 1);
    }
  }

  /**
   * `[^\n*]+(?:\n(?!\*\*)[^\n*]+)*` from `g`: greedy runs of answer characters,
   * carried over a single line feed whenever an answer character follows it
   * (a line that opens with `**` cannot follow, since `*` is no answer character).
   */
  function ParagraphEnd(c: string, g: nat): (r: nat)
    requires g < |c| && IsAnswerChar(c[g])
    decreases |c| - g
    ensures g < r <= |c|
  {
    var e := RunEnd(c, g, IsAnswerChar);
    if e + 1 < |c| && c[e] == '\n' && IsAnswerChar(c[e + 1]) then ParagraphEnd(c, e + 1) else e
  }

  /** No two line feeds in a row in `c[lo..hi]`. */
  predicate NoBlankIn(c: string, lo: nat, hi: nat)
    requires lo <= hi <= |c|
  {
    forall j | lo <= j < hi - 1 :: !(IsNewline(c[j]) && IsNewline(c[j + 1]))
  }

  /**
   * The paragraph holds no `*`, ends on an answer character and never has two
   * line feeds in a row.
   */
  lemma {:induction false} ParagraphShape(c: string, g: nat)
    requires g < |c| && IsAnswerChar(c[g])
    decreases |c| - g
    ensures forall j | g <= j < ParagraphEnd(c, g) :: NotStar(c[j])
    ensures IsAnswerChar(c[ParagraphEnd(c, g) - 1])
    ensures NoBlankIn(c, g, ParagraphEnd(c, g))
  {
    var e := RunEnd(c, g, IsAnswerChar);
    if e + 1 < |c| && c[e] == '\n' && IsAnswerChar(c[e + 1]) {
      ParagraphShape(c, e + 1);
      var r := ParagraphEnd(c, g);
      forall j | g <= j < r - 1 ensures !(IsNewline(c[j]) && IsNewline(c[j + 1])) {
        if j >= e + 1 {
          assert NoBlankIn(c, e + 1, r);
        }
      }
    }
  }

  /** The paragraph stops only where the pattern cannot go on. */
  lemma {:induction false} ParagraphIsMaximal(c: string, g: nat)
    requires g < |c| && IsAnswerChar(c[g])
    decreases |c| - g
    ensures var r := ParagraphEnd(c, g);
      r < |c| ==> !IsAnswerChar(c[r]) && !(IsNewline(c[r]) && r + 1 < |c| && IsAnswerChar(c[r + 1]))
  {
    var e := RunEnd(c, g, IsAnswerChar);
    if e + 1 < |c| && c[e] == '\n' && IsAnswerChar(c[e + 1]) {
      ParagraphIsMaximal(c, e + 1);
    }
  }

  /** One match of the question/answer pattern: its span and its two groups. */
  datatype QAMatch = QAMatch(start: nat, end: nat, question: string, answer: string)

  /** What `([^*]+\?)` captures: at least one character before the `?`, and no `*`. */
  predicate QuestionShape(q: string) {
    |q| >= 2 && q[|q| - 1] == '?' && forall ch | ch in q :: NotStar(ch)
  }

  /** What the answer group captures: answer characters, lines joined by single line feeds. */
  predicate AnswerShape(a: string) {
    && a != []
    && IsAnswerChar(a[0])
    && IsAnswerChar(a[|a| - 1])
    && (forall ch | ch in a :: NotStar(ch))
    && NoAdjacent(a, IsNewline)
  }

  lemma NoStarSlice(c: string, lo: nat, hi: nat)
    requires lo <= hi <= |c|
    requires forall j | lo <= j < hi :: NotStar(c[j])
    ensures forall ch | ch in c[lo..hi] :: NotStar(ch)
  {
    forall ch | ch in c[lo..hi] ensures NotStar(ch) {
      var j :| 0 <= j < hi - lo && c[lo..hi][j] == ch;
      assert ch == c[lo + j];
    }
  }

  lemma NoBlankSlice(c: string, lo: nat, hi: nat)
    requires lo <= hi <= |c|
    requires NoBlankIn(c, lo, hi)
    ensures NoAdjacent(c[lo..hi], IsNewline)
  {
    var a := c[lo..hi];
    forall j | 0 <= j < |a| - 1 ensures !(IsNewline(a[j]) && IsNewline(a[j + 1])) {
      assert a[j] == c[lo + j] && a[j + 1] == c[lo + j + 1];
    }
  }

  lemma QuestionSlice(c: string, i: nat, a: nat)
    requires i + 4 <= a <= |c| && c[a - 1] == '?'
    requires forall j | i + 2 <= j < a :: NotStar(c[j])
    ensures QuestionShape(c[i + 2..a])
  {
    NoStarSlice(c, i + 2, a);
  }

  lemma AnswerSlice(c: string, g: nat)
    requires g < |c| && IsAnswerChar(c[g])
    ensures AnswerShape(c[g..ParagraphEnd(c, g)])
  {
    var e := ParagraphEnd(c, g);
    ParagraphShape(c, g);
    AnswerSliceAt(c, g, e);
  }

  lemma AnswerSliceAt(c: string, g: nat, e: nat)
    requires g < e <= |c| && IsAnswerChar(c[g]) && IsAnswerChar(c[e - 1])
    requires forall j | g <= j < e :: NotStar(c[j])
    requires NoBlankIn(c, g, e)
    ensures AnswerShape(c[g..e])
  {
    var a := c[g..e];
    assert a[0] == c[g] && a[|a| - 1] == c[e - 1];
    NoStarSlice(c, g, e);
    NoBlankSlice(c, g, e);
  }

  /** The groups of a match have the shapes the pattern gives them. */
  predicate Shaped(m: QAMatch) {
    QuestionShape(m.question) && AnswerShape(m.answer)
  }

  /**
   * `\*\*([^*]+\?)\*\*` anchored at `i`: where the question group ends. `[^*]+`
   * can only give characters back into text without `*`, so the closing `**`
   * must follow the whole run and the `?` must be its last character.
   */
  function QuestionEnd(c: string, i: nat): (a: Option<nat>)
    ensures a.Some? ==> i + 4 <= a.value && a.value + 2 <= |c|
  {
    if !StartsAt(c, i, "**") then None
    else
      var a := RunEnd(c, i + 2, NotStar);
      if a < i + 4 || c[a - 1] != '?' || !StartsAt(c, a, "**") then None
      else Some(a)
  }

  lemma QuestionEndShape(c: string, i: nat)
    requires QuestionEnd(c, i).Some?
    ensures QuestionShape(c[i + 2..QuestionEnd(c, i).value])
  {
    QuestionSlice(c, i, QuestionEnd(c, i).value);
  }

  /**
   * After the question's closing `**` at `a`: the greedy `\s*` gives back just
   * enough for `\n\n` and an answer character to follow. Where the answer
   * group starts, if it can.
   */
  function AnswerStart(c: string, a: nat): (g: Option<nat>)
    requires a + 2 <= |c|
    ensures g.Some? ==> a + 2 < g.value < |c| && IsAnswerChar(c[g.value])
  {
    var w := RunEnd(c, a + 2, IsSpace);
    match LastBlankLine(c, a + 2, w + 1)
    case None => None
    case Some(k) => Some(k + 2)
  }

  /** The whole question/answer pattern anchored at `i`: question, blank line, answer paragraph. */
  function QAAt(c: string, i: nat): (m: Option<QAMatch>)
    ensures m.Some? ==> m.value.start == i < m.value.end <= |c|
  {
    match QuestionEnd(c, i)
    case None => None
    case Some(a) =>
      match AnswerStart(c, a)
      case None => None
      case Some(g) => Some(QAMatch(i, ParagraphEnd(c, g), c[i + 2..a], c[g..ParagraphEnd(c, g)]))
  }

  /** Whatever the pattern matches has a question ending in `?` without `*`, and an answer paragraph. */
  lemma QAAtShaped(c: string, i: nat)
    requires QAAt(c, i).Some?
    ensures Shaped(QAAt(c, i).value)
  {
    QuestionEndShape(c, i);
    AnswerSlice(c, AnswerStart(c, QuestionEnd(c, i).value).value);
  }

  /**
   * Where the groups of `m` come from in `c`: the question sits between `**`
   * and `**`, whitespace ending in `\n\n` follows, and the answer runs from
   * there to the end of the match.
   */
  predicate QASpans(c: string, m: QAMatch) {
    var a := m.start + 2 + |m.question|;
    var g := m.end - |m.answer|;
    && a + 4 <= g <= m.end <= |c|
    && StartsAt(c, m.start, "**")
    && c[m.start + 2..a] == m.question
    && StartsAt(c, a, "**")
    && (forall j | a + 2 <= j < g - 2 :: IsSpace(c[j]))
    && c[g - 2] == '\n' && c[g - 1] == '\n'
    && c[g..m.end] == m.answer
  }

  /** What the question part of the pattern has matched when it succeeds. */
  lemma QuestionEndFacts(c: string, i: nat)
    requires QuestionEnd(c, i).Some?
    ensures var a := QuestionEnd(c, i).value;
      && StartsAt(c, i, "**")
      && (forall j | i + 2 <= j < a :: NotStar(c[j]))
      && c[a - 1] == '?'
      && StartsAt(c, a, "**")
  {
  }

  /** The question part succeeds wherever its pieces are present. */
  lemma QuestionEndFound(c: string, i: nat, a: nat)
    requires i + 4 <= a && StartsAt(c, i, "**") && StartsAt(c, a, "**")
    requires forall j | i + 2 <= j < a :: NotStar(c[j])
    requires c[a - 1] == '?'
    ensures QuestionEnd(c, i) == Some(a)
  {
    assert c[a] == c[a..a + 2][0];
    assert RunEnd(c, i + 2, NotStar) == a;
  }

  /** What lies between the question and the answer when the answer part succeeds. */
  lemma AnswerStartFacts(c: string, a: nat)
    requires a + 2 <= |c| && AnswerStart(c, a).Some?
    ensures var g := AnswerStart(c, a).value;
      && a + 4 <= g
      && (forall j | a + 2 <= j < g - 2 :: IsSpace(c[j]))
      && c[g - 2] == '\n' && c[g - 1] == '\n'
  {
    var w := RunEnd(c, a + 2, IsSpace);
    var k := LastBlankLine(c, a + 2, w + 1).value;
    assert c[k] == c[k..k + 2][0] && c[k + 1] == c[k..k + 2][1];
  }

  /** The answer part succeeds wherever whitespace, a blank line and an answer character follow. */
  lemma AnswerStartFound(c: string, a: nat, k: nat)
    requires a + 2 <= k && k + 2 < |c|
    requires forall j | a + 2 <= j < k :: IsSpace(c[j])
    requires c[k] == '\n' && c[k + 1] == '\n' && IsAnswerChar(c[k + 2])
    ensures AnswerStart(c, a).Some?
  {
    var w := RunEnd(c, a + 2, IsSpace);
    assert IsSpace(c[k]) && IsSpace(c[k + 1]);
    assert k + 2 <= w;
    assert BlankLineAt(c, k);
    LastBlankLineIsLast(c, a + 2, w + 1);
  }

  /** The question and the answer of a match are the text of `c` the pattern's groups cover. */
  lemma QAAtSpans(c: string, i: nat)
    requires QAAt(c, i).Some?
    ensures QASpans(c, QAAt(c, i).value)
  {
    var a := QuestionEnd(c, i).value;
    var g := AnswerStart(c, a).value;
    var e := ParagraphEnd(c, g);
    assert QAAt(c, i) == Some(QAMatch(i, e, c[i + 2..a], c[g..e]));
    QuestionEndFacts(c, i);
    AnswerStartFacts(c, a);
    QASpansOf(c, i, a, g, e);
  }

  lemma QASpansOf(c: string, i: nat, a: nat, g: nat, e: nat)
    requires i + 4 <= a && a + 4 <= g <= e <= |c|
    requires StartsAt(c, i, "**") && StartsAt(c, a, "**")
    requires forall j | a + 2 <= j < g - 2 :: IsSpace(c[j])
    requires c[g - 2] == '\n' && c[g - 1] == '\n'
    ensures QASpans(c, QAMatch(i, e, c[i + 2..a], c[g..e]))
  {
  }

  /**
   * What the pattern accepts at `i`: `**`, a question without `*` ending in
   * `?`, `**`, whitespace, a blank line, and a first answer character.
   */
  ghost predicate QAPatternAt(c: string, i: nat) {
    exists a: nat, k: nat :: QAPatternWith(c, i, a, k)
  }

  /** `QAPatternAt` with the question's closing `**` at `a` and the blank line at `k`. */
  predicate QAPatternWith(c: string, i: nat, a: nat, k: nat) {
    && i + 4 <= a && a + 2 <= k && k + 2 < |c|
    && StartsAt(c, i, "**")
    && (forall j | i + 2 <= j < a :: NotStar(c[j]))
    && c[a - 1] == '?'
    && StartsAt(c, a, "**")
    && (forall j | a + 2 <= j < k :: IsSpace(c[j]))
    && c[k] == '\n' && c[k + 1] == '\n'
    && IsAnswerChar(c[k + 2])
  }

  /** The matcher accepts exactly where the pattern can match. */
  lemma QAAtAccepts(c: string, i: nat)
    ensures QAAt(c, i).Some? <==> QAPatternAt(c, i)
  {
    if QAAt(c, i).Some? {
      var a := QuestionEnd(c, i).value;
      var g := AnswerStart(c, a).value;
      QuestionEndFacts(c, i);
      AnswerStartFacts(c, a);
      assert QAPatternWith(c, i, a, g - 2);
    }
    if QAPatternAt(c, i) {
      var a: nat, k: nat :| QAPatternWith(c, i, a, k);
      QuestionEndFound(c, i, a);
      AnswerStartFound(c, a, k);
    }
  }

  /** One `exec` with `lastIndex == from`: the leftmost match starting at or after `from`. */
  function NextQA(c: string, from: nat): (m: Option<QAMatch>)
    decreases |c| - from
    ensures m.Some? ==> from <= m.value.start < m.value.end <= |c|
  {
    if from >= |c| then None
    else if QAAt(c, from).Some? then QAAt(c, from)
    else NextQA(c, from + 1)
  }

  /** `exec` returns the match found at its own start. */
  lemma {:induction false} NextQAIsLeftmost(c: string, from: nat)
    requires NextQA(c, from).Some?
    decreases |c| - from
    ensures QAAt(c, NextQA(c, from).value.start) == NextQA(c, from)
  {
    if from < |c| && QAAt(c, from).None? {
      NextQAIsLeftmost(c, from + 1);
    }
  }

  /** Nothing matches between `from` and the start of the match found, nor anywhere after `from` when none is found. */
  lemma {:induction false} NoQABefore(c: string, from: nat, i: nat)
    requires from <= i
    requires NextQA(c, from).None? || i < NextQA(c, from).value.start
    decreases i - from
    ensures QAAt(c, i).None?
  {
    if from < i {
      assert NextQA(c, from) == NextQA(c, from + 1);
      NoQABefore(c, from + 1, i);
    } else if from < |c| {
      assert NextQA(c, from).None? || NextQA(c, from) != QAAt(c, from);
    }
  }


  /** The matches successive `exec` calls return, starting from `lastIndex == from`. */
  function ScanQA(c: string, from: nat): (ms: seq<QAMatch>)
    requires from <= |c|
    decreases |c| - from
    ensures forall i | 0 <= i < |ms| :: from <= ms[i].start
    ensures forall i | 0 <= i < |ms| - 1 :: ms[i].end <= ms[i + 1].start
  {
    match NextQA(c, from)
    case None => []
    case Some(m) =>
      var rest := ScanQA(c, m.end);
      assert forall i | 0 < i <= |rest| :: ([m] + rest)[i] == rest[i - 1];
      [m] + rest
  }

  /** The pair made of the trimmed groups of a match, kept only if both are non-empty. */
  function Kept(question: string, answer: string): seq<FAQItem> {
    if question != [] && answer != [] then [FAQItem(question, answer)] else []
  }

  function ItemsOf(ms: seq<QAMatch>): seq<FAQItem> {
    if ms == [] then [] else Kept(Trim(ms[0].question), Trim(ms[0].answer)) + ItemsOf(ms[1..])
  }

  /** The pairs of the FAQ section of `markdown`, in document order. */
  function FaqItems(markdown: string): (items: seq<FAQItem>)
    ensures items != [] ==> FaqSection(markdown).Some?
  {
    match FaqSection(markdown)
    case None => []
    case Some(sp) => ItemsOf(ScanQA(markdown[sp.start..sp.end], 0))
  }

  /** A pair as the FAQ extraction returns it. */
  predicate WellFormed(item: FAQItem) {
    && item.question != []
    && Trimmed(item.question)
    && item.question[|item.question| - 1] == '?'
    && (forall ch | ch in item.question :: NotStar(ch))
    && item.answer != []
    && Trimmed(item.answer)
    && (forall ch | ch in item.answer :: NotStar(ch))
    && NoAdjacent(item.answer, IsNewline)
  }

  /** The question group always holds its `?`, so the source's test of a non-empty question never fails. */
  lemma QuestionNeverBlank(c: string, i: nat)
    requires QAAt(c, i).Some?
    ensures Trim(QAAt(c, i).value.question) != []
  {
    var q := QAAt(c, i).value.question;
    assert q[|q| - 1] in q;
  }

  /** A match is dropped exactly when its answer is all whitespace. */
  lemma KeptUnlessBlankAnswer(c: string, i: nat)
    requires QAAt(c, i).Some?
    ensures var m := QAAt(c, i).value;
      Kept(Trim(m.question), Trim(m.answer)) == [] <==> forall ch | ch in m.answer :: IsSpace(ch)
  {
    QuestionNeverBlank(c, i);
  }

  lemma TrimQuestion(q: string)
    requires QuestionShape(q)
    ensures Trim(q) != [] && Trim(q)[|Trim(q)| - 1] == '?'
    ensures forall ch | ch in Trim(q) :: NotStar(ch)
  {
  }

  lemma TrimAnswer(a: string)
    requires AnswerShape(a)
    ensures forall ch | ch in Trim(a) :: NotStar(ch)
    ensures NoAdjacent(Trim(a), IsNewline)
  {
    TrimKeepsNoAdjacent(a, IsNewline);
  }

  lemma KeptWellFormed(question: string, answer: string)
    requires question != [] && Trimmed(question) && question[|question| - 1] == '?'
    requires forall ch | ch in question :: NotStar(ch)
    requires Trimmed(answer) && (forall ch | ch in answer :: NotStar(ch)) && NoAdjacent(answer, IsNewline)
    ensures forall i | 0 <= i < |Kept(question, answer)| :: WellFormed(Kept(question, answer)[i])
  {
  }

  lemma MatchKeptWellFormed(m: QAMatch)
    requires QuestionShape(m.question) && AnswerShape(m.answer)
    ensures forall i | 0 <= i < |Kept(Trim(m.question), Trim(m.answer))| :: WellFormed(Kept(Trim(m.question), Trim(m.answer))[i])
  {
    TrimQuestion(m.question);
    TrimAnswer(m.answer);
    KeptWellFormed(Trim(m.question), Trim(m.answer));
  }

  lemma NextQAShaped(c: string, from: nat)
    requires NextQA(c, from).Some?
    ensures Shaped(NextQA(c, from).value)
  {
    NextQAIsLeftmost(c, from);
    QAAtShaped(c, NextQA(c, from).value.start);
  }

  /** Every match a scan returns has the shapes the pattern gives its groups. */
  lemma {:induction false} ScanQAShaped(c: string, from: nat)
    requires from <= |c|
    decreases |c| - from
    ensures forall i | 0 <= i < |ScanQA(c, from)| :: Shaped(ScanQA(c, from)[i])
  {
    match NextQA(c, from)
    case None =>
    case Some(m) =>
      NextQAShaped(c, from);
      ScanQAShaped(c, m.end);
      var rest := ScanQA(c, m.end);
      assert ScanQA(c, from) == [m] + rest;
      forall i | 0 <= i < |[m] + rest| ensures Shaped(([m] + rest)[i]) {
        if i > 0 {
          assert ([m] + rest)[i] == rest[i - 1];
        }
      }
  }

  /** Each match the scan returns is the pattern's match at its own start. */
  lemma {:induction false} ScanQAMatches(c: string, from: nat)
    requires from <= |c|
    decreases |c| - from
    ensures forall i | 0 <= i < |ScanQA(c, from)| :: QAAt(c, ScanQA(c, from)[i].start) == Some(ScanQA(c, from)[i])
  {
    match NextQA(c, from)
    case None =>
    case Some(m) =>
      NextQAIsLeftmost(c, from);
      ScanQAMatches(c, m.end);
      var rest := ScanQA(c, m.end);
      assert ScanQA(c, from) == [m] + rest;
      forall i | 0 <= i < |[m] + rest| ensures QAAt(c, ([m] + rest)[i].start) == Some(([m] + rest)[i]) {
        if i > 0 {
          assert ([m] + rest)[i] == rest[i - 1];
        }
      }
  }

  /**
   * No question is skipped: every position where the pattern matches is the
   * start of a returned match or lies inside one.
   */
  lemma {:induction false} ScanQAMissesNothing(c: string, from: nat, p: nat)
    requires from <= p < |c| && QAAt(c, p).Some?
    ensures exists i | 0 <= i < |ScanQA(c, from)| :: ScanQA(c, from)[i].start <= p < ScanQA(c, from)[i].end
    decreases |c| - from
  {
    var m := NextQA(c, from);
    var ms := ScanQA(c, from);
    if m.None? || p < m.value.start {
      NoQABefore(c, from, p);
      assert false;
    }
    NextQAIsLeftmost(c, from);
    assert ms[0] == m.value;
    if p >= m.value.end {
      ScanQAMissesNothing(c, m.value.end, p);
      var rest := ScanQA(c, m.value.end);
      var i :| 0 <= i < |rest| && rest[i].start <= p < rest[i].end;
      assert ms[i + 1] == rest[i];
    }
  }

  lemma AllWellFormedConcat(a: seq<FAQItem>, b: seq<FAQItem>)
    requires forall i | 0 <= i < |a| :: WellFormed(a[i])
    requires forall i | 0 <= i < |b| :: WellFormed(b[i])
    ensures forall i | 0 <= i < |a + b| :: WellFormed((a + b)[i])
  {
    forall i | 0 <= i < |a + b| ensures WellFormed((a + b)[i]) {
      if i >= |a| {
        assert (a + b)[i] == b[i - |a|];
      }
    }
  }

  lemma {:induction false} ItemsOfWellFormed(ms: seq<QAMatch>)
    requires forall i | 0 <= i < |ms| :: Shaped(ms[i])
    ensures forall i | 0 <= i < |ItemsOf(ms)| :: WellFormed(ItemsOf(ms)[i])
  {
    if ms != [] {
      MatchKeptWellFormed(ms[0]);
      ItemsOfWellFormed(ms[1..]);
      AllWellFormedConcat(Kept(Trim(ms[0].question), Trim(ms[0].answer)), ItemsOf(ms[1..]));
    }
  }

  /**
   * Every pair has a trimmed, non-empty question that ends in `?` and holds no
   * `*`, and a trimmed, non-empty answer with no `*` and no two line feeds in a row.
   */
  lemma FaqItemsWellFormed(markdown: string)
    ensures forall i | 0 <= i < |FaqItems(markdown)| :: WellFormed(FaqItems(markdown)[i])
  {
    match FaqSection(markdown)
    case None =>
    case Some(sp) =>
      var c := markdown[sp.start..sp.end];
      ScanQAShaped(c, 0);
      ItemsOfWellFormed(ScanQA(c, 0));
  }

  /** Without an FAQ heading there are no pairs. */
  lemma NoFaqHeadingNoItems(markdown: string)
    requires forall p | 0 <= p < |markdown| :: !FaqHeadingAt(markdown, p)
    ensures FaqItems(markdown) == []
  {
    FaqSectionBounds(markdown);
  }

  /** One `exec` step: the pairs of the next match, then the rest. */
  lemma ScanQAStep(c: string, from: nat)
    requires from <= |c|
    ensures NextQA(c, from).None? ==> ItemsOf(ScanQA(c, from)) == []
    ensures NextQA(c, from).Some? ==>
      var m := NextQA(c, from).value;
      ItemsOf(ScanQA(c, from)) == Kept(Trim(m.question), Trim(m.answer)) + ItemsOf(ScanQA(c, NextQA(c, from).value.end))
  {
    var ms := ScanQA(c, from);
    if ms != [] {
      assert ms[1..] == ScanQA(c, NextQA(c, from).value.end);
    }
  }

  /** The `while ((match = qaRegex.exec(faqContent)) !== null)` loop over the FAQ section. */
  method ExtractFAQ(markdown: string) returns (faqItems: seq<FAQItem>)
    ensures faqItems == FaqItems(markdown)
  {
    faqItems := [];
    var section := FaqSection(markdown);
    if section.None? {
      return;
    }
    var faqContent := markdown[section.value.start..section.value.end];
    var lastIndex := 0;
    while true
      invariant lastIndex <= |faqContent|
      invariant faqItems + ItemsOf(ScanQA(faqContent, lastIndex)) == FaqItems(markdown)
      decreases |faqContent| - lastIndex
    {
      ScanQAStep(faqContent, lastIndex);
      var m := NextQA(faqContent, lastIndex);
      if m.None? {
        assert faqItems + [] == faqItems;
        break;
      }
      var question := Trim(m.value.question);
      var answer := Trim(m.value.answer);
      Regroup(faqItems, Kept(question, answer), ItemsOf(ScanQA(faqContent, m.value.end)), FaqItems(markdown));
      if question != [] && answer != [] {
        faqItems := faqItems + [FAQItem(question, answer)];
      } else {
        assert faqItems + [] == faqItems;
      }
      lastIndex := m.value.end;
    }
  }
}
