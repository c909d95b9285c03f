/**
 * `calculateReadingTime` (src/lib/utils.ts): the number of pieces
 * `content.split(/\s+/)` yields, divided by 200 words per minute and rounded up.
 */
module ReadingTime {
  import opened Text

  const WordsPerMinute: nat := 200

  predicate NotSpace(c: char) { !IsSpace(c) }

  /**
   * `s.split(/\s+/)`: the pieces between maximal whitespace runs. A leading or
   * trailing run yields an empty first or last piece, and `""` yields `[""]`.
   */
  function SplitOnWhitespace(s: string): (pieces: seq<string>)
    ensures |pieces| >= 1
    ensures forall k | 0 <= k < |pieces| :: forall c | c in pieces[k] :: !IsSpace(c)
  {
    if s == [] then [[]]
    else
      var rest := SplitOnWhitespace(s[1..]);
      if IsSpace(s[0]) then (if |s| > 1 && IsSpace(s[1]) then rest else [[]] + rest)
      else [[s[0]] + rest[0]] + rest[1..]
  }

  /** The number of maximal whitespace runs in `s`, each counted once at its start. */
  function WhitespaceRuns(s: string): nat
    decreases |s|
  {
    if s == [] then 0
    else if IsSpace(s[0]) then 1 + WhitespaceRuns(s[RunEnd(s, 0, IsSpace)..])
    else WhitespaceRuns(s[1..])
  }

  function Concat(pieces: seq<string>): string {
    if pieces == [] then [] else pieces[0] + Concat(pieces[1..])
  }

  /** A text starting with whitespace splits into one piece more than what follows its first run. */
  lemma {:induction false} SplitAcrossRun(s: string)
    requires s != [] && IsSpace(s[0])
    ensures |SplitOnWhitespace(s)| == 1 + |SplitOnWhitespace(s[RunEnd(s, 0, IsSpace)..])|
    decreases |s|
  {
    if |s| > 1 && IsSpace(s[1]) {
      SplitAcrossRun(s[1..]);
      assert RunEnd(s, 0, IsSpace) == RunEnd(s, 1, IsSpace);
      RunEndShift(s, 1);
    } else {
      assert RunEnd(s, 0, IsSpace) == 1;
    }
  }

  /** Scanning a run in `s` from `k` is scanning it in `s[1..]` from `k - 1`. */
  lemma {:induction false} RunEndShift(s: string, k: nat)
    requires 1 <= k <= |s|
    ensures RunEnd(s, k, IsSpace) == 1 + RunEnd(s[1..], k - 1, IsSpace)
    decreases |s| - k
  {
    if k < |s| && IsSpace(s[k]) {
      RunEndShift(s, k + 1);
    }
  }

  /** `split(/\s+/)` yields one piece more than there are whitespace runs. */
  lemma {:induction false} PiecesAreRunsPlusOne(s: string)
    ensures |SplitOnWhitespace(s)| == WhitespaceRuns(s) + 1
    decreases |s|
  {
    if s != [] {
      if IsSpace(s[0]) {
        SplitAcrossRun(s);
        PiecesAreRunsPlusOne(s[RunEnd(s, 0, IsSpace)..]);
      } else {
        PiecesAreRunsPlusOne(s[1..]);
      }
    }
  }

  /** The pieces hold exactly the non-whitespace characters of `s`, in order. */
  lemma {:induction false} PiecesKeepText(s: string)
    ensures Concat(SplitOnWhitespace(s)) == Filter(s, NotSpace)
  {
    if s != [] {
      PiecesKeepText(s[1..]);
      var rest := SplitOnWhitespace(s[1..]);
      if IsSpace(s[0]) {
        if !(|s| > 1 && IsSpace(s[1])) {
          assert Concat([[]] + rest) == Concat(rest) by {
            assert ([[]] + rest)[1..] == rest;
          }
        }
      } else {
        var pieces := [[s[0]] + rest[0]] + rest[1..];
        assert pieces[1..] == rest[1..];
        assert Concat(rest) == rest[0] + Concat(rest[1..]);
      }
    }
  }

  /** `Math.ceil(words / 200)`, where `words` is the number of pieces. */
  function CalculateReadingTime(content: string): (minutes: nat)
    ensures minutes >= 1
    ensures (minutes - 1) * WordsPerMinute < |SplitOnWhitespace(content)| <= minutes * WordsPerMinute
  {
    var words := |SplitOnWhitespace(content)|;
    (words + WordsPerMinute - 1) / WordsPerMinute
  }

  /** In terms of the text: `ceil((k + 1) / 200)` for `k` whitespace runs; `""` takes one minute. */
  lemma ReadingTimeByRuns(content: string)
    ensures CalculateReadingTime(content) == (WhitespaceRuns(content) + WordsPerMinute) / WordsPerMinute
    ensures content == [] ==> CalculateReadingTime(content) == 1
  {
    PiecesAreRunsPlusOne(content);
  }
}
