/**
 * Character classes and the JavaScript string operations the extractors are
 * built from (`toLowerCase`, `trim`, `split`, `includes`, global `replace`),
 * over `string` (`seq<char>`) and restricted to ASCII.
 */
module Text {
  import opened Opt

  /** `\s`: space, tab, line feed, carriage return, vertical tab and form feed. */
  predicate IsSpace(c: char) {
    c == ' ' || c == '\t' || c == '\n' || c == '\r' || c == '\U{000B}' || c == '\U{000C}'
  }

  /** Line terminators: where `.` stops and where `^`/`$` match in multiline mode. */
  predicate IsLineBreak(c: char) { c == '\n' || c == '\r' }

  predicate NotLineBreak(c: char) { !IsLineBreak(c) }

  predicate IsDigit(c: char) { '0' <= c <= '9' }

  /** `\w` */
  predicate IsWordChar(c: char) { 'a' <= c <= 'z' || 'A' <= c <= 'Z' || IsDigit(c) || c == '_' }

  predicate IsUpper(c: char) { 'A' <= c <= 'Z' }

  function LowerChar(c: char): (d: char)
    ensures !IsUpper(d)
    ensures IsUpper(c) || d == c
    ensures IsWordChar(c) <==> IsWordChar(d)
  {
    if IsUpper(c) then (c as int + 32) as char else c
  }

  /** `toLowerCase()` on ASCII letters; every other character is kept. */
  function Lower(s: string): (r: string)
    ensures |r| == |s|
    ensures forall i | 0 <= i < |s| :: r[i] == LowerChar(s[i])
    ensures forall c | c in r :: !IsUpper(c)
  {
    seq(|s|, i requires 0 <= i < |s| => LowerChar(s[i]))
  }

  lemma LowerIdentity(s: string)
    requires forall c | c in s :: !IsUpper(c)
    ensures Lower(s) == s
  {
    assert forall i | 0 <= i < |s| :: Lower(s)[i] == s[i];
  }

  /** `pat` occurs in `s` at index `i`. */
  predicate StartsAt(s: string, i: nat, pat: string) {
    i + |pat| <= |s| && s[i..i + |pat|] == pat
  }

  /** `pat` occurs in `s` at index `i` when ASCII case is ignored (regex flag `i`). */
  predicate StartsAtIgnoreCase(s: string, i: nat, pat: string) {
    i + |pat| <= |s| && Lower(s[i..i + |pat|]) == Lower(pat)
  }

  /** `StartsAtIgnoreCase` against a pattern given already in lower case. */
  predicate StartsAtLowered(s: string, i: nat, lowered: string) {
    i + |lowered| <= |s| && Lower(s[i..i + |lowered|]) == lowered
  }

  /** `s.includes(pat)` */
  predicate Contains(s: string, pat: string) {
    exists i | 0 <= i <= |s| :: StartsAt(s, i, pat)
  }

  /** `s.endsWith(suffix)` */
  predicate EndsWith(s: string, suffix: string) {
    |suffix| <= |s| && s[|s| - |suffix|..] == suffix
  }

  /** `^` in multiline mode: the start of the text or just after a line terminator. */
  predicate AtLineStart(s: string, p: nat) {
    p == 0 || (p <= |s| && IsLineBreak(s[p - 1]))
  }

  /**
   * The end of the longest run of characters satisfying `inRun` that begins at
   * `from`: how far a greedy `[...]*` starting at `from` reaches.
   */
  function RunEnd(s: string, from: nat, inRun: char -> bool): (k: nat)
    requires from <= |s|
    decreases |s| - from
    ensures from <= k <= |s|
    ensures forall j | from <= j < k :: inRun(s[j])
    ensures k < |s| ==> !inRun(s[k])
  {
    if from == |s| || !inRun(s[from]) then from else RunEnd(s, from + 1, inRun)
  }

  /** A run that ends at `k` is the run `RunEnd` finds. */
  lemma RunEndAt(s: string, from: nat, k: nat, inRun: char -> bool)
    requires from <= k <= |s|
    requires forall j | from <= j < k :: inRun(s[j])
    requires k < |s| ==> !inRun(s[k])
    ensures RunEnd(s, from, inRun) == k
  {
  }

  /** `s.replace(/[^...]/g, '')`: the characters of `s` that satisfy `keep`, in order. */
  function Filter(s: string, keep: char -> bool): (r: string)
    ensures |r| <= |s|
    ensures forall c | c in r :: c in s && keep(c)
    ensures forall c | c in s && keep(c) :: c in r
  {
    if s == [] then [] else (if keep(s[0]) then [s[0]] else []) + Filter(s[1..], keep)
  }

  /** A single character is kept exactly when it is in the class. */
  lemma FilterOne(c: char, keep: char -> bool)
    ensures Filter([c], keep) == if keep(c) then [c] else []
  {
    assert [c][1..] == [];
  }

  /**
   * Filtering works piece by piece: with `FilterOne`, this pins down the result
   * as the characters of the class, in their order and with their repetitions.
   */
  lemma {:induction false} FilterAppend(a: string, b: string, keep: char -> bool)
    ensures Filter(a + b, keep) == Filter(a, keep) + Filter(b, keep)
  {
    if a == [] {
      assert a + b == b;
    } else {
      assert (a + b)[0] == a[0] && (a + b)[1..] == a[1..] + b;
      FilterAppend(a[1..], b, keep);
    }
  }

  lemma {:induction false} FilterIdentity(s: string, keep: char -> bool)
    requires forall c | c in s :: keep(c)
    ensures Filter(s, keep) == s
  {
    if s != [] {
      FilterIdentity(s[1..], keep);
    }
  }

  /**
   * `s.replace(/X+/g, rep)` where `X` is the class `inRun`: every maximal run of
   * characters in the class becomes the single character `rep`. The run's
   * replacement is emitted at its last character.
   */
  function ReplaceRuns(s: string, inRun: char -> bool, rep: char): (r: string)
    ensures |r| <= |s|
    ensures forall c | c in r :: (c in s && !inRun(c)) || c == rep
    ensures s != [] && !inRun(s[0]) ==> r != [] && r[0] == s[0]
    ensures s != [] && inRun(s[0]) ==> r != [] && r[0] == rep
  {
    if s == [] then []
    else if inRun(s[0]) then
      (if |s| > 1 && inRun(s[1]) then [] else [rep]) + ReplaceRuns(s[1..], inRun, rep)
    else
      [s[0]] + ReplaceRuns(s[1..], inRun, rep)
  }

  /**
   * The characters outside the class other than `rep` come through in order:
   * the replacement only rewrites the runs.
   */
  lemma {:induction false} ReplaceRunsKeepsOthers(s: string, inRun: char -> bool, rep: char, keep: char -> bool)
    requires forall c :: keep(c) ==> !inRun(c) && c != rep
    ensures Filter(ReplaceRuns(s, inRun, rep), keep) == Filter(s, keep)
  {
    if s != [] {
      var rest := ReplaceRuns(s[1..], inRun, rep);
      var head := if !inRun(s[0]) then [s[0]] else if |s| > 1 && inRun(s[1]) then [] else [rep];
      assert ReplaceRuns(s, inRun, rep) == head + rest;
      ReplaceRunsKeepsOthers(s[1..], inRun, rep, keep);
      FilterAppend(head, rest, keep);
      assert s == [s[0]] + s[1..];
      FilterAppend([s[0]], s[1..], keep);
      FilterOne(s[0], keep);
      if head != [] {
        FilterOne(head[0], keep);
        assert head == [head[0]];
      }
    }
  }

  /** No two neighbouring characters of `s` both belong to the class `inRun`. */
  predicate NoAdjacent(s: string, inRun: char -> bool) {
    forall k | 0 <= k < |s| - 1 :: !(inRun(s[k]) && inRun(s[k + 1]))
  }

  /** When `rep` itself belongs to the class, the output never holds two class characters side by side. */
  lemma {:induction false} ReplaceRunsNoAdjacent(s: string, inRun: char -> bool, rep: char)
    requires inRun(rep)
    ensures NoAdjacent(ReplaceRuns(s, inRun, rep), inRun)
  {
    if s != [] {
      ReplaceRunsNoAdjacent(s[1..], inRun, rep);
      var rest := ReplaceRuns(s[1..], inRun, rep);
      if inRun(s[0]) && |s| > 1 && inRun(s[1]) {
      } else if inRun(s[0]) {
        assert rest != [] ==> !inRun(rest[0]);
        assert ReplaceRuns(s, inRun, rep) == [rep] + rest;
      } else {
        assert ReplaceRuns(s, inRun, rep) == [s[0]] + rest;
      }
    }
  }

  /** Text whose class characters are all `rep`, never side by side, is left as it is. */
  lemma {:induction false} ReplaceRunsIdentity(s: string, inRun: char -> bool, rep: char)
    requires forall c | c in s && inRun(c) :: c == rep
    requires NoAdjacent(s, inRun)
    ensures ReplaceRuns(s, inRun, rep) == s
  {
    if s != [] {
      assert NoAdjacent(s[1..], inRun) by {
        forall k | 0 <= k < |s[1..]| - 1 ensures !(inRun(s[1..][k]) && inRun(s[1..][k + 1])) {
          assert s[1..][k] == s[k + 1] && s[1..][k + 1] == s[k + 2];
        }
      }
      ReplaceRunsIdentity(s[1..], inRun, rep);
      if inRun(s[0]) {
        assert s[0] == rep;
        assert !(|s| > 1 && inRun(s[1]));
      }
      assert s == [s[0]] + s[1..];
    }
  }

  /** Where the text left by `trim()` begins: the end of the leading whitespace. */
  function TrimStartIndex(s: string, from: nat): (lo: nat)
    requires from <= |s|
    requires forall j | 0 <= j < from :: IsSpace(s[j])
    decreases |s| - from
    ensures from <= lo <= |s|
    ensures forall j | 0 <= j < lo :: IsSpace(s[j])
    ensures lo < |s| ==> !IsSpace(s[lo])
  {
    if from < |s| && IsSpace(s[from]) then TrimStartIndex(s, from + 1) else from
  }

  /** Where the text left by `trim()` ends: the start of the trailing whitespace, no earlier than `lo`. */
  function TrimEndIndex(s: string, lo: nat, stop: nat): (hi: nat)
    requires lo <= stop <= |s|
    requires forall j | stop <= j < |s| :: IsSpace(s[j])
    decreases stop - lo
    ensures lo <= hi <= stop
    ensures forall j | hi <= j < |s| :: IsSpace(s[j])
    ensures lo < hi ==> !IsSpace(s[hi - 1])
  {
    if lo < stop && IsSpace(s[stop - 1]) then TrimEndIndex(s, lo, stop - 1) else stop
  }

  /** Neither end of `s` is whitespace. */
  predicate Trimmed(s: string) {
    s == [] || (!IsSpace(s[0]) && !IsSpace(s[|s| - 1]))
  }

  /** `s.trim()`: the slice of `s` left after dropping leading and trailing whitespace. */
  function Trim(s: string): (r: string)
    ensures Trimmed(r)
    ensures forall c | c in r :: c in s
    ensures Trimmed(s) ==> r == s
    ensures (exists c | c in s :: !IsSpace(c)) ==> r != []
    ensures s != [] && !IsSpace(s[|s| - 1]) ==> r != [] && r[|r| - 1] == s[|s| - 1]
    ensures exists lo, hi | 0 <= lo <= hi <= |s| ::
      r == s[lo..hi] && (forall j | 0 <= j < lo :: IsSpace(s[j])) && (forall j | hi <= j < |s| :: IsSpace(s[j]))
  {
    var lo := TrimStartIndex(s, 0);
    var hi := TrimEndIndex(s, lo, |s|);
    TrimmedSlice(s, lo, hi);
    TrimKeepsNonSpace(s, lo, hi);
    s[lo..hi]
  }

  /** What is left between a run of leading and a run of trailing whitespace. */
  lemma TrimmedSlice(s: string, lo: nat, hi: nat)
    requires lo <= hi <= |s|
    requires forall j | 0 <= j < lo :: IsSpace(s[j])
    requires forall j | hi <= j < |s| :: IsSpace(s[j])
    requires lo < hi ==> !IsSpace(s[lo]) && !IsSpace(s[hi - 1])
    ensures Trimmed(s[lo..hi])
    ensures forall c | c in s[lo..hi] :: c in s
    ensures Trimmed(s) ==> s[lo..hi] == s
  {
  }

  lemma TrimKeepsNonSpace(s: string, lo: nat, hi: nat)
    requires lo <= hi <= |s|
    requires forall j | 0 <= j < lo :: IsSpace(s[j])
    requires forall j | hi <= j < |s| :: IsSpace(s[j])
    ensures (exists c | c in s :: !IsSpace(c)) ==> s[lo..hi] != []
    ensures s != [] && !IsSpace(s[|s| - 1]) ==> hi == |s| && lo < hi
  {
    if exists c | c in s :: !IsSpace(c) {
      var k :| 0 <= k < |s| && !IsSpace(s[k]);
      assert lo <= k < hi;
    }
  }

  lemma SliceNoAdjacent(s: string, i: nat, j: nat, inRun: char -> bool)
    requires i <= j <= |s|
    requires NoAdjacent(s, inRun)
    ensures NoAdjacent(s[i..j], inRun)
  {
    forall k | 0 <= k < j - i - 1 ensures !(inRun(s[i..j][k]) && inRun(s[i..j][k + 1])) {
      assert s[i..j][k] == s[i + k] && s[i..j][k + 1] == s[i + k + 1];
    }
  }

  /** Trimming keeps the property "no two neighbouring characters in the class". */
  lemma TrimKeepsNoAdjacent(s: string, inRun: char -> bool)
    requires NoAdjacent(s, inRun)
    ensures NoAdjacent(Trim(s), inRun)
  {
    var lo := TrimStartIndex(s, 0);
    SliceNoAdjacent(s, lo, TrimEndIndex(s, lo, |s|), inRun);
  }

  /** `s.split(sep)` for a one-character separator: the pieces between separators. */
  function SplitOn(s: string, sep: char): (parts: seq<string>)
    ensures |parts| >= 1
    ensures forall k | 0 <= k < |parts| :: sep !in parts[k]
  {
    if s == [] then [[]]
    else
      var rest := SplitOn(s[1..], sep);
      if s[0] == sep then [[]] + rest else [[s[0]] + rest[0]] + rest[1..]
  }

  /** `parts.join(sep)` */
  function Join(parts: seq<string>, sep: char): string
    requires |parts| >= 1
  {
    if |parts| == 1 then parts[0] else parts[0] + [sep] + Join(parts[1..], sep)
  }

  /** Splitting and joining back on the same separator gives the original text. */
  lemma {:induction false} JoinSplitOn(s: string, sep: char)
    ensures Join(SplitOn(s, sep), sep) == s
  {
    if s != [] {
      JoinSplitOn(s[1..], sep);
      var rest := SplitOn(s[1..], sep);
      if s[0] == sep {
        assert SplitOn(s, sep)[1..] == rest;
      } else {
        var parts := SplitOn(s, sep);
        assert parts[1..] == rest[1..];
        if |rest| == 1 {
        } else {
          assert Join(rest, sep) == rest[0] + [sep] + Join(rest[1..], sep);
        }
      }
    }
  }

  /** Text without the separator splits into exactly one piece, the text itself. */
  lemma SplitOnAbsent(s: string, sep: char)
    requires sep !in s
    ensures SplitOn(s, sep) == [s]
  {
    if s != [] {
      SplitOnAbsent(s[1..], sep);
      assert [s[0]] + s[1..] == s;
    }
  }

  /** Moving the next piece of output from the pending part to the part already produced. */
  lemma Regroup<X>(done: seq<X>, next: seq<X>, rest: seq<X>, whole: seq<X>)
    requires done + (next + rest) == whole
    ensures (done + next) + rest == whole
  {
    assert done + (next + rest) == (done + next) + rest;
  }

  /** A class every character of `s[lo..hi]` belongs to is one every character of the slice belongs to. */
  lemma SliceAll(s: string, lo: nat, hi: nat, inClass: char -> bool)
    requires lo <= hi <= |s|
    requires forall j | lo <= j < hi :: inClass(s[j])
    ensures forall c | c in s[lo..hi] :: inClass(c)
  {
    forall c | c in s[lo..hi] ensures inClass(c) {
      var j :| 0 <= j < hi - lo && s[lo..hi][j] == c;
      assert c == s[lo + j];
    }
  }
}
