/**
 * `sortPostsByDate` (src/lib/utils.ts): `posts.sort((a, b) => b.time - a.time)`
 * sorts the caller's array in place, newest first, and returns that same
 * array. `Array.prototype.sort` is stable, so posts published at the same
 * instant keep their relative order.
 */
module PostOrder {

  /** Newest first under `time` (the publish date as milliseconds). */
  predicate NewestFirst<T>(s: seq<T>, time: T -> int) {
    forall i, j | 0 <= i < j < |s| :: time(s[i]) >= time(s[j])
  }

  /** The posts of `s` published at instant `t`, in their order in `s`. */
  function PublishedAt<T>(s: seq<T>, t: int, time: T -> int): (r: seq<T>)
    ensures |r| <= |s|
  {
    if s == [] then []
    else (if time(s[0]) == t then [s[0]] else []) + PublishedAt(s[1..], t, time)
  }

  /** Places `x` just before the first post strictly older than it. */
  function Insert<T>(s: seq<T>, x: T, time: T -> int): (r: seq<T>)
    ensures |r| == |s| + 1
  {
    if s == [] then [x]
    else if time(s[0]) < time(x) then [x] + s
    else [s[0]] + Insert(s[1..], x, time)
  }

  /** Inserting adds `x` and loses nothing. */
  lemma {:induction false} InsertPermutes<T>(s: seq<T>, x: T, time: T -> int)
    ensures multiset(Insert(s, x, time)) == multiset(s) + multiset{x}
  {
    if s != [] && time(s[0]) >= time(x) {
      InsertPermutes(s[1..], x, time);
      assert s == [s[0]] + s[1..];
    }
  }

  /** A stable newest-first insertion sort: the order the in-place sort must produce. */
  function SortedByDate<T>(s: seq<T>, time: T -> int): (r: seq<T>)
    ensures |r| == |s|
  {
    if s == [] then []
    else Insert(SortedByDate(s[..|s| - 1], time), s[|s| - 1], time)
  }

  /** The sort is a permutation of its input. */
  lemma {:induction false} SortedIsPermutation<T>(s: seq<T>, time: T -> int)
    ensures multiset(SortedByDate(s, time)) == multiset(s)
  {
    if s != [] {
      var init := s[..|s| - 1];
      SortedIsPermutation(init, time);
      InsertPermutes(SortedByDate(init, time), s[|s| - 1], time);
      assert s == init + [s[|s| - 1]];
    }
  }

  lemma {:induction false} InsertKeepsOrder<T>(s: seq<T>, x: T, time: T -> int)
    requires NewestFirst(s, time)
    ensures NewestFirst(Insert(s, x, time), time)
  {
    if s != [] && time(s[0]) >= time(x) {
      InsertKeepsOrder(s[1..], x, time);
      InsertPermutes(s[1..], x, time);
      var r := Insert(s[1..], x, time);
      assert forall k | 0 <= k < |r| :: r[k] in s[1..] || r[k] == x by {
        forall k | 0 <= k < |r| ensures r[k] in s[1..] || r[k] == x {
          assert r[k] in multiset(r);
        }
      }
    }
  }

  /** The reference sort puts the newest posts first. */
  lemma {:induction false} SortedIsNewestFirst<T>(s: seq<T>, time: T -> int)
    ensures NewestFirst(SortedByDate(s, time), time)
  {
    if s != [] {
      SortedIsNewestFirst(s[..|s| - 1], time);
      InsertKeepsOrder(SortedByDate(s[..|s| - 1], time), s[|s| - 1], time);
    }
  }

  lemma {:induction false} PublishedAtAppend<T>(a: seq<T>, b: seq<T>, t: int, time: T -> int)
    ensures PublishedAt(a + b, t, time) == PublishedAt(a, t, time) + PublishedAt(b, t, time)
  {
    if a != [] {
      PublishedAtAppend(a[1..], b, t, time);
      assert (a + b)[0] == a[0] && (a + b)[1..] == a[1..] + b;
    } else {
      assert a + b == b;
    }
  }

  /** In a newest-first sequence that begins strictly older than `x`, nothing was published with `x`. */
  lemma {:induction false} NoneAtNewer<T>(s: seq<T>, x: T, time: T -> int)
    requires NewestFirst(s, time)
    requires s != [] ==> time(s[0]) < time(x)
    ensures PublishedAt(s, time(x), time) == []
  {
    if s != [] {
      NoneAtNewer(s[1..], x, time);
    }
  }

  lemma PublishedAtCons<T>(y: T, rest: seq<T>, t: int, time: T -> int)
    ensures PublishedAt([y] + rest, t, time) == (if time(y) == t then [y] else []) + PublishedAt(rest, t, time)
  {
    assert ([y] + rest)[0] == y && ([y] + rest)[1..] == rest;
  }

  /** When `x` is newer than the newest post it goes first, and no post shares its instant. */
  lemma InsertedFirstIsStable<T>(s: seq<T>, x: T, t: int, time: T -> int)
    requires NewestFirst(s, time)
    requires s != [] && time(s[0]) < time(x)
    ensures PublishedAt(Insert(s, x, time), t, time) == PublishedAt(s, t, time) + PublishedAt([x], t, time)
  {
    assert Insert(s, x, time) == [x] + s;
    if time(x) == t {
      NoneAtNewer(s, x, time);
    }
    PublishedAtAppend([x], s, t, time);
  }

  /** Inserting `x` puts it after every post published at the same instant. */
  lemma {:induction false} InsertIsStable<T>(s: seq<T>, x: T, t: int, time: T -> int)
    requires NewestFirst(s, time)
    ensures PublishedAt(Insert(s, x, time), t, time) == PublishedAt(s, t, time) + PublishedAt([x], t, time)
  {
    if s == [] {
    } else if time(s[0]) < time(x) {
      InsertedFirstIsStable(s, x, t, time);
    } else {
      var tail := s[1..];
      NewestFirstTail(s, time);
      InsertIsStable(tail, x, t, time);
      assert Insert(s, x, time) == [s[0]] + Insert(tail, x, time);
      PublishedAtCons(s[0], Insert(tail, x, time), t, time);
      PublishedAtCons(s[0], tail, t, time);
      assert [s[0]] + tail == s;
    }
  }

  /** Stability: for every instant, the posts published then keep their input order. */
  lemma {:induction false} SortIsStable<T>(s: seq<T>, t: int, time: T -> int)
    ensures PublishedAt(SortedByDate(s, time), t, time) == PublishedAt(s, t, time)
  {
    if s != [] {
      var init := s[..|s| - 1];
      SortIsStable(init, t, time);
      SortedIsNewestFirst(init, time);
      InsertIsStable(SortedByDate(init, time), s[|s| - 1], t, time);
      assert s == init + [s[|s| - 1]];
      PublishedAtAppend(init, [s[|s| - 1]], t, time);
    }
  }

  /**
   * Newest first plus "equal instants keep their order" pins the result down:
   * two newest-first sequences with the same posts at every instant are equal.
   * So the reference sort is the only stable newest-first order of its input.
   */
  lemma {:induction false} StableOrderIsUnique<T>(r1: seq<T>, r2: seq<T>, time: T -> int)
    requires NewestFirst(r1, time) && NewestFirst(r2, time)
    requires forall t :: PublishedAt(r1, t, time) == PublishedAt(r2, t, time)
    ensures r1 == r2
  {
    if r1 != [] {
      FirstHasTies(r1, time);
      assert PublishedAt(r2, time(r1[0]), time) != [];
    }
    if r2 != [] {
      FirstHasTies(r2, time);
      assert PublishedAt(r1, time(r2[0]), time) != [];
    }
    if r1 != [] && r2 != [] {
      SameHead(r1, r2, time);
      TailsAgree(r1, r2, time);
      NewestFirstTail(r1, time);
      NewestFirstTail(r2, time);
      StableOrderIsUnique(r1[1..], r2[1..], time);
      assert r1 == [r1[0]] + r1[1..] && r2 == [r2[0]] + r2[1..];
    }
  }

  lemma NewestFirstTail<T>(s: seq<T>, time: T -> int)
    requires s != [] && NewestFirst(s, time)
    ensures NewestFirst(s[1..], time)
  {
    forall i, j | 0 <= i < j < |s| - 1 ensures time(s[1..][i]) >= time(s[1..][j]) {
      assert s[1..][i] == s[i + 1] && s[1..][j] == s[j + 1];
    }
  }

  lemma TailsAgree<T>(r1: seq<T>, r2: seq<T>, time: T -> int)
    requires r1 != [] && r2 != [] && r1[0] == r2[0]
    requires forall t :: PublishedAt(r1, t, time) == PublishedAt(r2, t, time)
    ensures forall t :: PublishedAt(r1[1..], t, time) == PublishedAt(r2[1..], t, time)
  {
    forall t ensures PublishedAt(r1[1..], t, time) == PublishedAt(r2[1..], t, time) {
      SameHeadSameTail(r1, r2, t, time);
    }
  }

  /** Two newest-first sequences agreeing on the posts at their first posts' instants start with the same post. */
  lemma SameHead<T>(r1: seq<T>, r2: seq<T>, time: T -> int)
    requires r1 != [] && r2 != []
    requires NewestFirst(r1, time) && NewestFirst(r2, time)
    requires PublishedAt(r1, time(r1[0]), time) == PublishedAt(r2, time(r1[0]), time)
    requires PublishedAt(r1, time(r2[0]), time) == PublishedAt(r2, time(r2[0]), time)
    ensures r1[0] == r2[0]
  {
    var t1, t2 := time(r1[0]), time(r2[0]);
    FirstHasTies(r1, time);
    FirstHasTies(r2, time);
    NewestHasTime(r2, t1, time);
    NewestHasTime(r1, t2, time);
    assert PublishedAt(r1, t1, time)[0] == r1[0];
    assert PublishedAt(r2, t1, time)[0] == r2[0];
  }

  /** Two sequences with the same first post and the same posts at `t` have the same posts at `t` after it. */
  lemma SameHeadSameTail<T>(r1: seq<T>, r2: seq<T>, t: int, time: T -> int)
    requires r1 != [] && r2 != [] && r1[0] == r2[0]
    requires PublishedAt(r1, t, time) == PublishedAt(r2, t, time)
    ensures PublishedAt(r1[1..], t, time) == PublishedAt(r2[1..], t, time)
  {
    var head := if time(r1[0]) == t then [r1[0]] else [];
    assert PublishedAt(r1, t, time) == head + PublishedAt(r1[1..], t, time);
    assert PublishedAt(r2, t, time) == head + PublishedAt(r2[1..], t, time);
    assert PublishedAt(r1[1..], t, time) == PublishedAt(r1, t, time)[|head|..];
    assert PublishedAt(r2[1..], t, time) == PublishedAt(r2, t, time)[|head|..];
  }

  lemma FirstHasTies<T>(s: seq<T>, time: T -> int)
    requires s != []
    ensures PublishedAt(s, time(s[0]), time) != []
  {
  }

  /** Some post of a newest-first `s` was published at `t` only if the first is no older than `t`. */
  lemma {:induction false} NewestHasTime<T>(s: seq<T>, t: int, time: T -> int)
    requires NewestFirst(s, time) && s != []
    requires PublishedAt(s, t, time) != []
    ensures time(s[0]) >= t
  {
    if time(s[0]) != t {
      NewestHasTime(s[1..], t, time);
    }
  }

  /** Where the inner loop stops is where `Insert` puts `x`. */
  lemma {:induction false} InsertAt<T>(s: seq<T>, x: T, j: nat, time: T -> int)
    requires j <= |s|
    requires forall k | 0 <= k < j :: time(s[k]) >= time(x)
    requires forall k | j <= k < |s| :: time(s[k]) < time(x)
    ensures Insert(s, x, time) == s[..j] + [x] + s[j..]
  {
    if j > 0 {
      var tail := s[1..];
      assert time(s[0]) >= time(x);
      InsertAt(tail, x, j - 1, time);
      SplitAfterHead(s, x, j);
    } else {
      assert s[..0] + [x] + s[0..] == [x] + s;
    }
  }

  lemma SplitAfterHead<T>(s: seq<T>, x: T, j: nat)
    requires 0 < j <= |s|
    ensures s[..j] + [x] + s[j..] == [s[0]] + (s[1..][..j - 1] + [x] + s[1..][j - 1..])
  {
    assert s[1..][..j - 1] == s[1..j];
    assert s[1..][j - 1..] == s[j..];
    assert s[..j] == [s[0]] + s[1..j];
  }

  /** The array after the last step of the inner loop holds `Insert(prefix, x)`. */
  lemma FinishInsert<T>(a: seq<T>, prefix: seq<T>, x: T, j: nat, time: T -> int)
    requires NewestFirst(prefix, time)
    requires |a| == |prefix| + 1 && j <= |prefix|
    requires forall k | 0 <= k < j :: a[k] == prefix[k]
    requires a[j] == x
    requires forall k | j < k < |a| :: a[k] == prefix[k - 1]
    requires j > 0 ==> time(prefix[j - 1]) >= time(x)
    requires forall k | j <= k < |prefix| :: time(prefix[k]) < time(x)
    ensures a == Insert(prefix, x, time)
  {
    OlderBeforeStop(prefix, x, j, time);
    InsertAt(prefix, x, j, time);
    ShiftedIsInsert(a, prefix, x, j);
  }

  /** In a newest-first prefix, everything before the place the inner loop stopped at is no older than `x`. */
  lemma OlderBeforeStop<T>(prefix: seq<T>, x: T, j: nat, time: T -> int)
    requires NewestFirst(prefix, time) && j <= |prefix|
    requires j > 0 ==> time(prefix[j - 1]) >= time(x)
    ensures forall k | 0 <= k < j :: time(prefix[k]) >= time(x)
  {
  }

  /** The array after shifting the older posts right and dropping `x` into the gap. */
  lemma ShiftedIsInsert<T>(a: seq<T>, prefix: seq<T>, x: T, j: nat)
    requires |a| == |prefix| + 1 && j <= |prefix|
    requires forall k | 0 <= k < j :: a[k] == prefix[k]
    requires a[j] == x
    requires forall k | j < k < |a| :: a[k] == prefix[k - 1]
    ensures a == prefix[..j] + [x] + prefix[j..]
  {
  }

  /**
   * One step of the insertion sort: shifts the posts of the sorted prefix
   * `posts[..i]` that are strictly older than `posts[i]` one place right and
   * drops `posts[i]` into the gap.
   */
  method InsertLast<T>(posts: array<T>, i: nat, time: T -> int)
    requires i < posts.Length
    requires NewestFirst(posts[..i], time)
    modifies posts
    ensures posts[..i + 1] == Insert(old(posts[..i]), old(posts[i]), time)
    ensures posts[i + 1..] == old(posts[i + 1..])
  {
    ghost var prefix := posts[..i];
    var x := posts[i];
    var j := i;
    while j > 0 && time(posts[j - 1]) < time(x)
      invariant 0 <= j <= i
      invariant forall k | 0 <= k < j :: posts[k] == prefix[k]
      invariant forall k | j < k <= i :: posts[k] == prefix[k - 1]
      invariant forall k | i < k < posts.Length :: posts[k] == old(posts[k])
      invariant forall k | j <= k < i :: time(prefix[k]) < time(x)
    {
      posts[j] := posts[j - 1];
      j := j - 1;
    }
    posts[j] := x;
    FinishInsert(posts[..i + 1], prefix, x, j, time);
  }

  lemma GrowSorted<T>(input: seq<T>, i: nat, time: T -> int)
    requires i < |input|
    ensures SortedByDate(input[..i + 1], time) == Insert(SortedByDate(input[..i], time), input[i], time)
  {
    assert input[..i + 1][..i] == input[..i];
  }

  /**
   * Sorts `posts` in place (an insertion sort, standing for the engine's
   * stable sort) and returns the same array.
   */
  method SortPostsByDate<T>(posts: array<T>, time: T -> int) returns (sorted: array<T>)
    modifies posts
    ensures sorted == posts
    ensures posts[..] == SortedByDate(old(posts[..]), time)
  {
    ghost var input := posts[..];
    var i := 0;
    while i < posts.Length
      invariant 0 <= i <= posts.Length
      invariant posts[..i] == SortedByDate(input[..i], time)
      invariant forall k | i <= k < posts.Length :: posts[k] == input[k]
    {
      SortedIsNewestFirst(input[..i], time);
      InsertLast(posts, i, time);
      GrowSorted(input, i, time);
      i := i + 1;
    }
    assert input[..posts.Length] == input;
    sorted := posts;
  }
}
