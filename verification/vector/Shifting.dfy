// Moving a stretch of a sequence by one place, one element at a time.
module Shifting {
  // `c` is `s` with the elements from i to hi - 1 moved up by one.
  ghost predicate ShiftedUp<T>(s: seq<T>, c: seq<T>, i: int, hi: int) {
    && |c| == |s| && 0 <= i <= hi < |s|
    && (forall k :: 0 <= k < |s| && (k < i || k > hi) ==> c[k] == s[k])
    && (forall k :: i < k <= hi ==> c[k] == s[k - 1])
  }

  // `c` is `s` with the elements from lo + 1 to i moved down by one.
  ghost predicate ShiftedDown<T>(s: seq<T>, c: seq<T>, lo: int, i: int) {
    && |c| == |s| && 0 <= lo <= i < |s|
    && (forall k :: 0 <= k < |s| && (k < lo || k > i) ==> c[k] == s[k])
    && (forall k :: lo <= k < i ==> c[k] == s[k + 1])
  }

  lemma StartShift<T>(s: seq<T>, i: nat)
    requires i < |s|
    ensures ShiftedUp(s, s, i, i) && ShiftedDown(s, s, i, i)
  {
  }

  lemma ShiftUp<T>(s: seq<T>, c: seq<T>, i: int, hi: int)
    requires ShiftedUp(s, c, i, hi) && i > 0
    ensures i < |c| && ShiftedUp(s, c[i := c[i - 1]], i - 1, hi)
  {
  }

  lemma ShiftDown<T>(s: seq<T>, c: seq<T>, lo: int, i: int)
    requires ShiftedDown(s, c, lo, i) && i + 1 < |s|
    ensures i + 1 < |c| && ShiftedDown(s, c[i := c[i + 1]], lo, i + 1)
  {
  }

  lemma ShiftedAllUp<T>(s: seq<T>, c: seq<T>, hi: int)
    requires ShiftedUp(s, c, 0, hi)
    ensures |c| == |s| > hi >= 0 && c[1..] == s[..hi] + s[hi + 1..]
  {
  }

  lemma ShiftedAllDown<T>(s: seq<T>, c: seq<T>, lo: int)
    requires ShiftedDown(s, c, lo, |s| - 1)
    ensures |c| == |s| > lo >= 0 && c[..|s| - 1] == s[..lo] + s[lo + 1..]
  {
  }

  lemma OpenedUp<T>(s: seq<T>, c: seq<T>, i: int, x: T)
    requires ShiftedUp(s, c, i, |s| - 1)
    ensures |c| == |s| > i >= 0 && c[i := x] == s[..i] + [x] + s[i..|s| - 1]
  {
  }

  lemma OpenedDown<T>(s: seq<T>, c: seq<T>, i: int, x: T)
    requires ShiftedDown(s, c, 0, i)
    ensures |c| == |s| > i >= 0 && c[i := x] == s[1..i + 1] + [x] + s[i + 1..]
  {
  }

  // What is at the vacated place does not matter.
  lemma FreeSlot<T>(s: seq<T>, c: seq<T>, lo: int, i: int, x: T)
    requires ShiftedDown(s, c, lo, i)
    ensures 0 <= i < |c| && ShiftedDown(s, c[i := x], lo, i)
  {
  }
}
