// Sums over the threads of a system.
module Tally {
  function Sum<T>(s: seq<T>, f: T -> int): int {
    if s == [] then 0 else Sum(s[..|s| - 1], f) + f(s[|s| - 1])
  }

  lemma {:induction false} SumUpdate<T>(s: seq<T>, f: T -> int, i: nat, x: T)
    requires i < |s|
    ensures Sum(s[i := x], f) == Sum(s, f) - f(s[i]) + f(x)
  {
    var n := |s| - 1;
    if i < n {
      SumUpdate(s[..n], f, i, x);
      assert s[i := x][..n] == s[..n][i := x];
    } else {
      assert s[i := x][..n] == s[..n];
    }
  }

  // No thread counts more than `m`.
  lemma {:induction false} SumAtMost<T>(s: seq<T>, f: T -> int, m: int)
    requires forall i :: 0 <= i < |s| ==> f(s[i]) <= m
    ensures Sum(s, f) <= m * |s|
  {
    if s != [] {
      SumAtMost(s[..|s| - 1], f, m);
    }
  }

  // A sum of naturals is at least each of its terms.
  lemma {:induction false} SumAtLeast<T>(s: seq<T>, f: T -> int, i: nat)
    requires i < |s| && forall j :: 0 <= j < |s| ==> f(s[j]) >= 0
    ensures Sum(s, f) >= f(s[i])
  {
    var n := |s| - 1;
    SumNonNegative(s[..n], f);
    if i < n {
      SumAtLeast(s[..n], f, i);
    }
  }

  lemma {:induction false} SumNonNegative<T>(s: seq<T>, f: T -> int)
    requires forall j :: 0 <= j < |s| ==> f(s[j]) >= 0
    ensures Sum(s, f) >= 0
  {
    if s != [] {
      SumNonNegative(s[..|s| - 1], f);
    }
  }

  // A positive sum has a positive term.
  lemma {:induction false} SomePositive<T>(s: seq<T>, f: T -> int) returns (i: nat)
    requires Sum(s, f) > 0
    ensures i < |s| && f(s[i]) > 0
  {
    i := |s| - 1;
    if f(s[i]) <= 0 {
      i := SomePositive(s[..i], f);
    }
  }

  // Two sums over equally long sequences compare as their terms do.
  lemma {:induction false} SumMonotone<T>(s: seq<T>, t: seq<T>, f: T -> int, d: int)
    requires |s| == |t| && forall i :: 0 <= i < |s| ==> f(t[i]) <= f(s[i]) + d
    ensures Sum(t, f) <= Sum(s, f) + d * |s|
  {
    if s != [] {
      SumMonotone(s[..|s| - 1], t[..|s| - 1], f, d);
    }
  }

  lemma {:induction false} SumZero<T>(s: seq<T>, f: T -> int)
    requires forall i :: 0 <= i < |s| ==> f(s[i]) == 0
    ensures Sum(s, f) == 0
  {
    if s != [] {
      SumZero(s[..|s| - 1], f);
    }
  }

  // If no term is above one, a sum as large as the number of terms has only ones.
  lemma {:induction false} FullSum<T>(s: seq<T>, f: T -> int)
    requires (forall i :: 0 <= i < |s| ==> f(s[i]) <= 1) && Sum(s, f) >= |s|
    ensures forall i :: 0 <= i < |s| ==> f(s[i]) == 1
  {
    if s != [] {
      var n := |s| - 1;
      SumAtMost(s[..n], f, 1);
      assert f(s[n]) == 1;
      FullSum(s[..n], f);
      assert forall i :: 0 <= i < n ==> s[i] == s[..n][i];
    }
  }

  lemma {:induction false} SumAppend<T>(a: seq<T>, b: seq<T>, f: T -> int)
    ensures Sum(a + b, f) == Sum(a, f) + Sum(b, f)
  {
    if b == [] {
      assert a + b == a;
    } else {
      assert (a + b)[..|a + b| - 1] == a + b[..|b| - 1];
      SumAppend(a, b[..|b| - 1], f);
    }
  }

  // Sums of two measures over the same threads.
  lemma {:induction false} SumCompare<T>(s: seq<T>, f: T -> int, g: T -> int)
    requires forall i :: 0 <= i < |s| ==> f(s[i]) <= g(s[i])
    ensures Sum(s, f) <= Sum(s, g)
  {
    if s != [] {
      SumCompare(s[..|s| - 1], f, g);
    }
  }

  // If the smaller measure sums up to as much, the measures agree on every thread.
  lemma {:induction false} SumTight<T>(s: seq<T>, f: T -> int, g: T -> int)
    requires (forall i :: 0 <= i < |s| ==> f(s[i]) <= g(s[i])) && Sum(s, f) >= Sum(s, g)
    ensures forall i :: 0 <= i < |s| ==> f(s[i]) == g(s[i])
  {
    if s != [] {
      var n := |s| - 1;
      SumCompare(s[..n], f, g);
      SumTight(s[..n], f, g);
      assert forall i :: 0 <= i < n ==> s[i] == s[..n][i];
    }
  }

  // What decreases at every step bounds the number of steps.
  lemma {:induction false} Descends(work: seq<int>)
    requires work != [] && forall i :: 0 <= i < |work| ==> work[i] >= 0
    requires forall i :: 0 < i < |work| ==> work[i] < work[i - 1]
    ensures |work| <= work[0] + 1
  {
    if |work| > 1 {
      Descends(work[1..]);
    }
  }
}
