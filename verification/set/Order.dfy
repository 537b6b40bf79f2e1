// Three-way comparison functions and the sequences they sort.
module Order {
  // The comparison function is consistent: a total preorder given as a sign.
  ghost predicate IsOrder<K(!new)>(cmp: (K, K) -> int) {
    && (forall a, b :: cmp(a, b) < 0 <==> cmp(b, a) > 0)
    && (forall a, b, c :: cmp(a, b) <= 0 && cmp(b, c) <= 0 ==> cmp(a, c) <= 0)
  }

  lemma Before<K(!new)>(cmp: (K, K) -> int, a: K, b: K, c: K)
    requires IsOrder(cmp)
    ensures cmp(a, b) < 0 && cmp(b, c) <= 0 ==> cmp(a, c) < 0
    ensures cmp(a, b) <= 0 && cmp(b, c) < 0 ==> cmp(a, c) < 0
    ensures cmp(b, c) <= 0 <==> cmp(c, b) >= 0
  {
  }

  lemma Flip<K(!new)>(cmp: (K, K) -> int, a: K, b: K)
    requires IsOrder(cmp)
    ensures cmp(a, b) < 0 <==> cmp(b, a) > 0
    ensures cmp(a, b) == 0 <==> cmp(b, a) == 0
  {
  }

  ghost predicate Sorted<K>(cmp: (K, K) -> int, s: seq<K>) {
    forall i, j :: 0 <= i < j < |s| ==> cmp(s[i], s[j]) < 0
  }

  // Every key of `a` is below `k`; every key of `b` is above it.
  ghost predicate Between<K>(cmp: (K, K) -> int, a: seq<K>, k: K, b: seq<K>) {
    (forall x :: x in a ==> cmp(x, k) < 0) && (forall x :: x in b ==> cmp(k, x) < 0)
  }

  lemma SortedBetween<K(!new)>(cmp: (K, K) -> int, a: seq<K>, k: K, b: seq<K>)
    requires IsOrder(cmp)
    ensures Sorted(cmp, a + [k] + b) <==> Sorted(cmp, a) && Sorted(cmp, b) && Between(cmp, a, k, b)
  {
    var s := a + [k] + b;
    assert s[|a|] == k;
    assert forall i :: 0 <= i < |a| ==> s[i] == a[i];
    assert forall i :: 0 <= i < |b| ==> s[|a| + 1 + i] == b[i];
    if Sorted(cmp, s) {
      assert forall i :: 0 <= i < |a| ==> cmp(a[i], k) < 0;
      assert forall i :: 0 <= i < |b| ==> cmp(k, b[i]) < 0;
    }
    if Sorted(cmp, a) && Sorted(cmp, b) && Between(cmp, a, k, b) {
      forall i, j | 0 <= i < j < |s| ensures cmp(s[i], s[j]) < 0 {
        Before(cmp, s[i], k, s[j]);
      }
    }
  }

  // The sequence with `k` put in at position i.
  ghost function InsertAt<K>(s: seq<K>, i: nat, k: K): seq<K>
    requires i <= |s|
  {
    s[..i] + [k] + s[i..]
  }

  ghost function RemoveAt<K>(s: seq<K>, i: nat): seq<K>
    requires i < |s|
  {
    s[..i] + s[i + 1..]
  }

  lemma SortedRemove<K>(cmp: (K, K) -> int, s: seq<K>, i: nat)
    requires Sorted(cmp, s) && i < |s|
    ensures Sorted(cmp, RemoveAt(s, i)) && |RemoveAt(s, i)| == |s| - 1
  {
  }

  lemma InsertAtSeam<T>(a: seq<T>, b: seq<T>, k: T)
    ensures InsertAt(a + b, |a|, k) == a + [k] + b
    ensures RemoveAt(a + [k] + b, |a|) == a + b
  {
  }

  lemma SortedInsert<K(!new)>(cmp: (K, K) -> int, a: seq<K>, b: seq<K>, k: K)
    requires IsOrder(cmp) && Sorted(cmp, a + b) && Between(cmp, a, k, b)
    ensures Sorted(cmp, a + [k] + b)
  {
    assert forall i :: 0 <= i < |a| ==> (a + b)[i] == a[i];
    assert forall i :: 0 <= i < |b| ==> (a + b)[|a| + i] == b[i];
    SortedBetween(cmp, a, k, b);
  }

  // Swapping two neighbours and then removing the first removes the second.
  lemma RemoveSwapped<T>(s: seq<T>, i: nat)
    requires 0 < i < |s|
    ensures RemoveAt(s[i := s[i - 1]][i - 1 := s[i]], i - 1) == RemoveAt(s, i)
  {
  }

  // At most one key of a sorted sequence equals `k`.
  lemma EqualAt<K(!new)>(cmp: (K, K) -> int, s: seq<K>, k: K, i: nat)
    requires IsOrder(cmp) && Sorted(cmp, s) && i < |s| && cmp(k, s[i]) == 0
    ensures forall j :: 0 <= j < |s| && cmp(k, s[j]) == 0 ==> j == i
  {
  }

  lemma RemoveAtIs<T>(s: seq<T>, i: nat)
    requires i < |s|
    ensures RemoveAt(s, i) == s[..i] + s[i + 1..]
  {
  }

  // Whichever of the two is removed, the element after position i moves to position i.
  lemma SuccessorStays<T>(s: seq<T>, i: nat)
    requires i + 1 < |s|
    ensures RemoveAt(s, i)[i] == s[i + 1] && (i > 0 ==> RemoveAt(s, i - 1)[i] == s[i + 1])
  {
  }

  // Some element equals `k`.
  ghost predicate Has<K>(cmp: (K, K) -> int, s: seq<K>, k: K) {
    exists x :: x in s && cmp(k, x) == 0
  }
}
