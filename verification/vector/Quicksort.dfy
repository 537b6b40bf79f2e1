// The quicksort shared by the vector and the deque, as a function on sequences.
module Quicksort {
  import opened WeakOrder

  function SwapAt<T>(s: seq<T>, i: nat, j: nat): (t: seq<T>)
    requires i < |s| && j < |s|
    ensures |t| == |s| && t[i] == s[j] && t[j] == s[i]
    ensures forall k :: 0 <= k < |s| && k != i && k != j ==> t[k] == s[k]
  {
    s[i := s[j]][j := s[i]]
  }

  // The scan from `i` to `b`: what belongs before the pivot s[a] is swapped to the front.
  // The result is the sequence and the last place of the front part.
  function Partition<T>(after: (T, T) -> bool, s: seq<T>, a: nat, b: nat, i: nat, z: nat): (r: (seq<T>, nat))
    requires a <= z < i <= b + 1 <= |s|
    ensures |r.0| == |s| && z <= r.1 <= b
    decreases b + 1 - i
  {
    if i > b then (s, z)
    else if after(s[a], s[i]) then Partition(after, SwapAt(s, z + 1, i), a, b, i + 1, z + 1)
    else Partition(after, s, a, b, i + 1, z)
  }

  // Sorting the places a to b.
  function RangedSorted<T>(after: (T, T) -> bool, s: seq<T>, a: int, b: int): (t: seq<T>)
    requires 0 <= a && b < |s|
    ensures |t| == |s|
    decreases b - a
  {
    if a >= b then s
    else
      var p := Partition(after, SwapAt(s, a, (a + b) / 2), a, b, a + 1, a);
      var s1 := SwapAt(p.0, a, p.1);
      RangedSorted(after, RangedSorted(after, s1, a, p.1 - 1), p.1 + 1, b)
  }

  lemma PartitionStep<T>(after: (T, T) -> bool, s: seq<T>, a: nat, b: nat, i: nat, z: nat)
    requires a <= z < i <= b + 1 <= |s|
    ensures Partition(after, s, a, b, i, z) ==
      if i > b then (s, z)
      else if after(s[a], s[i]) then Partition(after, SwapAt(s, z + 1, i), a, b, i + 1, z + 1)
      else Partition(after, s, a, b, i + 1, z)
  {
  }

  lemma RangedEnd<T>(after: (T, T) -> bool, s: seq<T>, a: int, b: int)
    requires 0 <= a && b < |s| && a >= b
    ensures RangedSorted(after, s, a, b) == s
  {
  }

  lemma RangedStep<T>(after: (T, T) -> bool, s: seq<T>, a: int, b: int)
    requires 0 <= a < b < |s|
    ensures var p := Partition(after, SwapAt(s, a, (a + b) / 2), a, b, a + 1, a);
      RangedSorted(after, s, a, b) ==
        RangedSorted(after, RangedSorted(after, SwapAt(p.0, a, p.1), a, p.1 - 1), p.1 + 1, b)
  {
  }

  // A rearrangement of the places a to b.
  ghost predicate Rearranged<T>(s: seq<T>, t: seq<T>, a: int, b: int) {
    && |s| == |t| && multiset(s) == multiset(t)
    && forall k :: 0 <= k < |s| && !(a <= k <= b) ==> s[k] == t[k]
  }

  // What the rearranged places hold was in them before.
  lemma RearrangedWithin<T>(s: seq<T>, t: seq<T>, a: nat, b: int)
    requires Rearranged(s, t, a, b) && a <= b + 1 <= |s|
    ensures multiset(s[a..b + 1]) == multiset(t[a..b + 1])
  {
    assert s == s[..a] + s[a..b + 1] + s[b + 1..];
    assert t == t[..a] + t[a..b + 1] + t[b + 1..];
    assert s[..a] == t[..a] && s[b + 1..] == t[b + 1..];
    assert multiset(s[a..b + 1]) == multiset(s) - multiset(s[..a]) - multiset(s[b + 1..]);
    assert multiset(t[a..b + 1]) == multiset(t) - multiset(t[..a]) - multiset(t[b + 1..]);
  }

  lemma RearrangedSelf<T>(s: seq<T>, a: int, b: int)
    ensures Rearranged(s, s, a, b)
  {
  }

  lemma SwapRearranges<T>(s: seq<T>, i: nat, j: nat, a: int, b: int)
    requires i < |s| && j < |s| && a <= i <= b && a <= j <= b
    ensures Rearranged(s, SwapAt(s, i, j), a, b)
  {
  }

  lemma RearrangedTransitive<T>(s: seq<T>, t: seq<T>, u: seq<T>, c: int, d: int, e: int, f: int, a: int, b: int)
    requires Rearranged(s, t, c, d) && Rearranged(t, u, e, f) && a <= c && d <= b && a <= e && f <= b
    ensures Rearranged(s, u, a, b)
  {
  }

  // The front part belongs before the pivot, the scanned rest does not.
  ghost predicate Parted<T>(after: (T, T) -> bool, s: seq<T>, a: nat, z: nat, i: nat)
    requires a <= z < i <= |s|
  {
    && (forall k :: a < k <= z ==> after(s[a], s[k]))
    && (forall k :: z < k < i ==> !after(s[a], s[k]))
  }

  lemma {:induction false} PartitionParts<T>(after: (T, T) -> bool, s: seq<T>, a: nat, b: nat, i: nat, z: nat)
    requires a <= z < i <= b + 1 <= |s| && Parted(after, s, a, z, i)
    ensures var r := Partition(after, s, a, b, i, z);
      Parted(after, r.0, a, r.1, b + 1) && Rearranged(s, r.0, a + 1, b)
    decreases b + 1 - i
  {
    hide SwapAt, Rearranged, Parted;
    RearrangedSelf(s, a + 1, b);
    if i <= b {
      if after(s[a], s[i]) {
        var t := SwapAt(s, z + 1, i);
        PartedSwap(after, s, a, z, i);
        PartitionParts(after, t, a, b, i + 1, z + 1);
        SwapRearranges(s, z + 1, i, a + 1, b);
        RearrangedTransitive(s, t, Partition(after, t, a, b, i + 1, z + 1).0, a + 1, b, a + 1, b, a + 1, b);
      } else {
        PartedStay(after, s, a, z, i);
        PartitionParts(after, s, a, b, i + 1, z);
      }
    }
  }

  lemma PartedStay<T>(after: (T, T) -> bool, s: seq<T>, a: nat, z: nat, i: nat)
    requires a <= z < i < |s| && Parted(after, s, a, z, i) && !after(s[a], s[i])
    ensures Parted(after, s, a, z, i + 1)
  {
  }

  lemma PartedSwap<T>(after: (T, T) -> bool, s: seq<T>, a: nat, z: nat, i: nat)
    requires a <= z < i < |s| && Parted(after, s, a, z, i) && after(s[a], s[i])
    ensures Parted(after, SwapAt(s, z + 1, i), a, z + 1, i + 1)
  {
  }

  ghost predicate SortedIn<T>(after: (T, T) -> bool, s: seq<T>, a: int, b: int)
    requires 0 <= a && b < |s|
  {
    forall i, j :: a <= i < j <= b ==> !after(s[i], s[j])
  }

  // Everything left of z belongs before it, nothing right of z does.
  ghost predicate Pivoted<T>(after: (T, T) -> bool, s: seq<T>, a: int, z: int, b: int)
    requires 0 <= a <= z <= b < |s|
  {
    && (forall k :: a <= k < z ==> after(s[z], s[k]))
    && (forall k :: z < k <= b ==> !after(s[z], s[k]))
  }

  // Sorting one side keeps the sides apart.
  lemma StillPivoted<T>(after: (T, T) -> bool, s: seq<T>, t: seq<T>, a: int, z: int, b: int, c: int, d: int)
    requires 0 <= a <= z <= b < |s| && Pivoted(after, s, a, z, b) && Rearranged(s, t, c, d)
    requires (c == a && d == z - 1) || (c == z + 1 && d == b)
    ensures Pivoted(after, t, a, z, b)
  {
    RearrangedWithin(s, t, c, d);
    forall k | c <= k <= d ensures t[k] in s[c..d + 1] {
      assert t[k] == t[c..d + 1][k - c];
      assert t[k] in multiset(t[c..d + 1]);
    }
  }

  lemma {:induction false} SortedAround<T(!new)>(after: (T, T) -> bool, s: seq<T>, a: int, z: int, b: int)
    requires StrictWeak(after) && 0 <= a <= z <= b < |s| && Pivoted(after, s, a, z, b)
    requires SortedIn(after, s, a, z - 1) && SortedIn(after, s, z + 1, b)
    ensures SortedIn(after, s, a, b)
  {
  }

  // The places a to b end up sorted, holding what they held; nothing else moves.
  lemma {:induction false} RangedSortedSorts<T(!new)>(after: (T, T) -> bool, s: seq<T>, a: int, b: int)
    requires StrictWeak(after) && 0 <= a && b < |s|
    ensures SortedIn(after, RangedSorted(after, s, a, b), a, b) && Rearranged(s, RangedSorted(after, s, a, b), a, b)
    decreases b - a, 1
  {
    hide StrictWeak, Rearranged, Pivoted, Parted, Partition, SwapAt, SortedIn;
    if a >= b {
      NothingToSort(after, s, a, b);
    } else {
      var s0 := SwapAt(s, a, (a + b) / 2);
      var p := Partition(after, s0, a, b, a + 1, a);
      OneRound(after, s, a, (a + b) / 2, b);
      SidesSorted(after, s, SwapAt(p.0, a, p.1), a, p.1, b);
    }
  }

  // One round of swaps around a pivot taken from place m.
  lemma OneRound<T(!new)>(after: (T, T) -> bool, s: seq<T>, a: nat, m: nat, b: nat)
    requires a <= m <= b < |s|
    ensures var p := Partition(after, SwapAt(s, a, m), a, b, a + 1, a);
      var s1 := SwapAt(p.0, a, p.1);
      Pivoted(after, s1, a, p.1, b) && Rearranged(s, s1, a, b)
  {
    hide Rearranged, Pivoted, Parted, Partition, SwapAt;
    var s0 := SwapAt(s, a, m);
    var p := Partition(after, s0, a, b, a + 1, a);
    var z, s1 := p.1, SwapAt(p.0, a, p.1);
    PartedStart(after, s0, a);
    PartitionParts(after, s0, a, b, a + 1, a);
    PivotInPlace(after, p.0, a, z, b);
    SwapRearranges(s, a, m, a, b);
    RearrangedTransitive(s, s0, p.0, a, b, a + 1, b, a, b);
    SwapRearranges(p.0, a, z, a, b);
    RearrangedTransitive(s, p.0, s1, a, b, a, b, a, b);
  }

  lemma NothingToSort<T>(after: (T, T) -> bool, s: seq<T>, a: int, b: int)
    requires 0 <= a && b < |s| && a >= b
    ensures SortedIn(after, s, a, b) && Rearranged(s, s, a, b)
  {
  }

  lemma PartedStart<T>(after: (T, T) -> bool, s: seq<T>, a: nat)
    requires a < |s|
    ensures Parted(after, s, a, a, a + 1)
  {
  }

  // The two recursive calls.
  lemma {:induction false} SidesSorted<T(!new)>(after: (T, T) -> bool, s: seq<T>, s1: seq<T>, a: int, z: int, b: int)
    requires StrictWeak(after) && 0 <= a <= z <= b < |s1| && Pivoted(after, s1, a, z, b) && Rearranged(s, s1, a, b)
    ensures var t := RangedSorted(after, RangedSorted(after, s1, a, z - 1), z + 1, b);
      SortedIn(after, t, a, b) && Rearranged(s, t, a, b)
    decreases b - a, 0
  {
    hide StrictWeak, Rearranged, Pivoted, RangedSorted;
    var s2 := RangedSorted(after, s1, a, z - 1);
    RangedSortedSorts(after, s1, a, z - 1);
    StillPivoted(after, s1, s2, a, z, b, a, z - 1);
    RearrangedTransitive(s, s1, s2, a, b, a, z - 1, a, b);
    var s3 := RangedSorted(after, s2, z + 1, b);
    RangedSortedSorts(after, s2, z + 1, b);
    StillPivoted(after, s2, s3, a, z, b, z + 1, b);
    RearrangedTransitive(s, s2, s3, a, b, z + 1, b, a, b);
    StaysSorted(after, s2, s3, a, z, b);
    SortedAround(after, s3, a, z, b);
  }

  lemma StaysSorted<T>(after: (T, T) -> bool, s: seq<T>, t: seq<T>, a: int, z: int, b: int)
    requires 0 <= a <= z <= b < |s| && SortedIn(after, s, a, z - 1) && Rearranged(s, t, z + 1, b)
    ensures SortedIn(after, t, a, z - 1)
  {
  }

  lemma PivotInPlace<T>(after: (T, T) -> bool, s: seq<T>, a: nat, z: nat, b: nat)
    requires a <= z <= b < |s| && Parted(after, s, a, z, b + 1)
    ensures Pivoted(after, SwapAt(s, a, z), a, z, b)
  {
  }

  // Sorting a whole sequence.
  lemma SortsAll<T(!new)>(after: (T, T) -> bool, s: seq<T>)
    requires StrictWeak(after)
    ensures var t := RangedSorted(after, s, 0, |s| - 1); Sorted(after, t) && multiset(t) == multiset(s)
  {
    RangedSortedSorts(after, s, 0, |s| - 1);
  }
}
