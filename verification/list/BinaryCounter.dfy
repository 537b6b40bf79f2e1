// The slots of the bottom-up merge sort: a binary counter of sorted runs.
module BinaryCounter {
  import opened MergeOrder
  import opened Powers
  import opened WeakOrder

  // The slots' elements, oldest first: higher slots are older.
  function Flat<E>(s: seq<seq<E>>): seq<E> {
    if s == [] then [] else Flat(s[1..]) + s[0]
  }

  // Slot i is empty or holds 2^i sorted elements; the slots from `fill` on are empty.
  ghost predicate Runs<E, T>(after: (T, T) -> bool, value: E -> T, s: seq<seq<E>>, fill: nat) {
    && fill <= |s|
    && (forall i :: 0 <= i < |s| ==> s[i] == [] || (|s[i]| == Pow2(i) && Sorted(after, Values(s[i], value))))
    && (forall i :: fill <= i < |s| ==> s[i] == [])
  }

  ghost predicate EmptyBelow<E>(s: seq<seq<E>>, c: nat) {
    c <= |s| && forall i :: 0 <= i < c ==> s[i] == []
  }

  lemma {:induction false} FlatAbove<E>(s: seq<seq<E>>, c: nat)
    requires EmptyBelow(s, c)
    ensures Flat(s) == Flat(s[c..])
  {
    if c == 0 {
      assert s[0..] == s;
    } else {
      FlatAbove(s[1..], c - 1);
      assert s[1..][c - 1..] == s[c..];
    }
  }

  lemma FlatStep<E>(s: seq<seq<E>>)
    requires s != []
    ensures Flat(s) == Flat(s[1..]) + s[0]
  {
  }

  lemma FlatFrom<E>(s: seq<seq<E>>, c: nat)
    requires EmptyBelow(s, c) && c < |s|
    ensures Flat(s) == Flat(s[c + 1..]) + s[c]
  {
    FlatAbove(s, c);
    assert s[c..][1..] == s[c + 1..];
  }

  // Writing slot c when everything below is empty.
  lemma FlatWrite<E>(s: seq<seq<E>>, c: nat, x: seq<E>)
    requires EmptyBelow(s, c) && c < |s|
    ensures Flat(s[c := x]) == Flat(s[c + 1..]) + x
  {
    FlatFrom(s[c := x], c);
    assert s[c := x][c + 1..] == s[c + 1..];
  }

  // The carry, newer than all slots, holds 2^c sorted elements, and the slots below c are
  // empty. Together they hold the elements taken so far.
  ghost predicate Carrying<E, T(!new)>(after: (T, T) -> bool, value: E -> T, s: seq<seq<E>>, fill: nat, carry: seq<E>, c: nat, taken: seq<E>) {
    && Runs(after, value, s, fill) && c <= fill && EmptyBelow(s, c)
    && |carry| == Pow2(c) && Sorted(after, Values(carry, value))
    && Stable(after, value, taken, Flat(s) + carry)
  }

  lemma StartCarry<E, T(!new)>(after: (T, T) -> bool, value: E -> T, s: seq<seq<E>>, fill: nat, x: E, taken: seq<E>)
    requires Runs(after, value, s, fill) && Stable(after, value, taken, Flat(s))
    ensures Carrying(after, value, s, fill, [x], 0, taken + [x])
  {
    StableWithin(after, value, [], taken, Flat(s), [x]);
    assert [] + taken + [x] == taken + [x] && [] + Flat(s) + [x] == Flat(s) + [x];
  }

  // Merging slot c, the older one, with the carry.
  lemma CarryOver<E, T(!new)>(after: (T, T) -> bool, value: E -> T, s: seq<seq<E>>, fill: nat, carry: seq<E>, c: nat, taken: seq<E>)
    requires StrictWeak(after) && Carrying(after, value, s, fill, carry, c, taken) && c < fill && s[c] != []
    ensures Carrying(after, value, s[c := []], fill, Merged(after, value, s[c], carry), c + 1, taken)
  {
    hide Stable, Merged, Flat, Sorted, Values;
    var m, above, t := Merged(after, value, s[c], carry), Flat(s[c + 1..]), s[c := []];
    MergedSorted(after, value, s[c], carry);
    MergedLength(after, value, s[c], carry);
    MergedStable(after, value, s[c], carry);
    FlatFrom(s, c);
    FlatWrite(s, c, []);
    StableWithin(after, value, above, s[c] + carry, m, []);
    assert above + (s[c] + carry) + [] == Flat(s) + carry;
    assert above + m + [] == Flat(t) + m;
    StableTransitive(after, value, taken, Flat(s) + carry, Flat(t) + m);
  }

  lemma MergedLength<E, T>(after: (T, T) -> bool, value: E -> T, a: seq<E>, b: seq<E>)
    ensures |Merged(after, value, a, b)| == |a| + |b|
  {
  }

  // Putting the carry into the first empty slot.
  lemma EndCarry<E, T(!new)>(after: (T, T) -> bool, value: E -> T, s: seq<seq<E>>, fill: nat, carry: seq<E>, c: nat, taken: seq<E>)
    requires Carrying(after, value, s, fill, carry, c, taken) && c < |s| && s[c] == []
    ensures Runs(after, value, s[c := carry], if c == fill then fill + 1 else fill)
    ensures Stable(after, value, taken, Flat(s[c := carry]))
  {
    FlatFrom(s, c);
    FlatWrite(s, c, carry);
    assert Flat(s) == Flat(s[c + 1..]);
  }

  // With fewer than 2^n elements, the carry stops before the n-th slot.
  lemma CarryFits<E, T(!new)>(after: (T, T) -> bool, value: E -> T, s: seq<seq<E>>, fill: nat, carry: seq<E>, c: nat, taken: seq<E>)
    requires Carrying(after, value, s, fill, carry, c, taken) && |taken| < Pow2(|s|)
    ensures c < |s|
  {
    assert |multiset(taken)| == |multiset(Flat(s) + carry)|;
  }

  // ----- collecting the slots -----

  // Only slot c - 1 and those from c on are left, and they are sorted.
  ghost predicate Collecting<E, T(!new)>(after: (T, T) -> bool, value: E -> T, s: seq<seq<E>>, fill: nat, c: nat, taken: seq<E>) {
    && 0 < c <= fill <= |s| && EmptyBelow(s, c - 1)
    && (forall i :: 0 <= i < |s| ==> Sorted(after, Values(s[i], value)))
    && (forall i :: fill <= i < |s| ==> s[i] == [])
    && Stable(after, value, taken, Flat(s))
  }

  lemma StartCollecting<E, T(!new)>(after: (T, T) -> bool, value: E -> T, s: seq<seq<E>>, fill: nat, taken: seq<E>)
    requires Runs(after, value, s, fill) && Stable(after, value, taken, Flat(s)) && fill > 0
    ensures Collecting(after, value, s, fill, 1, taken)
  {
  }

  lemma EmptySorted<E, T>(after: (T, T) -> bool, value: E -> T)
    ensures Sorted(after, Values<E, T>([], value))
  {
  }

  lemma Collect<E, T(!new)>(after: (T, T) -> bool, value: E -> T, s: seq<seq<E>>, fill: nat, c: nat, taken: seq<E>)
    requires StrictWeak(after) && Collecting(after, value, s, fill, c, taken) && c < fill
    ensures Collecting(after, value, s[c := Merged(after, value, s[c], s[c - 1])][c - 1 := []], fill, c + 1, taken)
  {
    hide Stable, Merged, Flat, Sorted, Values;
    var m, above := Merged(after, value, s[c], s[c - 1]), Flat(s[c + 1..]);
    var t := s[c := m][c - 1 := []];
    MergedSorted(after, value, s[c], s[c - 1]);
    MergedStable(after, value, s[c], s[c - 1]);
    FlatFrom(s, c - 1);
    EmptySorted(after, value);
    FlatStep(s[c..]);
    assert s[c..][1..] == s[c + 1..];
    assert above + s[c] + s[c - 1] == above + (s[c] + s[c - 1]);
    assert EmptyBelow(t, c);
    FlatFrom(t, c);
    assert t[c + 1..] == s[c + 1..];
    StableWithin(after, value, above, s[c] + s[c - 1], m, []);
    assert above + (s[c] + s[c - 1]) + [] == Flat(s);
    assert above + m + [] == Flat(t);
    StableTransitive(after, value, taken, Flat(s), Flat(t));
  }

  lemma EndCollecting<E, T(!new)>(after: (T, T) -> bool, value: E -> T, s: seq<seq<E>>, fill: nat, taken: seq<E>)
    requires Collecting(after, value, s, fill, fill, taken)
    ensures Sorted(after, Values(s[fill - 1], value)) && Stable(after, value, taken, s[fill - 1])
  {
    FlatFrom(s, fill - 1);
    AllEmpty(s[fill..]);
    assert Flat(s) == s[fill - 1];
  }

  lemma {:induction false} AllEmpty<E>(s: seq<seq<E>>)
    requires forall i :: 0 <= i < |s| ==> s[i] == []
    ensures Flat(s) == []
  {
    if s != [] {
      AllEmpty(s[1..]);
    }
  }

  // ----- how many slots are enough -----

  // Sixty-four slots are enough for any list whose size a 64-bit word can hold.
  lemma PowerOfWord()
    ensures Pow2(64) == 0x1_0000_0000_0000_0000
  {
    assert Pow2(4) == 16;
    Pow2Add(4, 4);
    Pow2Add(8, 8);
    Pow2Add(16, 16);
    Pow2Add(32, 32);
  }
}
