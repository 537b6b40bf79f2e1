// Union, intersection and differences of ordered sets, by iterating one set while
// inserting into or erasing from another.
module SetAlgebra {
  import opened Order
  import opened RedBlack
  import opened RedBlackLinks
  import opened OrderedSet

  // What inserting and erasing one key do to membership.

  lemma AfterInsert<K(!new)>(cmp: (K, K) -> int, s: seq<K>, r: seq<K>, k: K)
    requires IsOrder(cmp)
    requires Has(cmp, s, k) ==> r == s
    requires !Has(cmp, s, k) ==> exists i: nat :: i <= |s| && r == InsertAt(s, i, k)
    ensures AddsOne(cmp, s, r, k)
  {
  }

  lemma AfterErase<K(!new)>(cmp: (K, K) -> int, s: seq<K>, r: seq<K>, k: K)
    requires IsOrder(cmp) && Sorted(cmp, s)
    requires !Has(cmp, s, k) ==> r == s
    requires forall i :: 0 <= i < |s| && cmp(k, s[i]) == 0 ==> r == RemoveAt(s, i)
    ensures DropsOne(cmp, s, r, k)
  {
  }

  method Put<K(!new)>(self: Set<K>, key: K)
    requires self.Valid()
    modifies self, self.repr
    ensures self.Valid() && fresh(self.repr - old(self.repr))
    ensures AddsOne(self.compare, old(Keys(self.tree)), Keys(self.tree), key)
  {
    assert IsOrder(self.compare);
    hide Set.Valid, IsOrder, InsertAt, Keys, Spine, Has, AddsOne;
    ghost var t := self.tree;
    var r := self.Insert(key);
    AfterInsert(self.compare, Keys(t), Keys(self.tree), key);
  }

  method Drop<K(!new)>(self: Set<K>, key: K)
    requires self.Valid()
    modifies self, self.repr
    ensures self.Valid() && self.repr <= old(self.repr)
    ensures DropsOne(self.compare, old(Keys(self.tree)), Keys(self.tree), key)
  {
    assert IsOrder(self.compare) && Sorted(self.compare, Keys(self.tree));
    hide Set.Valid, IsOrder, Sorted, RemoveAt, Keys, Has;
    ghost var t := self.tree;
    self.Erase(key);
    AfterErase(self.compare, Keys(t), Keys(self.tree), key);
  }

  // ----- iterating -----

  // The iteration over `a` stands at its m-th node, or is done.
  ghost predicate Cursor<K(!new)>(a: Set<K>, node: Node?<K>, m: nat)
    reads a
  {
    m <= |Keys(a.tree)| == |Spine(a.tree)| && node == if m < |Spine(a.tree)| then Spine(a.tree)[m] else null
  }

  method Each<K(!new)>(a: Set<K>) returns (node: Node?<K>)
    requires a.Valid()
    ensures Cursor(a, node, 0)
  {
    SpineKeysLength(a.tree);
    node := a.First();
  }

  method Step<K(!new)>(a: Set<K>, node: Node<K>, ghost m: nat) returns (next: Node?<K>)
    requires a.Valid() && Cursor(a, node, m)
    ensures m < |Keys(a.tree)| && Cursor(a, next, m + 1)
  {
    next := a.Next(node, m);
  }

  lemma CursorKey<K(!new)>(a: Set<K>, node: Node<K>, m: nat)
    requires a.Valid() && Cursor(a, node, m)
    ensures m < |Keys(a.tree)| && node in a.repr && node.key == Keys(a.tree)[m]
  {
    a.KeyOf(Top, a.tree, m);
  }

  ghost predicate IsUnion<K(!new)>(cmp: (K, K) -> int, s: seq<K>, a: seq<K>, b: seq<K>) {
    && (forall q :: Has(cmp, s, q) <==> Has(cmp, a, q) || Has(cmp, b, q))
    && (forall x :: x in s ==> x in a || x in b)
    && forall x :: x in a ==> x in s
  }

  ghost predicate IsIntersection<K(!new)>(cmp: (K, K) -> int, s: seq<K>, a: seq<K>, b: seq<K>) {
    && (forall q :: Has(cmp, s, q) <==> Has(cmp, a, q) && Has(cmp, b, q))
    && forall x :: x in s ==> x in a
  }

  ghost predicate IsDifference<K(!new)>(cmp: (K, K) -> int, s: seq<K>, a: seq<K>, b: seq<K>) {
    && (forall q :: Has(cmp, s, q) <==> Has(cmp, a, q) && !Has(cmp, b, q))
    && forall x :: x in s ==> x in a
  }

  ghost predicate AddsOne<K(!new)>(cmp: (K, K) -> int, s: seq<K>, r: seq<K>, k: K) {
    && (forall q :: Has(cmp, r, q) <==> Has(cmp, s, q) || cmp(q, k) == 0)
    && (forall x :: x in r ==> x in s || x == k)
    && forall x :: x in s ==> x in r
  }

  ghost predicate DropsOne<K(!new)>(cmp: (K, K) -> int, s: seq<K>, r: seq<K>, k: K) {
    && (forall q :: Has(cmp, r, q) <==> Has(cmp, s, q) && cmp(q, k) != 0)
    && forall x :: x in r ==> x in s
  }

  lemma UnionStep<K(!new)>(cmp: (K, K) -> int, s: seq<K>, r: seq<K>, a: seq<K>, b: seq<K>, m: nat)
    requires m < |b| && IsUnion(cmp, s, a, b[..m]) && AddsOne(cmp, s, r, b[m])
    ensures IsUnion(cmp, r, a, b[..m + 1])
  {
  }

  lemma IntersectionStep<K(!new)>(cmp: (K, K) -> int, s: seq<K>, r: seq<K>, a: seq<K>, b: seq<K>, m: nat)
    requires IsOrder(cmp) && m < |a| && IsIntersection(cmp, s, a[..m], b)
    requires if Has(cmp, b, a[m]) then AddsOne(cmp, s, r, a[m]) else r == s
    ensures IsIntersection(cmp, r, a[..m + 1], b)
  {
  }

  lemma DifferenceStep<K(!new)>(cmp: (K, K) -> int, s: seq<K>, r: seq<K>, a: seq<K>, b: seq<K>, m: nat)
    requires m < |b| && IsDifference(cmp, s, a, b[..m]) && DropsOne(cmp, s, r, b[m])
    ensures IsDifference(cmp, r, a, b[..m + 1])
  {
  }

  lemma NothingYet<K(!new)>(cmp: (K, K) -> int, s: seq<K>, b: seq<K>)
    ensures IsUnion(cmp, s, s, b[..0]) && IsDifference(cmp, s, s, b[..0]) && IsIntersection(cmp, [], b[..0], s)
  {
  }

  // ----- whole-set operations -----

  // Inserts every key of `a`, in order.
  method PutAll<K(!new)>(self: Set<K>, a: Set<K>)
    requires self.Valid() && a.Valid() && self != a && self.repr !! a.repr && self.compare == a.compare
    modifies self, self.repr
    ensures self.Valid() && fresh(self.repr - old(self.repr))
    ensures IsUnion(self.compare, Keys(self.tree), old(Keys(self.tree)), Keys(a.tree))
  {
    hide Set.Valid, Keys, Spine, Has, AddsOne;
    ghost var before, keys := Keys(self.tree), Keys(a.tree);
    ghost var m := 0;
    NothingYet(self.compare, before, keys);
    var node := Each(a);
    while node != null
      invariant self.Valid() && fresh(self.repr - old(self.repr)) && a.Valid() && self.repr !! a.repr
      invariant Cursor(a, node, m) && m <= |keys|
      invariant IsUnion(self.compare, Keys(self.tree), before, keys[..m])
      decreases |keys| - m
    {
      CursorKey(a, node, m);
      ghost var s := Keys(self.tree);
      Put(self, node.key);
      UnionStep(self.compare, s, Keys(self.tree), before, keys, m);
      node := Step(a, node, m);
      m := m + 1;
    }
    assert keys[..m] == keys;
  }

  method DropAll<K(!new)>(self: Set<K>, b: Set<K>)
    requires self.Valid() && b.Valid() && self != b && self.repr !! b.repr && self.compare == b.compare
    modifies self, self.repr
    ensures self.Valid() && self.repr <= old(self.repr)
    ensures IsDifference(self.compare, Keys(self.tree), old(Keys(self.tree)), Keys(b.tree))
  {
    hide Set.Valid, Keys, Spine, Has, DropsOne;
    ghost var before, keys := Keys(self.tree), Keys(b.tree);
    ghost var m := 0;
    NothingYet(self.compare, before, keys);
    var node := Each(b);
    while node != null
      invariant self.Valid() && self.repr <= old(self.repr) && b.Valid()
      invariant Cursor(b, node, m) && m <= |keys|
      invariant IsDifference(self.compare, Keys(self.tree), before, keys[..m])
      decreases |keys| - m
    {
      CursorKey(b, node, m);
      ghost var s := Keys(self.tree);
      Drop(self, node.key);
      DifferenceStep(self.compare, s, Keys(self.tree), before, keys, m);
      node := Step(b, node, m);
      m := m + 1;
    }
    assert keys[..m] == keys;
  }

  method PutIfIn<K(!new)>(self: Set<K>, b: Set<K>, key: K)
    requires self.Valid() && b.Valid() && self != b && self.repr !! b.repr && self.compare == b.compare
    modifies self, self.repr
    ensures self.Valid() && fresh(self.repr - old(self.repr))
    ensures if Has(b.compare, Keys(b.tree), key) then AddsOne(self.compare, old(Keys(self.tree)), Keys(self.tree), key)
            else Keys(self.tree) == old(Keys(self.tree))
  {
    hide Set.Valid, Keys, Spine, Has, AddsOne, WithinTwoLog;
    var found;
    ghost var visited;
    found, visited := b.Find(key);
    if found != null {
      Put(self, key);
    }
  }

  // `self` holds what the first m keys of `a` have in common with `b`.
  ghost predicate CommonSoFar<K(!new)>(self: Set<K>, a: Set<K>, b: Set<K>, node: Node?<K>, m: nat)
    reads self, self.repr, a, a.repr, b, b.repr
  {
    && self.Valid() && a.Valid() && b.Valid() && self != a && self != b
    && self.repr !! a.repr && self.repr !! b.repr && self.compare == a.compare == b.compare
    && Cursor(a, node, m) && IsIntersection(self.compare, Keys(self.tree), Keys(a.tree)[..m], Keys(b.tree))
  }

  lemma ValidOrder<K(!new)>(a: Set<K>)
    requires a.Valid()
    ensures IsOrder(a.compare)
  {
  }

  // One round of the loop over `a` that keeps the keys found in `b`.
  method PutIfCommon<K(!new)>(self: Set<K>, a: Set<K>, b: Set<K>, node: Node<K>, ghost m: nat) returns (next: Node?<K>)
    requires CommonSoFar(self, a, b, node, m)
    modifies self, self.repr
    ensures fresh(self.repr - old(self.repr)) && m < |Keys(a.tree)| && CommonSoFar(self, a, b, next, m + 1)
  {
    hide Set.Valid, IsOrder, Keys, Spine, Has, AddsOne, IsIntersection, WithinTwoLog;
    ValidOrder(self);
    CursorKey(a, node, m);
    ghost var s := Keys(self.tree);
    PutIfIn(self, b, node.key);
    IntersectionStep(self.compare, s, Keys(self.tree), Keys(a.tree), Keys(b.tree), m);
    next := Step(a, node, m);
  }

  method Copy<K(!new)>(a: Set<K>) returns (self: Set<K>)
    requires a.Valid()
    ensures self.Valid() && fresh(self) && fresh(self.repr) && self.compare == a.compare
    ensures Keys(self.tree) == Keys(a.tree)
  {
    hide Set.Valid, Keys, Spine, Has, IsOrder, IsUnion;
    ValidOrder(a);
    self := new Set(a.compare);
    PutAll(self, a);
    ValidSorted(self);
    ValidSorted(a);
    CopiedKeys(a.compare, Keys(self.tree), Keys(a.tree));
  }

  lemma ValidSorted<K(!new)>(s: Set<K>)
    requires s.Valid()
    ensures Sorted(s.compare, Keys(s.tree))
  {
  }

  lemma CopiedKeys<K(!new)>(cmp: (K, K) -> int, s: seq<K>, a: seq<K>)
    requires IsOrder(cmp) && Sorted(cmp, s) && Sorted(cmp, a) && IsUnion(cmp, s, [], a)
    ensures s == a
  {
    forall x | x in a ensures x in s {
      assert cmp(x, x) == 0;
      assert Has(cmp, s, x);
      var y :| y in s && cmp(x, y) == 0;
    }
    SameSorted(cmp, s, a);
  }

  // A sorted sequence is determined by its elements.
  lemma {:induction false} SameSorted<K(!new)>(cmp: (K, K) -> int, s: seq<K>, t: seq<K>)
    requires IsOrder(cmp) && Sorted(cmp, s) && Sorted(cmp, t) && forall x :: x in s <==> x in t
    ensures s == t
  {
    if s == [] || t == [] {
      Empty(s, t);
    } else {
      hide IsOrder, Sorted;
      var m, n := |s| - 1, |t| - 1;
      SameLast(cmp, s, t);
      forall x ensures x in s[..m] <==> x in t[..n] {
        LastOnce(cmp, s, x);
        LastOnce(cmp, t, x);
      }
      SortedPrefix(cmp, s);
      SortedPrefix(cmp, t);
      SameSorted(cmp, s[..m], t[..n]);
      assert s == s[..m] + [s[m]] && t == t[..n] + [t[n]];
    }
  }

  lemma Empty<K>(s: seq<K>, t: seq<K>)
    requires (s == [] || t == []) && forall x :: x in s <==> x in t
    ensures s == t
  {
    SomeElement(s);
    SomeElement(t);
  }

  lemma SomeElement<K>(s: seq<K>)
    ensures s == [] || exists x :: x in s
  {
    if s != [] {
      assert s[0] in s;
    }
  }

  lemma SortedPrefix<K>(cmp: (K, K) -> int, s: seq<K>)
    requires Sorted(cmp, s) && s != []
    ensures Sorted(cmp, s[..|s| - 1])
  {
  }

  lemma SameLast<K(!new)>(cmp: (K, K) -> int, s: seq<K>, t: seq<K>)
    requires IsOrder(cmp) && Sorted(cmp, s) && Sorted(cmp, t) && s != [] && t != [] && forall x :: x in s <==> x in t
    ensures s[|s| - 1] == t[|t| - 1]
  {
    var m, n := |s| - 1, |t| - 1;
    assert s[m] in t && t[n] in s;
    var i :| 0 <= i < |t| && t[i] == s[m];
    var j :| 0 <= j < |s| && s[j] == t[n];
  }

  lemma LastOnce<K(!new)>(cmp: (K, K) -> int, s: seq<K>, x: K)
    requires IsOrder(cmp) && Sorted(cmp, s) && s != []
    ensures x in s[..|s| - 1] <==> x in s && x != s[|s| - 1]
  {
    var m := |s| - 1;
    assert s == s[..m] + [s[m]];
    assert cmp(s[m], s[m]) == 0;
  }

  // The loop over `a` that keeps the keys found in `b`.
  method PutCommon<K(!new)>(self: Set<K>, a: Set<K>, b: Set<K>)
    requires self.Valid() && a.Valid() && b.Valid() && self != a && self != b && self.repr == {}
    requires self.compare == a.compare == b.compare && Keys(self.tree) == []
    modifies self, self.repr
    ensures self.Valid() && fresh(self.repr - old(self.repr))
    ensures IsIntersection(a.compare, Keys(self.tree), Keys(a.tree), Keys(b.tree))
  {
    hide Set.Valid, Keys, Spine, Has, CommonSoFar, IsIntersection;
    ghost var m := 0;
    var node := Each(a);
    CommonStarts(self, a, b, node);
    while node != null
      invariant fresh(self.repr - old(self.repr)) && m <= |Keys(a.tree)| && CommonSoFar(self, a, b, node, m)
      decreases |Keys(a.tree)| - m
    {
      node := PutIfCommon(self, a, b, node, m);
      m := m + 1;
    }
    CommonEnds(self, a, b, m);
  }

  method Intersection<K(!new)>(a: Set<K>, b: Set<K>) returns (self: Set<K>)
    requires a.Valid() && b.Valid() && a.compare == b.compare
    ensures self.Valid() && fresh(self) && fresh(self.repr) && self.compare == a.compare
    ensures IsIntersection(a.compare, Keys(self.tree), Keys(a.tree), Keys(b.tree))
  {
    hide Set.Valid, Keys, Spine, Has, IsIntersection, IsOrder;
    ValidOrder(a);
    self := new Set(a.compare);
    assert a.Valid() && b.Valid();
    PutCommon(self, a, b);
  }

  lemma CommonStarts<K(!new)>(self: Set<K>, a: Set<K>, b: Set<K>, node: Node?<K>)
    requires self.Valid() && a.Valid() && b.Valid() && self != a && self != b && self.repr == {}
    requires self.compare == a.compare == b.compare && Cursor(a, node, 0) && Keys(self.tree) == []
    ensures CommonSoFar(self, a, b, node, 0)
  {
  }

  lemma CommonEnds<K(!new)>(self: Set<K>, a: Set<K>, b: Set<K>, m: nat)
    requires CommonSoFar(self, a, b, null, m)
    ensures self.Valid() && self.compare == a.compare
    ensures IsIntersection(a.compare, Keys(self.tree), Keys(a.tree), Keys(b.tree))
  {
  }

  // Its first loop is that of Copy.
  method Union<K(!new)>(a: Set<K>, b: Set<K>) returns (self: Set<K>)
    requires a.Valid() && b.Valid() && a.compare == b.compare
    ensures self.Valid() && fresh(self) && fresh(self.repr) && self.compare == a.compare
    ensures IsUnion(a.compare, Keys(self.tree), Keys(a.tree), Keys(b.tree))
    ensures forall x :: x in Keys(a.tree) ==> x in Keys(self.tree)
  {
    hide Set.Valid, Keys, Spine, Has;
    self := Copy(a);
    PutAll(self, b);
  }

  method Difference<K(!new)>(a: Set<K>, b: Set<K>) returns (self: Set<K>)
    requires a.Valid() && b.Valid() && a.compare == b.compare
    ensures self.Valid() && fresh(self) && fresh(self.repr) && self.compare == a.compare
    ensures IsDifference(a.compare, Keys(self.tree), Keys(a.tree), Keys(b.tree))
  {
    hide Set.Valid, Keys, Spine, Has;
    self := Copy(a);
    DropAll(self, b);
  }

  // In exactly one of the two sets.
  method SymmetricDifference<K(!new)>(a: Set<K>, b: Set<K>) returns (self: Set<K>)
    requires a.Valid() && b.Valid() && a.compare == b.compare
    ensures self.Valid() && fresh(self) && fresh(self.repr) && self.compare == a.compare
    ensures forall q :: Has(a.compare, Keys(self.tree), q) <==> (Has(a.compare, Keys(a.tree), q) != Has(a.compare, Keys(b.tree), q))
    ensures forall x :: x in Keys(self.tree) ==> x in Keys(a.tree) || x in Keys(b.tree)
  {
    hide Set.Valid, Keys, Spine, Has;
    self := Union(a, b);
    var intersection := Intersection(a, b);
    DropAll(self, intersection);
  }
}
