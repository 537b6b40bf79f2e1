// What merging and sorting mean for sequences, whatever the elements are.
module MergeOrder {
  import opened Sequences
  import opened WeakOrder

  function Values<E, T>(s: seq<E>, value: E -> T): (v: seq<T>)
    ensures |v| == |s| && forall i :: 0 <= i < |s| ==> v[i] == value(s[i])
  {
    seq(|s|, i requires 0 <= i < |s| => value(s[i]))
  }

  // The elements whose value is equivalent to `x`, in their order.
  function ClassOf<E, T>(after: (T, T) -> bool, value: E -> T, s: seq<E>, x: T): seq<E> {
    if s == [] then []
    else (if Same(after, value(s[0]), x) then [s[0]] else []) + ClassOf(after, value, s[1..], x)
  }

  // A rearrangement that keeps equivalent elements in their order.
  ghost predicate Stable<E, T(!new)>(after: (T, T) -> bool, value: E -> T, s: seq<E>, t: seq<E>) {
    multiset(s) == multiset(t) && forall x: T :: ClassOf(after, value, s, x) == ClassOf(after, value, t, x)
  }

  // `a` has the older elements: they go first unless they belong after.
  function Merged<E, T>(after: (T, T) -> bool, value: E -> T, a: seq<E>, b: seq<E>): seq<E> {
    if a == [] then b
    else if b == [] then a
    else if after(value(a[0]), value(b[0])) then [b[0]] + Merged(after, value, a, b[1..])
    else [a[0]] + Merged(after, value, a[1..], b)
  }

  lemma {:induction false} ClassOfAppend<E, T>(after: (T, T) -> bool, value: E -> T, s: seq<E>, t: seq<E>, x: T)
    ensures ClassOf(after, value, s + t, x) == ClassOf(after, value, s, x) + ClassOf(after, value, t, x)
  {
    if s == [] {
      assert s + t == t;
    } else {
      hide Same;
      var first := if Same(after, value(s[0]), x) then [s[0]] else [];
      assert (s + t)[0] == s[0] && (s + t)[1..] == s[1..] + t;
      ClassOfAppend(after, value, s[1..], t, x);
      Associative(first, ClassOf(after, value, s[1..], x), ClassOf(after, value, t, x));
    }
  }

  lemma {:induction false} NoneOfClass<E, T>(after: (T, T) -> bool, value: E -> T, s: seq<E>, x: T)
    requires forall i :: 0 <= i < |s| ==> !Same(after, value(s[i]), x)
    ensures ClassOf(after, value, s, x) == []
  {
    if s != [] {
      NoneOfClass(after, value, s[1..], x);
    }
  }

  lemma {:induction false} MergedMultiset<E, T>(after: (T, T) -> bool, value: E -> T, a: seq<E>, b: seq<E>)
    ensures multiset(Merged(after, value, a, b)) == multiset(a) + multiset(b)
  {
    if a != [] && b != [] {
      if after(value(a[0]), value(b[0])) {
        MergedMultiset(after, value, a, b[1..]);
        TakenFirst(b, a, Merged(after, value, a, b[1..]));
      } else {
        MergedMultiset(after, value, a[1..], b);
        TakenFirst(a, b, Merged(after, value, a[1..], b));
      }
    }
  }

  lemma TakenFirst<E>(s: seq<E>, other: seq<E>, m: seq<E>)
    requires s != [] && multiset(m) == multiset(s[1..]) + multiset(other)
    ensures multiset([s[0]] + m) == multiset(s) + multiset(other)
  {
    assert s == [s[0]] + s[1..];
  }

  lemma {:induction false} MergedClass<E, T(!new)>(after: (T, T) -> bool, value: E -> T, a: seq<E>, b: seq<E>, x: T)
    requires StrictWeak(after) && Sorted(after, Values(a, value)) && Sorted(after, Values(b, value))
    ensures ClassOf(after, value, Merged(after, value, a, b), x) == ClassOf(after, value, a, x) + ClassOf(after, value, b, x)
  {
    if a != [] && b != [] {
      SortedTail(after, value, a);
      SortedTail(after, value, b);
      var m := Merged(after, value, a, b);
      if after(value(a[0]), value(b[0])) {
        MergedClass(after, value, a, b[1..], x);
        assert m[1..] == Merged(after, value, a, b[1..]);
        if Same(after, value(b[0]), x) {
          NotAmongOlder(after, value, a, b[0], x);
        }
      } else {
        MergedClass(after, value, a[1..], b, x);
        assert m[1..] == Merged(after, value, a[1..], b);
      }
    }
  }

  lemma SortedTail<E, T>(after: (T, T) -> bool, value: E -> T, s: seq<E>)
    requires s != [] && Sorted(after, Values(s, value))
    ensures Sorted(after, Values(s[1..], value))
  {
  }

  // If the newer head goes first, no older element is equivalent to it.
  lemma {:induction false} NotAmongOlder<E, T(!new)>(after: (T, T) -> bool, value: E -> T, a: seq<E>, y: E, x: T)
    requires StrictWeak(after) && a != [] && Sorted(after, Values(a, value))
    requires after(value(a[0]), value(y)) && Same(after, value(y), x)
    ensures ClassOf(after, value, a, x) == []
  {
    var v := Values(a, value);
    if |a| > 1 {
      SortedTail(after, value, a);
      assert !after(v[0], v[1]);
      NotAmongOlder(after, value, a[1..], y, x);
    }
  }

  // Every element of a merge comes from one of the two.
  lemma {:induction false} MergedSorted<E, T(!new)>(after: (T, T) -> bool, value: E -> T, a: seq<E>, b: seq<E>)
    requires StrictWeak(after) && Sorted(after, Values(a, value)) && Sorted(after, Values(b, value))
    ensures Sorted(after, Values(Merged(after, value, a, b), value))
    decreases |a| + |b|
  {
    if a != [] && b != [] {
      SortedTail(after, value, a);
      SortedTail(after, value, b);
      if after(value(a[0]), value(b[0])) {
        MergedSorted(after, value, a, b[1..]);
        MergedMultiset(after, value, a, b[1..]);
        PrependSorted(after, value, b[0], a, b[1..], Merged(after, value, a, b[1..]));
      } else {
        MergedSorted(after, value, a[1..], b);
        MergedMultiset(after, value, a[1..], b);
        PrependSorted(after, value, a[0], a[1..], b, Merged(after, value, a[1..], b));
      }
    }
  }

  lemma PrependSorted<E, T>(after: (T, T) -> bool, value: E -> T, x: E, a: seq<E>, b: seq<E>, m: seq<E>)
    requires Sorted(after, Values(m, value)) && multiset(m) == multiset(a) + multiset(b)
    requires forall i :: 0 <= i < |a| ==> !after(value(x), value(a[i]))
    requires forall i :: 0 <= i < |b| ==> !after(value(x), value(b[i]))
    ensures Sorted(after, Values([x] + m, value))
  {
    var v, w := Values(m, value), Values([x] + m, value);
    forall j | 0 <= j < |m| ensures !after(value(x), v[j]) {
      assert m[j] in multiset(m);
      assert m[j] in a || m[j] in b;
    }
    forall i, j | 0 <= i < j < |w| ensures !after(w[i], w[j]) {
      assert w[j] == v[j - 1];
      assert 0 < i ==> w[i] == v[i - 1];
    }
  }

  lemma StableTransitive<E, T(!new)>(after: (T, T) -> bool, value: E -> T, s: seq<E>, t: seq<E>, u: seq<E>)
    requires Stable(after, value, s, t) && Stable(after, value, t, u)
    ensures Stable(after, value, s, u)
  {
  }

  lemma StableWithin<E, T(!new)>(after: (T, T) -> bool, value: E -> T, p: seq<E>, s: seq<E>, t: seq<E>, q: seq<E>)
    requires Stable(after, value, s, t)
    ensures Stable(after, value, p + s + q, p + t + q)
  {
    forall x: T ensures ClassOf(after, value, p + s + q, x) == ClassOf(after, value, p + t + q, x) {
      assert ClassOf(after, value, s, x) == ClassOf(after, value, t, x);
      ClassOfAppend(after, value, p + s, q, x);
      ClassOfAppend(after, value, p, s, x);
      ClassOfAppend(after, value, p + t, q, x);
      ClassOfAppend(after, value, p, t, x);
    }
  }

  lemma MergedStable<E, T(!new)>(after: (T, T) -> bool, value: E -> T, a: seq<E>, b: seq<E>)
    requires StrictWeak(after) && Sorted(after, Values(a, value)) && Sorted(after, Values(b, value))
    ensures Stable(after, value, a + b, Merged(after, value, a, b))
  {
    MergedMultiset(after, value, a, b);
    forall x: T ensures ClassOf(after, value, a + b, x) == ClassOf(after, value, Merged(after, value, a, b), x) {
      ClassOfAppend(after, value, a, b, x);
      MergedClass(after, value, a, b, x);
    }
  }
}
