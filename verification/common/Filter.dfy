// Order-preserving filtering of sequences.
module Filter {
  // What is left of `s` when the matching elements are removed.
  function Kept<E>(s: seq<E>, match_: E -> bool): seq<E> {
    if s == [] then []
    else
      var n := |s| - 1;
      if match_(s[n]) then Kept(s[..n], match_) else Kept(s[..n], match_) + [s[n]]
  }

  // Exactly the elements that do not match, each as often as it was.
  lemma {:induction false} KeptExactly<E>(s: seq<E>, match_: E -> bool, x: E)
    ensures multiset(Kept(s, match_))[x] == if match_(x) then 0 else multiset(s)[x]
  {
    if s != [] {
      var k := |s| - 1;
      KeptExactly(s[..k], match_, x);
      assert s == s[..k] + [s[k]];
    }
  }

  // `kept` consists of the elements of `s` at these places, in order.
  ghost predicate Picks<E>(s: seq<E>, places: seq<nat>, kept: seq<E>) {
    && |places| == |kept|
    && (forall i :: 0 <= i < |places| ==> places[i] < |s| && s[places[i]] == kept[i])
    && (forall i, j :: 0 <= i < j < |places| ==> places[i] < places[j])
  }

  lemma PicksMore<E>(s: seq<E>, x: E, places: seq<nat>, kept: seq<E>)
    requires Picks(s, places, kept)
    ensures Picks(s + [x], places, kept)
    ensures Picks(s + [x], places + [|s|], kept + [x])
  {
  }

  // What is kept stays in the order it had.
  lemma {:induction false} KeptInOrder<E>(s: seq<E>, match_: E -> bool) returns (places: seq<nat>)
    ensures Picks(s, places, Kept(s, match_))
  {
    places := [];
    if s != [] {
      var k := |s| - 1;
      places := KeptInOrder(s[..k], match_);
      hide Picks;
      assert s == s[..k] + [s[k]];
      PicksMore(s[..k], s[k], places, Kept(s[..k], match_));
      if !match_(s[k]) {
        places := places + [k];
      }
    }
  }

  // `now` is `s` with the first k elements filtered.
  ghost predicate Filtering<E>(s: seq<E>, match_: E -> bool, now: seq<E>, k: nat) {
    k <= |s| && now == Kept(s[..k], match_) + s[k..]
  }

  // Where the k-th element of `s` is in `now`.
  ghost function KeptPlace<E>(s: seq<E>, match_: E -> bool, k: nat): nat
    requires k <= |s|
  {
    |Kept(s[..k], match_)|
  }

  lemma StartFilter<E>(s: seq<E>, match_: E -> bool)
    ensures Filtering(s, match_, s, 0) && KeptPlace(s, match_, 0) == 0
  {
  }

  lemma FilterOne<E>(s: seq<E>, match_: E -> bool, now: seq<E>, k: nat)
    requires Filtering(s, match_, now, k) && k < |s|
    ensures var i := KeptPlace(s, match_, k);
      && i < |now| && now[i] == s[k] && (k + 1 < |s| <==> i + 1 < |now|) && (i + 1 < |now| ==> now[i + 1] == s[k + 1])
      && Filtering(s, match_, if match_(s[k]) then now[..i] + now[i + 1..] else now, k + 1)
      && KeptPlace(s, match_, k + 1) == if match_(s[k]) then i else i + 1
  {
    assert s[..k + 1][..k] == s[..k];
    assert s[k..] == [s[k]] + s[k + 1..];
  }

  lemma EndFilter<E>(s: seq<E>, match_: E -> bool, now: seq<E>)
    requires Filtering(s, match_, now, |s|)
    ensures now == Kept(s, match_) && KeptPlace(s, match_, |s|) == |now|
  {
    assert s[..|s|] == s;
  }
}
