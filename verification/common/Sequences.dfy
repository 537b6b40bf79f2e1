// Facts about sequences that several parts share.
module Sequences {
  // The elements from last to first.
  ghost function Reversed<X>(s: seq<X>): seq<X> {
    seq(|s|, i requires 0 <= i < |s| => s[|s| - 1 - i])
  }

  lemma Associative<X>(a: seq<X>, b: seq<X>, c: seq<X>)
    ensures a + (b + c) == (a + b) + c
  {
  }
}
