// Comparison functions and what it means for a sequence to be sorted by one.
module WeakOrder {
  // `after(x, y)` says that x belongs after y: a strict weak order.
  ghost predicate StrictWeak<T(!new)>(after: (T, T) -> bool) {
    && (forall x, y :: after(x, y) ==> !after(y, x))
    && (forall x, y, z :: !after(x, y) && !after(y, z) ==> !after(x, z))
  }

  ghost predicate Sorted<T>(after: (T, T) -> bool, s: seq<T>) {
    forall i, j :: 0 <= i < j < |s| ==> !after(s[i], s[j])
  }

  predicate Same<T>(after: (T, T) -> bool, x: T, y: T) {
    !after(x, y) && !after(y, x)
  }
}
