// The pages of the double-ended queue as values: a window of 512-cell pages read as one
// sequence.
module DequePages {
  const BUCKET_SIZE: nat := 512

  // A page's cells, of which those from a to b - 1 hold elements.
  datatype Buf<T> = Buf(cells: seq<T>, a: nat, b: nat)

  // A page, and what its place among the others asks of it.
  ghost predicate Proper<T>(p: Buf<T>, first: bool, last: bool) {
    |p.cells| == BUCKET_SIZE && p.a <= p.b <= BUCKET_SIZE && (!first ==> p.a == 0) && (!last ==> p.b == BUCKET_SIZE)
  }

  // Inner pages are full, the first one ends full and the last one begins at 0 if there are
  // several.
  ghost predicate Laid<T>(s: seq<Buf<T>>) {
    forall i :: 0 <= i < |s| ==> Proper(s[i], i == 0, i == |s| - 1)
  }

  // And no page is empty.
  ghost predicate Packed<T>(s: seq<Buf<T>>) {
    Laid(s) && forall i :: 0 <= i < |s| ==> s[i].a < s[i].b
  }

  // The number of elements.
  ghost function Count<T>(s: seq<Buf<T>>): (n: nat)
    requires Laid(s)
    ensures s != [] ==> s[0].a + n <= BUCKET_SIZE * |s|
  {
    if s == [] then 0
    else
      assert Proper(s[0], true, |s| == 1) && Proper(s[|s| - 1], |s| == 1, true);
      BUCKET_SIZE * (|s| - 1) + s[|s| - 1].b - s[0].a
  }

  ghost function Cells<T>(s: seq<Buf<T>>): seq<T> {
    if s == [] then [] else s[0].cells + Cells(s[1..])
  }

  ghost predicate Sized<T>(s: seq<Buf<T>>) {
    forall i :: 0 <= i < |s| ==> |s[i].cells| == BUCKET_SIZE
  }

  lemma {:induction false} CellsLength<T>(s: seq<Buf<T>>)
    requires Sized(s)
    ensures |Cells(s)| == BUCKET_SIZE * |s|
  {
    if s != [] {
      CellsLength(s[1..]);
    }
  }

  // The elements, in order.
  ghost function Listed<T>(s: seq<Buf<T>>): (l: seq<T>)
    requires Laid(s)
    ensures |l| == Count(s)
  {
    if s == [] then [] else CellsLength(s); Cells(s)[s[0].a..s[0].a + Count(s)]
  }

  lemma {:induction false} CellAt<T>(s: seq<Buf<T>>, q: nat, r: nat)
    requires Sized(s) && q < |s| && r < BUCKET_SIZE
    ensures |Cells(s)| == BUCKET_SIZE * |s| && Cells(s)[BUCKET_SIZE * q + r] == s[q].cells[r]
  {
    CellsLength(s);
    if q > 0 {
      CellAt(s[1..], q - 1, r);
    }
  }

  function Written<T>(p: Buf<T>, r: nat, x: T): Buf<T>
    requires r < |p.cells|
  {
    p.(cells := p.cells[r := x])
  }

  lemma {:induction false} CellPut<T>(s: seq<Buf<T>>, q: nat, p: Buf<T>, r: nat, x: T)
    requires Sized(s) && q < |s| && r < BUCKET_SIZE && p.cells == s[q].cells[r := x]
    ensures |Cells(s)| == BUCKET_SIZE * |s| && Cells(s[q := p]) == Cells(s)[BUCKET_SIZE * q + r := x]
  {
    CellsLength(s);
    var t := s[q := p];
    if q > 0 {
      CellPut(s[1..], q - 1, p, r, x);
      assert t[1..] == s[1..][q - 1 := p];
    } else {
      assert t[1..] == s[1..];
    }
  }

  lemma {:induction false} CellsAppend<T>(s: seq<Buf<T>>, p: Buf<T>)
    ensures Cells(s + [p]) == Cells(s) + p.cells
  {
    if s == [] {
      assert [p][1..] == [];
      assert Cells([p]) == p.cells + Cells([p][1..]);
      assert s + [p] == [p];
    } else {
      assert (s + [p])[1..] == s[1..] + [p];
      CellsAppend(s[1..], p);
    }
  }

  lemma {:induction false} SameCells<T>(s: seq<Buf<T>>, q: nat, p: Buf<T>)
    requires q < |s| && p.cells == s[q].cells
    ensures Cells(s[q := p]) == Cells(s)
  {
    if q > 0 {
      SameCells(s[1..], q - 1, p);
      assert s[q := p][1..] == s[1..][q - 1 := p];
    } else {
      assert s[q := p][1..] == s[1..];
    }
  }

  lemma PackedFacts<T>(s: seq<Buf<T>>)
    requires Packed(s)
    ensures Laid(s) && Sized(s) && (Count(s) == 0 <==> s == [])
    ensures s != [] ==> s[0].a < BUCKET_SIZE && 0 < s[|s| - 1].b <= BUCKET_SIZE
  {
  }

  // The elements are one stretch of the cells.
  lemma Stretch<T>(s: seq<Buf<T>>)
    requires Laid(s) && s != []
    ensures Sized(s) && |Cells(s)| == BUCKET_SIZE * |s|
    ensures s[0].a <= BUCKET_SIZE * (|s| - 1) + s[|s| - 1].b == s[0].a + Count(s) <= |Cells(s)|
    ensures Listed(s) == Cells(s)[s[0].a..s[0].a + Count(s)]
  {
  }

  // ----- stretches -----

  lemma PutInside<T>(c: seq<T>, a: nat, n: nat, p: nat, x: T)
    requires a <= p < a + n <= |c|
    ensures c[p := x][a..a + n] == c[a..a + n][p - a := x]
  {
  }

  lemma PutBefore<T>(c: seq<T>, a: nat, n: nat, x: T)
    requires 0 < a && a + n <= |c|
    ensures c[a - 1 := x][a - 1..a + n] == [x] + c[a..a + n]
  {
  }

  lemma PutBehind<T>(c: seq<T>, a: nat, n: nat, x: T)
    requires a + n < |c|
    ensures c[a + n := x][a..a + n + 1] == c[a..a + n] + [x]
  {
  }

  lemma Trim<T>(c: seq<T>, a: nat, n: nat)
    requires a + n <= |c| && n > 0
    ensures c[a + 1..a + n] == c[a..a + n][1..] && c[a..a + n - 1] == c[a..a + n][..n - 1]
  {
  }

  lemma DropPrefix<T>(c: seq<T>, d: seq<T>, a: nat, b: nat)
    requires a <= b <= |d|
    ensures (c + d)[|c| + a..|c| + b] == d[a..b]
  {
  }

  lemma DropSuffix<T>(c: seq<T>, d: seq<T>, a: nat, b: nat)
    requires a <= b <= |c|
    ensures (c + d)[a..b] == c[a..b]
  {
  }

  // ----- reading and writing -----

  // The page of a position, counted from the first page in use, and the cell in that page.
  function PageOf(p: nat): nat {
    p / BUCKET_SIZE
  }

  function CellOf(p: nat): nat {
    p % BUCKET_SIZE
  }

  lemma Divided(p: nat)
    ensures p == BUCKET_SIZE * PageOf(p) + CellOf(p) && CellOf(p) < BUCKET_SIZE
  {
  }

  lemma SomePage<T>(s: seq<Buf<T>>)
    requires Laid(s) && Count(s) > 0
    ensures s != []
  {
  }

  // Where the index-th element is.
  lemma ListedAt<T>(s: seq<Buf<T>>, index: nat)
    requires Laid(s) && index < Count(s)
    ensures s != []
    ensures var q, r := PageOf(index + s[0].a), CellOf(index + s[0].a);
      q < |s| && r < |s[q].cells| && Listed(s)[index] == s[q].cells[r]
  {
    hide Laid, Count, Cells, Listed, PageOf, CellOf;
    SomePage(s);
    Stretch(s);
    var p := index + s[0].a;
    Divided(p);
    InRange(PageOf(p), CellOf(p), |s|);
    CellAt(s, PageOf(p), CellOf(p));
  }

  // Writing a cell of the stretch.
  lemma PutAt<T>(s: seq<Buf<T>>, index: nat, q: nat, r: nat, x: T)
    requires Packed(s) && s != [] && index < Count(s)
    requires r < BUCKET_SIZE && BUCKET_SIZE * q + r == index + s[0].a
    ensures q < |s| && r < |s[q].cells|
    ensures var t := s[q := Written(s[q], r, x)];
      Packed(t) && Count(t) == Count(s) && Listed(t) == Listed(s)[index := x]
  {
    hide Packed, Laid, Count, Cells, Listed;
    PackedFacts(s);
    Stretch(s);
    InRange(q, r, |s|);
    var w := Written(s[q], r, x);
    var c, p := Cells(s), index + s[0].a;
    SameShape(s, q, w);
    CellPut(s, q, w, r, x);
    assert Cells(s[q := w]) == c[p := x];
    Stretch(s[q := w]);
    PutInside(c, s[0].a, Count(s), p, x);
  }

  lemma InRange(q: nat, r: nat, n: nat)
    requires BUCKET_SIZE * q + r < BUCKET_SIZE * n
    ensures q < n
  {
  }

  lemma ListedPut<T>(s: seq<Buf<T>>, index: nat, x: T)
    requires Packed(s) && index < Count(s)
    ensures s != []
    ensures PageOf(index + s[0].a) < |s| && CellOf(index + s[0].a) < |s[PageOf(index + s[0].a)].cells|
    ensures var q, r := PageOf(index + s[0].a), CellOf(index + s[0].a);
      var t := s[q := Written(s[q], r, x)];
      Packed(t) && Count(t) == Count(s) && Listed(t) == Listed(s)[index := x]
  {
    hide Packed, Laid, Count, Cells, Listed, Written, PageOf, CellOf;
    PackedFacts(s);
    var p := index + s[0].a;
    Divided(p);
    PutAt(s, index, PageOf(p), CellOf(p), x);
  }

  lemma SameShape<T>(s: seq<Buf<T>>, q: nat, p: Buf<T>)
    requires Packed(s) && q < |s| && p.a == s[q].a && p.b == s[q].b && |p.cells| == BUCKET_SIZE
    ensures Packed(s[q := p]) && Laid(s[q := p]) && Count(s[q := p]) == Count(s)
  {
  }

  // ----- the front -----

  // Room for at least one more element at the front.
  ghost predicate RoomFront<T>(s: seq<Buf<T>>) {
    Laid(s) && s != [] && s[0].a > 0 && forall i :: 0 < i < |s| ==> s[i].a < s[i].b
  }

  lemma RoomFrontFacts<T>(s: seq<Buf<T>>)
    requires RoomFront(s)
    ensures Laid(s) && s != [] && 0 < s[0].a <= BUCKET_SIZE && Proper(s[0], true, |s| == 1)
  {
  }

  lemma HasRoomFront<T>(s: seq<Buf<T>>)
    requires Packed(s) && s != []
    ensures s[0].a > 0 ==> RoomFront(s)
  {
  }

  lemma FirstIsRoom<T>(c: seq<T>)
    requires |c| == BUCKET_SIZE
    ensures RoomFront([Buf(c, BUCKET_SIZE, BUCKET_SIZE)]) && Listed([Buf(c, BUCKET_SIZE, BUCKET_SIZE)]) == []
    ensures RoomBack([Buf(c, 0, 0)]) && Listed([Buf(c, 0, 0)]) == []
    ensures Listed<T>([]) == []
  {
  }

  lemma NewFrontShape<T>(s: seq<Buf<T>>, p: Buf<T>)
    requires Packed(s) && s != [] && s[0].a == 0 && |p.cells| == p.a == p.b == BUCKET_SIZE
    ensures RoomFront([p] + s) && Laid([p] + s) && Count([p] + s) == Count(s)
  {
  }

  lemma NewFront<T>(s: seq<Buf<T>>, c: seq<T>)
    requires Packed(s) && |c| == BUCKET_SIZE && s != [] && s[0].a == 0
    ensures RoomFront([Buf(c, BUCKET_SIZE, BUCKET_SIZE)] + s)
    ensures Listed([Buf(c, BUCKET_SIZE, BUCKET_SIZE)] + s) == Listed(s)
  {
    hide Packed, Laid, Count, Cells, Listed, RoomFront;
    var p := Buf(c, BUCKET_SIZE, BUCKET_SIZE);
    var t := [p] + s;
    PackedFacts(s);
    NewFrontShape(s, p);
    CellsStep(t);
    assert t[1..] == s;
    Stretch(s);
    Stretch(t);
    DropPrefix(c, Cells(s), 0, Count(s));
  }

  lemma FrontShape<T>(s: seq<Buf<T>>, p: Buf<T>)
    requires RoomFront(s) && |p.cells| == BUCKET_SIZE && p.a == s[0].a - 1 && p.b == s[0].b
    ensures Packed(s[0 := p]) && Laid(s[0 := p]) && Count(s[0 := p]) == Count(s) + 1
  {
  }

  lemma StoreFront<T>(s: seq<Buf<T>>, x: T)
    requires RoomFront(s)
    ensures Proper(s[0], true, |s| == 1)
    ensures var p := s[0];
      var t := s[0 := Buf(p.cells[p.a - 1 := x], p.a - 1, p.b)];
      Packed(t) && Count(t) == Count(s) + 1 && Listed(t) == [x] + Listed(s)
  {
    hide Packed, Laid, Count, Cells, Listed, RoomFront;
    RoomFrontFacts(s);
    Stretch(s);
    var p := s[0];
    var p' := Buf(p.cells[p.a - 1 := x], p.a - 1, p.b);
    FrontShape(s, p');
    CellPut(s, 0, p', p.a - 1, x);
    Stretch(s[0 := p']);
    PutBefore(Cells(s), p.a, Count(s), x);
  }

  // The first element gone, and its page too if it was the page's only one.
  ghost function WithoutFirst<T>(s: seq<Buf<T>>): seq<Buf<T>>
    requires s != []
  {
    var p := s[0].(a := s[0].a + 1);
    if p.a == p.b then s[1..] else s[0 := p]
  }

  lemma DropFrontShape<T>(s: seq<Buf<T>>)
    requires Packed(s) && s != []
    ensures Packed(WithoutFirst(s)) && Laid(WithoutFirst(s)) && Count(WithoutFirst(s)) == Count(s) - 1
    ensures s[0].a + 1 == s[0].b && |s| > 1 ==> s[0].a + 1 == BUCKET_SIZE && s[1].a == 0
  {
  }

  lemma DropFront<T>(s: seq<Buf<T>>)
    requires Packed(s) && s != []
    ensures Packed(WithoutFirst(s)) && Count(WithoutFirst(s)) == Count(s) - 1
    ensures Listed(WithoutFirst(s)) == Listed(s)[1..]
  {
    hide Packed, Laid, Count, Cells, Listed;
    var t := WithoutFirst(s);
    DropFrontShape(s);
    PackedFacts(s);
    if s[0].a + 1 == s[0].b {
      DropFirstPage(s);
    } else {
      SameCells(s, 0, t[0]);
      Stretch(s);
      Stretch(t);
      Trim(Cells(s), s[0].a, Count(s));
    }
  }

  lemma DropFirstPage<T>(s: seq<Buf<T>>)
    requires Packed(s) && s != [] && s[0].a + 1 == s[0].b
    ensures Laid(s[1..]) && Listed(s[1..]) == Listed(s)[1..]
  {
    hide Packed, Laid, Count, Cells, Listed;
    DropFrontShape(s);
    PackedFacts(s);
    CellsStep(s);
    var t := s[1..];
    Stretch(s);
    Trim(Cells(s), s[0].a, Count(s));
    if t == [] {
      NothingListed<T>();
    } else {
      Stretch(t);
      DropPrefix(s[0].cells, Cells(t), 0, Count(t));
    }
  }

  lemma CellsStep<T>(s: seq<Buf<T>>)
    requires s != []
    ensures Cells(s) == s[0].cells + Cells(s[1..])
  {
  }

  lemma NothingListed<T>()
    ensures Listed<T>([]) == []
  {
  }

  // ----- the back -----

  ghost predicate RoomBack<T>(s: seq<Buf<T>>) {
    Laid(s) && s != [] && s[|s| - 1].b < BUCKET_SIZE && forall i :: 0 <= i < |s| - 1 ==> s[i].a < s[i].b
  }

  lemma RoomBackFacts<T>(s: seq<Buf<T>>)
    requires RoomBack(s)
    ensures Laid(s) && s != [] && s[|s| - 1].b < BUCKET_SIZE && Proper(s[|s| - 1], |s| == 1, true)
  {
  }

  lemma HasRoomBack<T>(s: seq<Buf<T>>)
    requires Packed(s) && s != []
    ensures s[|s| - 1].b != BUCKET_SIZE ==> RoomBack(s)
  {
  }

  lemma NewBackShape<T>(s: seq<Buf<T>>, p: Buf<T>)
    requires Packed(s) && s != [] && s[|s| - 1].b == BUCKET_SIZE && |p.cells| == BUCKET_SIZE && p.a == p.b == 0
    ensures RoomBack(s + [p]) && Laid(s + [p]) && Count(s + [p]) == Count(s)
  {
  }

  lemma NewBack<T>(s: seq<Buf<T>>, c: seq<T>)
    requires Packed(s) && |c| == BUCKET_SIZE && s != [] && s[|s| - 1].b == BUCKET_SIZE
    ensures RoomBack(s + [Buf(c, 0, 0)])
    ensures Listed(s + [Buf(c, 0, 0)]) == Listed(s)
  {
    hide Packed, Laid, Count, Cells, Listed, RoomBack;
    PackedFacts(s);
    NewBackShape(s, Buf(c, 0, 0));
    CellsAppend(s, Buf(c, 0, 0));
    Stretch(s);
    Stretch(s + [Buf(c, 0, 0)]);
    DropSuffix(Cells(s), c, s[0].a, s[0].a + Count(s));
  }

  lemma BackShape<T>(s: seq<Buf<T>>, p: Buf<T>)
    requires RoomBack(s) && |p.cells| == BUCKET_SIZE && p.a == s[|s| - 1].a && p.b == s[|s| - 1].b + 1
    ensures Packed(s[|s| - 1 := p]) && Laid(s[|s| - 1 := p]) && Count(s[|s| - 1 := p]) == Count(s) + 1
  {
  }

  lemma StoreBack<T>(s: seq<Buf<T>>, x: T)
    requires RoomBack(s)
    ensures Proper(s[|s| - 1], |s| == 1, true)
    ensures var n := |s| - 1;
      var t := s[n := Buf(s[n].cells[s[n].b := x], s[n].a, s[n].b + 1)];
      Packed(t) && Count(t) == Count(s) + 1 && Listed(t) == Listed(s) + [x]
  {
    hide Packed, Laid, Count, Cells, Listed, RoomBack;
    RoomBackFacts(s);
    Stretch(s);
    var n := |s| - 1;
    var p := s[n];
    var p' := Buf(p.cells[p.b := x], p.a, p.b + 1);
    CellPut(s, n, p', p.b, x);
    BackShape(s, p');
    Stretch(s[n := p']);
    PutBehind(Cells(s), s[0].a, Count(s), x);
  }

  ghost function WithoutLast<T>(s: seq<Buf<T>>): seq<Buf<T>>
    requires s != [] && s[|s| - 1].b > 0
  {
    var n := |s| - 1;
    var p := s[n].(b := s[n].b - 1);
    if p.a == p.b then s[..n] else s[n := p]
  }

  lemma DropBackShape<T>(s: seq<Buf<T>>)
    requires Packed(s) && s != []
    ensures s[|s| - 1].b > 0 && Packed(WithoutLast(s)) && Laid(WithoutLast(s)) && Count(WithoutLast(s)) == Count(s) - 1
    ensures |s| > 1 ==> s[|s| - 1].a == 0 && s[|s| - 2].b == BUCKET_SIZE
  {
  }

  lemma DropBack<T>(s: seq<Buf<T>>)
    requires Packed(s) && s != []
    ensures s[|s| - 1].b > 0 && Packed(WithoutLast(s)) && Count(WithoutLast(s)) == Count(s) - 1
    ensures Listed(WithoutLast(s)) == Listed(s)[..Count(s) - 1]
  {
    hide Packed, Laid, Count, Cells, Listed;
    DropBackShape(s);
    PackedFacts(s);
    Stretch(s);
    Trim(Cells(s), s[0].a, Count(s));
    var n, t := |s| - 1, WithoutLast(s);
    if s[n].a == s[n].b - 1 {
      assert s == t + [s[n]];
      CellsAppend(t, s[n]);
      if t == [] {
        NothingListed<T>();
      } else {
        Stretch(t);
        DropSuffix(Cells(t), s[n].cells, s[0].a, s[0].a + Count(t));
      }
    } else {
      SameCells(s, n, t[n]);
      Stretch(t);
    }
  }
}
