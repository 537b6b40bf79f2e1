// Cells, paths between them, and the sets of cells that form a perfect maze.
module MazePaths {
  import opened Sequences

  datatype Cell = Cell(r: int, c: int)

  function Abs(x: int): nat {
    if x < 0 then -x else x
  }

  predicate Adjacent(a: Cell, b: Cell) {
    Abs(a.r - b.r) + Abs(a.c - b.c) == 1
  }

  ghost predicate Walk(p: seq<Cell>) {
    |p| > 0 && forall i :: 0 < i < |p| ==> Adjacent(p[i - 1], p[i])
  }

  ghost predicate Within(p: seq<Cell>, v: set<Cell>) {
    forall i :: 0 <= i < |p| ==> p[i] in v
  }

  ghost predicate Simple(p: seq<Cell>) {
    forall i, j :: 0 <= i < j < |p| ==> p[i] != p[j]
  }

  // A simple path inside `v` from `a` to `b`.
  ghost predicate Connects(v: set<Cell>, p: seq<Cell>, a: Cell, b: Cell) {
    Walk(p) && Within(p, v) && Simple(p) && p[0] == a && p[|p| - 1] == b
  }

  ghost predicate Connected(v: set<Cell>) {
    forall a, b :: a in v && b in v ==> exists p :: Connects(v, p, a, b)
  }

  // At most one simple path between any two cells: no cycles.
  ghost predicate Acyclic(v: set<Cell>) {
    forall a, b, p, q :: Connects(v, p, a, b) && Connects(v, q, a, b) ==> p == q
  }

  ghost predicate Perfect(v: set<Cell>) {
    Connected(v) && Acyclic(v)
  }

  // `x` touches `v` in the single cell `y`.
  ghost predicate LeafAt(v: set<Cell>, x: Cell, y: Cell) {
    x !in v && y in v && Adjacent(x, y) && forall z :: z in v && Adjacent(x, z) ==> z == y
  }

  lemma OneCell(x: Cell, p: seq<Cell>)
    requires Within(p, {x}) && |p| > 1
    ensures !Simple(p)
  {
    assert p[0] == x == p[1];
  }

  lemma SingletonPerfect(x: Cell)
    ensures Perfect({x})
  {
    assert Connects({x}, [x], x, x);
    forall a, b, p, q | Connects({x}, p, a, b) && Connects({x}, q, a, b) ensures p == q {
      if |p| > 1 { OneCell(x, p); }
      if |q| > 1 { OneCell(x, q); }
    }
  }

  // A simple path can only begin or end at a leaf.
  lemma LeafOnlyAtEnds(v: set<Cell>, x: Cell, y: Cell, p: seq<Cell>, i: nat)
    requires LeafAt(v, x, y) && Walk(p) && Within(p, v + {x}) && Simple(p)
    requires i < |p| && p[i] == x
    ensures i == 0 || i == |p| - 1
    ensures |p| > 1 ==> p[if i == 0 then 1 else i - 1] == y
  {
    if 0 < i {
      assert p[i - 1] in v;
      assert Adjacent(x, p[i - 1]);
    }
    if i < |p| - 1 {
      assert p[i + 1] in v;
      assert Adjacent(p[i + 1 - 1], p[i + 1]);
    }
  }

  lemma LeafConnected(v: set<Cell>, x: Cell, y: Cell)
    requires Connected(v) && LeafAt(v, x, y)
    ensures Connected(v + {x})
  {
    hide Connects;
    var w := v + {x};
    forall a, b | a in w && b in w ensures exists p :: Connects(w, p, a, b) {
      if a == x && b == x {
        JustThere(w, x);
      } else if a == x {
        var p :| Connects(v, p, y, b);
        FromLeaf(v, x, y, b, p);
      } else if b == x {
        var p :| Connects(v, p, a, y);
        ToLeaf(v, x, y, a, p);
      } else {
        var p :| Connects(v, p, a, b);
        Wider(v, x, a, b, p);
      }
    }
  }

  lemma JustThere(v: set<Cell>, x: Cell)
    requires x in v
    ensures Connects(v, [x], x, x)
  {
  }

  lemma FromLeaf(v: set<Cell>, x: Cell, y: Cell, b: Cell, p: seq<Cell>)
    requires LeafAt(v, x, y) && Connects(v, p, y, b)
    ensures Connects(v + {x}, [x] + p, x, b)
  {
  }

  lemma ToLeaf(v: set<Cell>, x: Cell, y: Cell, a: Cell, p: seq<Cell>)
    requires LeafAt(v, x, y) && Connects(v, p, a, y)
    ensures Connects(v + {x}, p + [x], a, x)
  {
    var q := p + [x];
    assert Adjacent(q[|p| - 1], q[|p|]);
  }

  lemma Wider(v: set<Cell>, x: Cell, a: Cell, b: Cell, p: seq<Cell>)
    requires Connects(v, p, a, b)
    ensures Connects(v + {x}, p, a, b)
  {
  }

  // A path between other cells avoids the leaf.
  lemma AvoidsLeaf(v: set<Cell>, x: Cell, y: Cell, a: Cell, b: Cell, p: seq<Cell>)
    requires LeafAt(v, x, y) && Connects(v + {x}, p, a, b) && a != x && b != x
    ensures Connects(v, p, a, b)
  {
    forall i | 0 <= i < |p| ensures p[i] in v {
      if p[i] == x {
        LeafOnlyAtEnds(v, x, y, p, i);
      }
    }
  }

  // A path from the leaf steps to its one neighbour first.
  lemma AfterLeaf(v: set<Cell>, x: Cell, y: Cell, b: Cell, p: seq<Cell>)
    requires LeafAt(v, x, y) && Connects(v + {x}, p, x, b) && b != x
    ensures |p| > 1 && Connects(v, p[1..], y, b)
  {
  }

  // And a path to the leaf comes from there.
  lemma BeforeLeaf(v: set<Cell>, x: Cell, y: Cell, a: Cell, p: seq<Cell>)
    requires LeafAt(v, x, y) && Connects(v + {x}, p, a, x) && a != x
    ensures |p| > 1 && Connects(v, p[..|p| - 1], a, y)
  {
  }

  lemma OnlyLeaf(x: Cell, p: seq<Cell>)
    requires Simple(p) && |p| > 0 && p[0] == x && p[|p| - 1] == x
    ensures p == [x]
  {
  }

  lemma LeafAcyclic(v: set<Cell>, x: Cell, y: Cell)
    requires Acyclic(v) && LeafAt(v, x, y)
    ensures Acyclic(v + {x})
  {
    var w := v + {x};
    forall a, b, p, q | Connects(w, p, a, b) && Connects(w, q, a, b) ensures p == q {
      if a == x && b == x {
        OnlyLeaf(x, p);
        OnlyLeaf(x, q);
      } else if a == x {
        AfterLeaf(v, x, y, b, p);
        AfterLeaf(v, x, y, b, q);
        assert p == [x] + p[1..] && q == [x] + q[1..];
      } else if b == x {
        BeforeLeaf(v, x, y, a, p);
        BeforeLeaf(v, x, y, a, q);
        assert p == p[..|p| - 1] + [x] && q == q[..|q| - 1] + [x];
      } else {
        AvoidsLeaf(v, x, y, a, b, p);
        AvoidsLeaf(v, x, y, a, b, q);
      }
    }
  }

  // Hanging a leaf on a perfect maze keeps it perfect.
  lemma LeafPerfect(v: set<Cell>, x: Cell, y: Cell)
    requires Perfect(v) && LeafAt(v, x, y)
    ensures Perfect(v + {x})
  {
    LeafConnected(v, x, y);
    LeafAcyclic(v, x, y);
  }

  // An open cell without open neighbours cannot be reached.
  lemma IsolatedDisconnects(v: set<Cell>, x: Cell, a: Cell)
    requires x in v && a in v && a != x && forall z :: z in v ==> !Adjacent(z, x)
    ensures !Connected(v) && forall p :: !Connects(v, p, a, x)
  {
    forall p ensures !Connects(v, p, a, x) {
      if |p| > 1 {
        assert Walk(p) ==> Adjacent(p[|p| - 2], p[|p| - 1]);
      }
    }
  }

  // ----- searching -----

  // The i-th neighbour, in the order both searches try them: up, down, left, right.
  function Neighbour(a: Cell, d: int): Cell
    requires 0 <= d < 4
  {
    Cell(a.r + DR1[d], a.c + DC1[d])
  }

  const DR1 := [-1, 1, 0, 0]
  const DC1 := [0, 0, -1, 1]

  lemma NeighbourAdjacent(a: Cell, d: int)
    requires 0 <= d < 4
    ensures Adjacent(a, Neighbour(a, d)) && Adjacent(Neighbour(a, d), a)
  {
  }

  lemma AdjacentNeighbour(a: Cell, b: Cell) returns (d: int)
    requires Adjacent(a, b)
    ensures 0 <= d < 4 && b == Neighbour(a, d)
  {
    d := if b.r < a.r then 0 else if b.r > a.r then 1 else if b.c < a.c then 2 else 3;
  }

  // Every open neighbour of a cell of `done` is in `v`.
  ghost predicate ClosedIn(open: set<Cell>, done: set<Cell>, v: set<Cell>) {
    forall x, y :: x in done && y in open && Adjacent(x, y) ==> y in v
  }

  // A set closed under open neighbours holds every walk that starts in it.
  lemma {:induction false} ClosedHoldsWalks(open: set<Cell>, v: set<Cell>, p: seq<Cell>, i: nat)
    requires ClosedIn(open, v, v) && Walk(p) && Within(p[1..], open) && p[0] in v && i < |p|
    ensures p[i] in v
  {
    if i > 0 {
      ClosedHoldsWalks(open, v, p, i - 1);
      assert p[1..][i - 1] == p[i];
      assert Adjacent(p[i - 1], p[i]);
    }
  }

  lemma ReversedConnects(v: set<Cell>, p: seq<Cell>, a: Cell, b: Cell)
    requires Connects(v, p, a, b)
    ensures Connects(v, Reversed(p), b, a)
  {
  }

  // A walk whose steps after the first cell all stay open. The first cell may be closed.
  ghost predicate Leads(open: set<Cell>, p: seq<Cell>, a: Cell, b: Cell) {
    Walk(p) && Within(p[1..], open) && p[0] == a && p[|p| - 1] == b
  }

  ghost predicate Solvable(open: set<Cell>, a: Cell, b: Cell) {
    exists p :: Leads(open, p, a, b)
  }

  lemma SolvableStep(open: set<Cell>, a: Cell, x: Cell, y: Cell)
    requires Solvable(open, a, x) && y in open && Adjacent(x, y)
    ensures Solvable(open, a, y)
  {
    var p :| Leads(open, p, a, x);
    var q := p + [y];
    assert q[1..] == p[1..] + [y];
    assert q[|p|] == y && q[|p| - 1] == x;
    assert Leads(open, q, a, y);
  }

  lemma ConnectsSolves(v: set<Cell>, p: seq<Cell>, a: Cell, b: Cell)
    requires Connects(v, p, a, b)
    ensures Solvable(v, a, b)
  {
    assert Leads(v, p, a, b);
  }

  lemma ClosedUnsolvable(open: set<Cell>, v: set<Cell>, a: Cell, b: Cell)
    requires ClosedIn(open, v, v) && a in v && b !in v
    ensures !Solvable(open, a, b)
  {
    forall p | Leads(open, p, a, b) ensures false {
      ClosedHoldsWalks(open, v, p, |p| - 1);
    }
  }
}
