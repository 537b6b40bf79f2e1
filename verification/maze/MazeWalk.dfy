// What the random walk grows: rooms at odd coordinates, joined by carved walls.
module MazeWalk {
  import opened MazePaths

  ghost function Grid(rows: int, cols: int): (g: set<Cell>)
    ensures forall x :: x in g <==> 0 <= x.r < rows && 0 <= x.c < cols
  {
    set r, c | 0 <= r < rows && 0 <= c < cols :: Cell(r, c)
  }

  predicate IsRoom(rows: int, cols: int, x: Cell) {
    0 < x.r < rows - 1 && 0 < x.c < cols - 1 && OddCell(x)
  }

  ghost function Rooms(rows: int, cols: int): set<Cell> {
    set x | x in Grid(rows, cols) && IsRoom(rows, cols, x)
  }

  // The rooms on the two sides of a wall between rooms.
  ghost function EndA(w: Cell): Cell {
    if w.r % 2 == 1 then Cell(w.r, w.c - 1) else Cell(w.r - 1, w.c)
  }

  ghost function EndB(w: Cell): Cell {
    if w.r % 2 == 1 then Cell(w.r, w.c + 1) else Cell(w.r + 1, w.c)
  }

  predicate IsWall(w: Cell) {
    w.r % 2 != w.c % 2
  }

  // `b` is two steps from `a` in one direction.
  predicate TwoSteps(a: Cell, b: Cell) {
    (a.r == b.r && Abs(a.c - b.c) == 2) || (a.c == b.c && Abs(a.r - b.r) == 2)
  }

  function Middle(a: Cell, b: Cell): Cell {
    Cell((a.r + b.r) / 2, (a.c + b.c) / 2)
  }

  predicate OddCell(x: Cell) {
    x.r % 2 == 1 && x.c % 2 == 1
  }

  // ----- coordinates -----

  lemma MiddleIsWall(a: Cell, b: Cell)
    requires OddCell(a) && OddCell(b) && TwoSteps(a, b)
    ensures var w := Middle(a, b);
      && IsWall(w) && !OddCell(w) && Adjacent(w, a) && Adjacent(w, b) && a != b
      && ((EndA(w) == a && EndB(w) == b) || (EndA(w) == b && EndB(w) == a))
  {
  }

  lemma WallTouchesItsEnds(w: Cell, x: Cell)
    requires IsWall(w) && OddCell(x) && Adjacent(w, x)
    ensures x == EndA(w) || x == EndB(w)
  {
  }

  lemma WallsApart(w: Cell, x: Cell)
    requires IsWall(w) && IsWall(x)
    ensures !Adjacent(w, x) && !OddCell(w)
  {
  }

  lemma RoomsApart(a: Cell, b: Cell)
    requires OddCell(a) && OddCell(b)
    ensures !Adjacent(a, b)
  {
  }

  lemma RoomIsOdd(rows: int, cols: int, x: Cell)
    requires x in Rooms(rows, cols)
    ensures OddCell(x)
  {
  }

  // ----- growing -----

  // The visited rooms and the carved walls so far.
  ghost predicate Carving(seen: set<Cell>, carved: set<Cell>) {
    && (forall x :: x in seen ==> OddCell(x))
    && (forall w :: w in carved ==> IsWall(w) && EndA(w) in seen && EndB(w) in seen)
  }

  lemma WallIsLeaf(seen: set<Cell>, carved: set<Cell>, a: Cell, b: Cell)
    requires Carving(seen, carved) && a in seen && b !in seen && OddCell(b) && TwoSteps(a, b)
    ensures LeafAt(seen + carved, Middle(a, b), a) && Middle(a, b) !in carved
  {
    hide IsWall, OddCell, EndA, EndB, Middle, TwoSteps, Adjacent;
    var w := Middle(a, b);
    MiddleIsWall(a, b);
    forall z | z in seen && Adjacent(w, z) ensures z == a {
      WallTouchesItsEnds(w, z);
    }
    forall z | z in carved ensures !Adjacent(w, z) {
      WallsApart(w, z);
    }
  }

  lemma RoomIsLeaf(seen: set<Cell>, carved: set<Cell>, a: Cell, b: Cell)
    requires Carving(seen, carved) && a in seen && b !in seen && OddCell(b) && TwoSteps(a, b)
    ensures LeafAt(seen + carved + {Middle(a, b)}, b, Middle(a, b))
  {
    hide IsWall, OddCell, EndA, EndB, Middle, TwoSteps;
    MiddleIsWall(a, b);
    forall z | z in carved ensures !Adjacent(b, z) && z != b {
      WallsApart(z, z);
      if Adjacent(z, b) {
        WallTouchesItsEnds(z, b);
      }
    }
    forall z | z in seen ensures !Adjacent(b, z) {
      RoomsApart(b, z);
    }
  }

  // The visited rooms and the carved walls form a perfect maze with one wall fewer than
  // rooms; everything else that is open is a room still alone.
  ghost predicate Grown(rows: int, cols: int, open: set<Cell>, seen: set<Cell>, carved: set<Cell>) {
    && seen <= Rooms(rows, cols) && Cell(1, 1) in seen && Carving(seen, carved)
    && open == Rooms(rows, cols) + carved
    && Perfect(seen + carved)
    && |carved| == |seen| - 1
  }

  lemma Carve(rows: int, cols: int, open: set<Cell>, seen: set<Cell>, carved: set<Cell>, a: Cell, b: Cell)
    requires Grown(rows, cols, open, seen, carved)
    requires a in seen && b in Rooms(rows, cols) && b !in seen && TwoSteps(a, b)
    ensures Grown(rows, cols, open + {Middle(a, b)}, seen + {b}, carved + {Middle(a, b)})
  {
    hide IsWall, OddCell, EndA, EndB, Middle, TwoSteps, Perfect, LeafAt, Rooms, Carving, Adjacent, IsRoom;
    RoomIsOdd(rows, cols, a);
    RoomIsOdd(rows, cols, b);
    var w, v := Middle(a, b), seen + carved;
    CarvingStep(seen, carved, a, b);
    WallIsLeaf(seen, carved, a, b);
    LeafPerfect(v, w, a);
    RoomIsLeaf(seen, carved, a, b);
    LeafPerfect(v + {w}, b, w);
    assert v + {w} + {b} == (seen + {b}) + (carved + {w});
  }

  lemma CarvingStep(seen: set<Cell>, carved: set<Cell>, a: Cell, b: Cell)
    requires Carving(seen, carved) && a in seen && OddCell(b) && TwoSteps(a, b)
    ensures Carving(seen + {b}, carved + {Middle(a, b)})
  {
  }

  // As long as some room is unvisited, the walk can move.
  lemma CanMove(rows: int, cols: int, a: Cell, b: Cell)
    requires a in Rooms(rows, cols) && b in Rooms(rows, cols) && a != b
    ensures exists x :: x in Rooms(rows, cols) && TwoSteps(a, x)
  {
    var x :=
      if b.r < a.r then Cell(a.r - 2, a.c)
      else if b.r > a.r then Cell(a.r + 2, a.c)
      else if b.c < a.c then Cell(a.r, a.c - 2)
      else Cell(a.r, a.c + 2);
    assert x in Rooms(rows, cols) && TwoSteps(a, x);
  }

  lemma SubsetOfSameSize<T>(a: set<T>, b: set<T>)
    requires a <= b && |a| == |b|
    ensures a == b
  {
    if a != b {
      var x :| x in b && x !in a;
      SubsetSize(a, b - {x});
    }
  }

  lemma {:induction false} SubsetSize<T>(a: set<T>, b: set<T>)
    requires a <= b
    ensures |a| <= |b|
  {
    if a != {} {
      var x :| x in a;
      SubsetSize(a - {x}, b - {x});
    }
  }

  // ----- the goal cell, opened after the walk -----

  function Goal(rows: int, cols: int): Cell {
    Cell(rows - 2, cols - 2)
  }

  // With two even dimensions the goal is a pillar cut off from every room.
  ghost predicate GoalReachable(rows: int, cols: int) {
    rows % 2 == 1 || cols % 2 == 1
  }

  lemma GoalTouches(rows: int, cols: int, x: Cell)
    requires rows >= 3 && cols >= 3 && IsRoom(rows, cols, x) && Adjacent(Goal(rows, cols), x)
    ensures GoalReachable(rows, cols) && IsWall(Goal(rows, cols)) && x == EndA(Goal(rows, cols))
  {
  }

  lemma GoalApart(rows: int, cols: int, w: Cell)
    requires rows >= 3 && cols >= 3
    requires IsWall(w) && IsRoom(rows, cols, EndA(w)) && IsRoom(rows, cols, EndB(w))
    ensures w != Goal(rows, cols) && (!OddCell(Goal(rows, cols)) ==> !Adjacent(w, Goal(rows, cols)))
  {
  }

  lemma GoalIsLeaf(rows: int, cols: int, carved: set<Cell>)
    requires rows >= 3 && cols >= 3 && !OddCell(Goal(rows, cols)) && GoalReachable(rows, cols)
    requires Carving(Rooms(rows, cols), carved)
    ensures LeafAt(Rooms(rows, cols) + carved, Goal(rows, cols), EndA(Goal(rows, cols)))
  {
    var g := Goal(rows, cols);
    assert EndA(g) in Rooms(rows, cols) && Adjacent(g, EndA(g));
    hide OddCell, IsWall, EndA, EndB, Adjacent;
    forall z | z in Rooms(rows, cols) && Adjacent(g, z) ensures z == EndA(g) {
      GoalTouches(rows, cols, z);
    }
    forall z | z in carved ensures z != g && !Adjacent(g, z) {
      GoalApart(rows, cols, z);
      AdjacentSym(g, z);
    }
  }

  lemma AdjacentSym(a: Cell, b: Cell)
    ensures Adjacent(a, b) <==> Adjacent(b, a)
  {
  }

  lemma GoalIsIsolated(rows: int, cols: int, carved: set<Cell>)
    requires rows >= 3 && cols >= 3 && !GoalReachable(rows, cols) && Carving(Rooms(rows, cols), carved)
    ensures var g := Goal(rows, cols);
      g !in Rooms(rows, cols) + carved && forall z :: z in Rooms(rows, cols) + carved + {g} ==> !Adjacent(z, g)
  {
    var g := Goal(rows, cols);
    assert !OddCell(g);
    hide OddCell, IsWall, EndA, EndB, Adjacent, GoalReachable;
    forall z | z in Rooms(rows, cols) ensures !Adjacent(z, g) {
      AdjacentSym(g, z);
      if Adjacent(g, z) {
        GoalTouches(rows, cols, z);
      }
    }
    forall z | z in carved ensures z != g && !Adjacent(z, g) {
      GoalApart(rows, cols, z);
    }
    assert !Adjacent(g, g) by { NotSelf(g); }
  }

  lemma NotSelf(a: Cell)
    ensures !Adjacent(a, a)
  {
  }

  // Opening the goal after a walk that visited every room.
  lemma Finished(rows: int, cols: int, open: set<Cell>, carved: set<Cell>)
    requires rows >= 3 && cols >= 3 && Grown(rows, cols, open, Rooms(rows, cols), carved)
    ensures var g := Goal(rows, cols);
      && (Perfect(open + {g}) <==> GoalReachable(rows, cols))
      && ((exists p :: Connects(open + {g}, p, Cell(1, 1), g)) <==> GoalReachable(rows, cols))
      && |open + {g}| == 2 * |Rooms(rows, cols)| - (if rows % 2 == 1 && cols % 2 == 1 then 1 else 0)
  {
    hide OddCell, IsWall, EndA, EndB, Perfect, LeafAt, GoalReachable, Carving, IsRoom, Adjacent, Rooms;
    var g := Goal(rows, cols);
    RoomsAndWalls(rows, cols, carved);
    GoalKind(rows, cols);
    if OddCell(g) {
      assert open + {g} == open;
      PerfectConnects(open, Cell(1, 1), g);
    } else if GoalReachable(rows, cols) {
      GoalIsLeaf(rows, cols, carved);
      LeafPerfect(open, g, EndA(g));
      LeafIsNew(open, g, EndA(g));
      PerfectConnects(open + {g}, Cell(1, 1), g);
    } else {
      GoalIsIsolated(rows, cols, carved);
      IsolatedDisconnects(open + {g}, g, Cell(1, 1));
      if Perfect(open + {g}) {
        PerfectConnects(open + {g}, Cell(1, 1), g);
      }
    }
  }

  lemma GoalKind(rows: int, cols: int)
    requires rows >= 3 && cols >= 3
    ensures OddCell(Goal(rows, cols)) <==> rows % 2 == 1 && cols % 2 == 1
    ensures OddCell(Goal(rows, cols)) <==> Goal(rows, cols) in Rooms(rows, cols)
    ensures OddCell(Goal(rows, cols)) ==> GoalReachable(rows, cols)
  {
  }

  lemma PerfectConnects(v: set<Cell>, a: Cell, b: Cell)
    requires Perfect(v) && a in v && b in v
    ensures exists p :: Connects(v, p, a, b)
  {
  }

  lemma LeafIsNew(v: set<Cell>, x: Cell, y: Cell)
    requires LeafAt(v, x, y)
    ensures x !in v
  {
  }

  lemma RoomsAndWalls(rows: int, cols: int, carved: set<Cell>)
    requires Carving(Rooms(rows, cols), carved)
    ensures |Rooms(rows, cols) + carved| == |Rooms(rows, cols)| + |carved|
  {
  }
}
