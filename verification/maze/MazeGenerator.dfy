// The maze generator and the solvability check, over two-dimensional arrays.
module MazeGenerator {
  import opened MazePaths
  import opened MazeWalk
  import opened Sequences

  ghost predicate InRange<T>(m: array2<T>, x: Cell) {
    0 <= x.r < m.Length0 && 0 <= x.c < m.Length1
  }

  // The cells of the grid with value 0.
  ghost function OpenCells(m: array2<int>): (s: set<Cell>)
    reads m
    ensures forall x :: x in s <==> InRange(m, x) && m[x.r, x.c] == 0
  {
    set x | x in Grid(m.Length0, m.Length1) && m[x.r, x.c] == 0
  }

  // Every cell is a wall or open.
  ghost predicate Binary(m: array2<int>)
    reads m
  {
    forall i, j :: 0 <= i < m.Length0 && 0 <= j < m.Length1 ==> m[i, j] == 0 || m[i, j] == 1
  }

  // So the open cells say what every cell holds.
  lemma CellsOf(m: array2<int>)
    requires Binary(m)
    ensures forall i, j :: 0 <= i < m.Length0 && 0 <= j < m.Length1 ==>
      m[i, j] == if Cell(i, j) in OpenCells(m) then 0 else 1
  {
  }

  ghost function Marked(m: array2<bool>): (s: set<Cell>)
    reads m
    ensures forall x :: x in s <==> InRange(m, x) && m[x.r, x.c]
  {
    set x | x in Grid(m.Length0, m.Length1) && m[x.r, x.c]
  }

  // ----- filling and counting -----

  method Fill(rows: int, cols: int) returns (maze: array2<int>)
    requires rows >= 0 && cols >= 0
    ensures fresh(maze) && maze.Length0 == rows && maze.Length1 == cols
    ensures OpenCells(maze) == Rooms(rows, cols) && Binary(maze)
  {
    maze := new int[rows, cols]((i, j) => 1);
    for r := 0 to rows
      invariant forall i, j :: 0 <= i < rows && 0 <= j < cols ==> maze[i, j] == 1
    {
      for c := 0 to cols
        invariant forall i, j :: 0 <= i < rows && 0 <= j < cols ==> maze[i, j] == 1
      {
        maze[r, c] := 1;
      }
    }
    var r := 1;
    while r < rows - 1
      invariant 1 <= r
      invariant forall i, j :: 0 <= i < rows && 0 <= j < cols ==>
        maze[i, j] == if IsRoom(rows, cols, Cell(i, j)) && i < r then 0 else 1
    {
      var c := 1;
      while c < cols - 1
        invariant 1 <= c
        invariant forall i, j :: 0 <= i < rows && 0 <= j < cols ==>
          maze[i, j] == if IsRoom(rows, cols, Cell(i, j)) && (i < r || (i == r && j < c)) then 0 else 1
      {
        if r % 2 == 1 && c % 2 == 1 {
          maze[r, c] := 0;
        }
        c := c + 1;
      }
      r := r + 1;
    }
  }

  method CountRooms(rows: int, cols: int) returns (total: nat)
    ensures total == |Rooms(rows, cols)|
  {
    total := 0;
    ghost var counted: set<Cell> := {};
    var r := 1;
    while r < rows - 1
      invariant r % 2 == 1 && r >= 1 && total == |counted|
      invariant forall x :: x in counted <==> IsRoom(rows, cols, x) && x.r < r
      decreases rows - r
    {
      var c := 1;
      while c < cols - 1
        invariant c % 2 == 1 && c >= 1 && total == |counted|
        invariant forall x :: x in counted <==> IsRoom(rows, cols, x) && (x.r < r || (x.r == r && x.c < c))
        decreases cols - c
      {
        total := total + 1;
        counted := counted + {Cell(r, c)};
        c := c + 2;
      }
      r := r + 2;
    }
    assert counted == Rooms(rows, cols);
  }

  // ----- the random walk -----

  const DR := [-2, 2, 0, 0]
  const DC := [0, 0, -2, 2]

  // Some rearrangement; nothing is assumed about which.
  method Shuffle<T(==)>(s: seq<T>) returns (t: seq<T>)
    ensures multiset(t) == multiset(s)
  {
    t :| multiset(t) == multiset(s);
  }

  ghost predicate Walking(maze: array2<int>, visited: array2<bool>, rows: int, cols: int, at: Cell, carved: set<Cell>)
    reads maze, visited
  {
    && maze.Length0 == visited.Length0 == rows && maze.Length1 == visited.Length1 == cols && Binary(maze)
    && Grown(rows, cols, OpenCells(maze), Marked(visited), carved)
    && at in Marked(visited)
  }

  ghost function Towards(a: Cell, d: int): Cell {
    if 0 <= d < 4 then Cell(a.r + DR[d], a.c + DC[d]) else a
  }

  // Some direction leads to a room as long as one is unvisited.
  lemma SomeDirection(rows: int, cols: int, seen: set<Cell>, a: Cell)
    requires seen <= Rooms(rows, cols) && seen != Rooms(rows, cols) && a in seen
    ensures exists d :: 0 <= d < 4 && Towards(a, d) in Rooms(rows, cols)
  {
    var b :| b in Rooms(rows, cols) && b !in seen;
    CanMove(rows, cols, a, b);
    var x :| x in Rooms(rows, cols) && TwoSteps(a, x);
    assert x == Towards(a, 0) || x == Towards(a, 1) || x == Towards(a, 2) || x == Towards(a, 3);
  }

  method Visit(maze: array2<int>, visited: array2<bool>, rows: int, cols: int, cr: int, cc: int, nr: int, nc: int, ghost carved: set<Cell>)
    requires Walking(maze, visited, rows, cols, Cell(cr, cc), carved)
    requires Cell(nr, nc) in Rooms(rows, cols) && Cell(nr, nc) !in Marked(visited) && TwoSteps(Cell(cr, cc), Cell(nr, nc))
    modifies maze, visited
    ensures Walking(maze, visited, rows, cols, Cell(nr, nc), carved + {Middle(Cell(cr, cc), Cell(nr, nc))})
    ensures Marked(visited) == old(Marked(visited)) + {Cell(nr, nc)} && |Marked(visited)| == |old(Marked(visited))| + 1
  {
    hide Grown, Rooms;
    GrownWithin(rows, cols, OpenCells(maze), Marked(visited), carved);
    ghost var a, b := Cell(cr, cc), Cell(nr, nc);
    InsideGrid(rows, cols, Marked(visited), a, b);
    Carve(rows, cols, OpenCells(maze), Marked(visited), carved, a, b);
    maze[(cr + nr) / 2, (cc + nc) / 2] := 0;
    visited[nr, nc] := true;
    assert Marked(visited) == old(Marked(visited)) + {b};
    assert OpenCells(maze) == old(OpenCells(maze)) + {Middle(a, b)};
  }

  lemma InsideGrid(rows: int, cols: int, seen: set<Cell>, a: Cell, b: Cell)
    requires seen <= Rooms(rows, cols) && a in seen && b in Rooms(rows, cols)
    ensures 0 <= Middle(a, b).r < rows && 0 <= Middle(a, b).c < cols && 0 <= b.r < rows && 0 <= b.c < cols
  {
  }

  lemma GrownWithin(rows: int, cols: int, open: set<Cell>, seen: set<Cell>, carved: set<Cell>)
    requires Grown(rows, cols, open, seen, carved)
    ensures seen <= Rooms(rows, cols)
  {
  }

  // The first direction of the shuffle that stays inside. The walk is never stuck.
  method NextRoom(rows: int, cols: int, cr: int, cc: int, ghost seen: set<Cell>) returns (nr: int, nc: int)
    requires seen <= Rooms(rows, cols) && seen != Rooms(rows, cols) && Cell(cr, cc) in seen
    ensures Cell(nr, nc) in Rooms(rows, cols) && TwoSteps(Cell(cr, cc), Cell(nr, nc))
  {
    hide Rooms, IsRoom, OddCell, TwoSteps;
    var dirs := Shuffle([0, 1, 2, 3]);
    ghost var a := Cell(cr, cc);
    SomeDirection(rows, cols, seen, a);
    var j := 0;
    while j < |dirs|
      invariant 0 <= j <= |dirs|
      invariant forall i :: 0 <= i < j ==> Towards(a, dirs[i]) !in Rooms(rows, cols)
    {
      var d := dirs[j];
      DirectionOf(dirs, d);
      nr, nc := cr + DR[d], cc + DC[d];
      InRooms(rows, cols, Cell(nr, nc));
      if nr > 0 && nr < rows - 1 && nc > 0 && nc < cols - 1 && nr % 2 == 1 && nc % 2 == 1 {
        TwoStepsTowards(a, d);
        return;
      }
      j := j + 1;
    }
    AllDirections(dirs);
    assert false;
  }

  // One round: move to a neighbouring room, and carve the wall on the way if it is new.
  method Round(maze: array2<int>, visited: array2<bool>, rows: int, cols: int, cr: int, cc: int, ghost carved: set<Cell>)
    returns (nr: int, nc: int, isNew: bool, ghost carved': set<Cell>)
    requires Walking(maze, visited, rows, cols, Cell(cr, cc), carved)
    requires Marked(visited) != Rooms(rows, cols)
    modifies maze, visited
    ensures Walking(maze, visited, rows, cols, Cell(nr, nc), carved')
    ensures TwoSteps(Cell(cr, cc), Cell(nr, nc)) && Marked(visited) == old(Marked(visited)) + {Cell(nr, nc)}
    ensures |Marked(visited)| == |old(Marked(visited))| + if isNew then 1 else 0
  {
    hide Grown, Rooms, TwoSteps, Middle;
    GrownWithin(rows, cols, OpenCells(maze), Marked(visited), carved);
    nr, nc := NextRoom(rows, cols, cr, cc, Marked(visited));
    InRooms(rows, cols, Cell(nr, nc));
    carved' := carved;
    isNew := !visited[nr, nc];
    if isNew {
      Visit(maze, visited, rows, cols, cr, cc, nr, nc, carved);
      carved' := carved + {Middle(Cell(cr, cc), Cell(nr, nc))};
    }
  }

  lemma TwoStepsTowards(a: Cell, d: int)
    requires 0 <= d < 4
    ensures TwoSteps(a, Towards(a, d))
  {
  }

  lemma DirectionOf(dirs: seq<int>, d: int)
    requires multiset(dirs) == multiset([0, 1, 2, 3]) && d in dirs
    ensures 0 <= d < 4
  {
  }

  lemma AllDirections(dirs: seq<int>)
    requires multiset(dirs) == multiset([0, 1, 2, 3])
    ensures forall d :: 0 <= d < 4 ==> d in dirs
  {
  }

  lemma InRooms(rows: int, cols: int, x: Cell)
    ensures x in Rooms(rows, cols) <==> 0 < x.r < rows - 1 && 0 < x.c < cols - 1 && x.r % 2 == 1 && x.c % 2 == 1
  {
  }

  // ----- the path from start to goal -----

  ghost predicate Interior(rows: int, cols: int, open: set<Cell>) {
    forall x :: x in open ==> 0 < x.r < rows - 1 && 0 < x.c < cols - 1
  }

  ghost predicate Searching(maze: array2<int>, seen: array2<bool>, rows: int, cols: int)
    reads maze, seen
  {
    && maze.Length0 == seen.Length0 == rows && maze.Length1 == seen.Length1 == cols
    && Interior(rows, cols, OpenCells(maze)) && Goal(rows, cols) !in Marked(seen)
  }

  // A path found, goal first, through cells that were not marked before.
  ghost predicate FoundPath(open: set<Cell>, marked: set<Cell>, path: seq<Cell>, goal: Cell, start: Cell) {
    Connects(open, path, goal, start) && forall x :: x in path ==> x !in marked
  }

  lemma ExtendPath(open: set<Cell>, marked: set<Cell>, path: seq<Cell>, goal: Cell, start: Cell, x: Cell)
    requires FoundPath(open, marked + {x}, path, goal, start) && x in open && x !in marked && Adjacent(start, x)
    ensures FoundPath(open, marked, path + [x], goal, x)
  {
  }

  lemma ShrinkMarked(open: set<Cell>, small: set<Cell>, big: set<Cell>, path: seq<Cell>, goal: Cell, start: Cell)
    requires FoundPath(open, big, path, goal, start) && small <= big
    ensures FoundPath(open, small, path, goal, start)
  {
  }

  // Depth-first search. On failure everything newly marked has all its open neighbours
  // marked, so nothing reachable was missed.
  method Dfs(maze: array2<int>, seen: array2<bool>, rows: int, cols: int, r: int, c: int)
    returns (found: bool, path: seq<Cell>)
    requires Searching(maze, seen, rows, cols) && Cell(r, c) in OpenCells(maze) - Marked(seen)
    modifies seen
    ensures Searching(maze, seen, rows, cols) && old(Marked(seen)) <= Marked(seen)
    ensures found ==> FoundPath(OpenCells(maze), old(Marked(seen)), path, Goal(rows, cols), Cell(r, c))
    ensures !found ==>
      && path == [] && Cell(r, c) in Marked(seen)
      && ClosedIn(OpenCells(maze), Marked(seen) - old(Marked(seen)), Marked(seen))
    decreases |OpenCells(maze) - Marked(seen)|, 1
  {
    hide Adjacent, ClosedIn, FoundPath, Interior, Tried, Neighbour;
    ghost var x, open, before := Cell(r, c), OpenCells(maze), Marked(seen);
    InteriorCell(rows, cols, open, x);
    if r == rows - 2 && c == cols - 2 {
      PathOfOne(open, before, x);
      return true, [Cell(r, c)];
    }
    seen[r, c] := true;
    assert Marked(seen) == before + {x};
    NothingToClose(open, before, x);
    for d := 0 to 4
      invariant Searching(maze, seen, rows, cols) && before + {x} <= Marked(seen)
      invariant ClosedIn(open, Marked(seen) - (before + {x}), Marked(seen))
      invariant Tried(open, x, d, Marked(seen))
    {
      ghost var marked := Marked(seen);
      found, path := DfsTo(maze, seen, rows, cols, r, c, d, before);
      if found {
        return;
      }
      TriedOne(open, x, d, marked, Marked(seen));
    }
    AllNeighbours(open, before, x, Marked(seen));
    return false, [];
  }

  // One direction of the search from (r, c).
  method DfsTo(maze: array2<int>, seen: array2<bool>, rows: int, cols: int, r: int, c: int, d: int, ghost before: set<Cell>)
    returns (found: bool, path: seq<Cell>)
    requires 0 <= d < 4 && Searching(maze, seen, rows, cols) && Cell(r, c) in OpenCells(maze) - before
    requires before + {Cell(r, c)} <= Marked(seen)
    requires ClosedIn(OpenCells(maze), Marked(seen) - (before + {Cell(r, c)}), Marked(seen))
    modifies seen
    ensures Searching(maze, seen, rows, cols) && old(Marked(seen)) <= Marked(seen)
    ensures found ==> FoundPath(OpenCells(maze), before, path, Goal(rows, cols), Cell(r, c))
    ensures !found ==>
      && path == [] && (Neighbour(Cell(r, c), d) in OpenCells(maze) ==> Neighbour(Cell(r, c), d) in Marked(seen))
      && ClosedIn(OpenCells(maze), Marked(seen) - (before + {Cell(r, c)}), Marked(seen))
    decreases |OpenCells(maze) - before|, 0
  {
    hide Adjacent, ClosedIn, FoundPath, Interior;
    ghost var x, open, marked := Cell(r, c), OpenCells(maze), Marked(seen);
    var nr, nc := r + DR1[d], c + DC1[d];
    assert Neighbour(x, d) == Cell(nr, nc);
    InteriorCells(rows, cols, open);
    found, path := false, [];
    if nr > 0 && nr < rows - 1 && nc > 0 && nc < cols - 1 && maze[nr, nc] == 0 && !seen[nr, nc] {
      Shrinks(open, before, marked, x);
      found, path := Dfs(maze, seen, rows, cols, nr, nc);
      if found {
        NeighbourAdjacent(x, d);
        ShrinkMarked(open, before + {x}, marked, path, Goal(rows, cols), Cell(nr, nc));
        ExtendPath(open, before, path, Goal(rows, cols), Cell(nr, nc), x);
        path := path + [Cell(r, c)];
      } else {
        ClosedMore(open, before + {x}, marked, Marked(seen));
      }
    }
  }

  // The first d neighbours of `x` are in `v` if they are open.
  ghost predicate Tried(open: set<Cell>, x: Cell, d: nat, v: set<Cell>)
    requires d <= 4
  {
    forall e :: 0 <= e < d && Neighbour(x, e) in open ==> Neighbour(x, e) in v
  }

  lemma TriedOne(open: set<Cell>, x: Cell, d: nat, v: set<Cell>, w: set<Cell>)
    requires d < 4 && Tried(open, x, d, v) && v <= w && (Neighbour(x, d) in open ==> Neighbour(x, d) in w)
    ensures Tried(open, x, d + 1, w)
  {
  }

  lemma InteriorCell(rows: int, cols: int, open: set<Cell>, x: Cell)
    requires Interior(rows, cols, open) && x in open
    ensures 0 < x.r < rows - 1 && 0 < x.c < cols - 1
  {
  }

  lemma InteriorCells(rows: int, cols: int, open: set<Cell>)
    requires Interior(rows, cols, open)
    ensures forall x :: x in open ==> 0 < x.r < rows - 1 && 0 < x.c < cols - 1
  {
  }

  lemma PathOfOne(open: set<Cell>, marked: set<Cell>, x: Cell)
    requires x in open && x !in marked
    ensures FoundPath(open, marked, [x], x, x)
  {
  }

  lemma NothingToClose(open: set<Cell>, before: set<Cell>, x: Cell)
    ensures ClosedIn(open, (before + {x}) - (before + {x}), before + {x}) && Tried(open, x, 0, before + {x})
  {
  }

  lemma ClosedMore(open: set<Cell>, before: set<Cell>, marked: set<Cell>, more: set<Cell>)
    requires ClosedIn(open, marked - before, marked) && ClosedIn(open, more - marked, more) && marked <= more
    ensures ClosedIn(open, more - before, more)
  {
  }

  lemma AllNeighbours(open: set<Cell>, before: set<Cell>, x: Cell, marked: set<Cell>)
    requires ClosedIn(open, marked - (before + {x}), marked)
    requires Tried(open, x, 4, marked)
    ensures ClosedIn(open, marked - before, marked)
  {
    forall y | y in open && Adjacent(x, y) ensures y in marked {
      var e := AdjacentNeighbour(x, y);
    }
  }

  // Marking a cell leaves less to search.
  lemma Shrinks(open: set<Cell>, before: set<Cell>, marked: set<Cell>, x: Cell)
    requires x in open && x !in before && before + {x} <= marked
    ensures |open - marked| < |open - before|
  {
    SubsetSize(open - marked, open - before - {x});
  }

  // ----- the generator -----

  datatype MazeResult = MazeResult(
    maze: array2<int>, portalARow: int, portalACol: int, portalBRow: int, portalBCol: int)

  // Two different cells of the path, neither its first nor its last.
  ghost predicate OnPath(path: seq<Cell>, a: Cell, b: Cell) {
    exists i, j :: 0 < i < |path| - 1 && 0 < j < |path| - 1 && i != j && path[i] == a && path[j] == b
  }

  // The portals lie on the path from start to goal if it has more than four cells;
  // otherwise there are none.
  ghost predicate PortalsFor(path: seq<Cell>, a: Cell, b: Cell) {
    if |path| > 4 then OnPath(path, a, b) else a == b == Cell(-1, -1)
  }

  method PlacePortals(maze: array2<int>, path: seq<Cell>) returns (a: Cell, b: Cell)
    requires Within(path, OpenCells(maze))
    ensures PortalsFor(path, a, b)
  {
    a, b := Cell(-1, -1), Cell(-1, -1);
    if |path| > 4 {
      var validIndices: seq<nat> := [];
      for i := 1 to |path| - 1
        invariant validIndices == seq(i - 1, k => k + 1)
      {
        assert path[i] in OpenCells(maze);
        if maze[path[i].r, path[i].c] == 0 {
          validIndices := validIndices + [i];
        }
      }
      ghost var picks := validIndices;
      validIndices := Shuffle(validIndices);
      TwoPicks(picks, validIndices);
      a, b := path[validIndices[0]], path[validIndices[1]];
    }
  }

  lemma TwoPicks(s: seq<nat>, t: seq<nat>)
    requires multiset(t) == multiset(s) && |s| >= 2 && forall i :: 0 <= i < |s| ==> s[i] == i + 1
    ensures |t| == |s| && t[0] != t[1] && 1 <= t[0] <= |s| && 1 <= t[1] <= |s|
  {
    assert |multiset(t)| == |multiset(s)|;
    assert t[0] in multiset(t) && t[1] in multiset(t);
    if t[0] == t[1] {
      assert t == [t[0], t[1]] + t[2..];
      assert multiset(t)[t[0]] >= 2;
      OnceOnly(s, t[0]);
    }
  }

  lemma {:induction false} OnceOnly(s: seq<nat>, x: nat)
    requires forall i :: 0 <= i < |s| ==> s[i] == i + 1
    ensures multiset(s)[x] <= 1
  {
    if s != [] {
      var n := |s| - 1;
      assert s == s[..n] + [s[n]];
      OnceOnly(s[..n], x);
      if x == s[n] {
        assert x !in s[..n];
      }
    }
  }

  // What the generator promises of the cells it leaves open.
  ghost predicate Generated(rows: int, cols: int, open: set<Cell>) {
    && Rooms(rows, cols) <= open && Interior(rows, cols, open)
    && (Perfect(open) <==> GoalReachable(rows, cols))
    && (Solvable(open, Cell(1, 1), Goal(rows, cols)) <==> GoalReachable(rows, cols))
    && |open| == 2 * |Rooms(rows, cols)| - (if rows % 2 == 1 && cols % 2 == 1 then 1 else 0)
  }

  // At most `rounds` rounds of the random walk. `done` says whether they took it to every
  // room; the walk stops as soon as they have.
  method Generate(rows: int, cols: int, rounds: nat) returns (done: bool, result: MazeResult, ghost walk: seq<Cell>)
    requires rows >= 3 && cols >= 3
    ensures |walk| > 0 && RoomWalk(walk) && walk[0] == Cell(1, 1)
    ensures done <==> Elements(walk) == Rooms(rows, cols)
    ensures |walk| <= rounds + 1 && (!done ==> |walk| == rounds + 1)
    ensures fresh(result.maze) && result.maze.Length0 == rows && result.maze.Length1 == cols
    ensures forall i, j :: 0 <= i < rows && 0 <= j < cols ==>
      result.maze[i, j] == if Cell(i, j) in OpenCells(result.maze) then 0 else 1
    ensures done ==> Generated(rows, cols, OpenCells(result.maze))
    ensures done ==>
      var a, b := Cell(result.portalARow, result.portalACol), Cell(result.portalBRow, result.portalBCol);
      if GoalReachable(rows, cols)
      then exists p :: Connects(OpenCells(result.maze), p, Cell(1, 1), Goal(rows, cols)) && PortalsFor(p, a, b)
      else a == b == Cell(-1, -1)
  {
    var maze := Fill(rows, cols);
    result := MazeResult(maze, -1, -1, -1, -1);
    done, walk := Carved(maze, rows, cols, rounds);
    if done {
      var a, b := Decorated(maze, rows, cols);
      result := MazeResult(maze, a.r, a.c, b.r, b.c);
    }
    CellsOf(maze);
  }

  // Finds a path from the start to the goal and puts the portals on it.
  method Decorated(maze: array2<int>, rows: int, cols: int) returns (a: Cell, b: Cell)
    requires rows >= 3 && cols >= 3 && maze.Length0 == rows && maze.Length1 == cols
    requires Generated(rows, cols, OpenCells(maze))
    ensures if GoalReachable(rows, cols)
      then exists p :: Connects(OpenCells(maze), p, Cell(1, 1), Goal(rows, cols)) && PortalsFor(p, a, b)
      else a == b == Cell(-1, -1)
  {
    hide Generated, GoalReachable, Connects, PortalsFor, Rooms, IsRoom, Interior, Perfect, Solvable, FoundPath, ClosedIn;
    ghost var open := OpenCells(maze);
    var seen := new bool[rows, cols]((i, j) => false);
    assert Marked(seen) == {};
    StartIsOpen(rows, cols, open);
    var found, path := Dfs(maze, seen, rows, cols, 1, 1);
    if found {
      PathFound(rows, cols, open, path);
      path := Reverse(path);
    } else {
      NoPath(rows, cols, open, Marked(seen));
    }
    a, b := PlacePortals(maze, path);
    NoPortals(path, a, b);
  }

  method Reverse<T>(s: seq<T>) returns (r: seq<T>)
    ensures r == Reversed(s)
  {
    r := [];
    for i := 0 to |s|
      invariant |r| == i && forall j :: 0 <= j < i ==> r[j] == s[i - 1 - j]
    {
      r := [s[i]] + r;
    }
  }

  lemma StartIsOpen(rows: int, cols: int, open: set<Cell>)
    requires rows >= 3 && cols >= 3 && Generated(rows, cols, open)
    ensures Cell(1, 1) in open && Interior(rows, cols, open)
  {
  }

  lemma PathFound(rows: int, cols: int, open: set<Cell>, path: seq<Cell>)
    requires Generated(rows, cols, open) && FoundPath(open, {}, path, Goal(rows, cols), Cell(1, 1))
    ensures GoalReachable(rows, cols) && Connects(open, Reversed(path), Cell(1, 1), Goal(rows, cols))
    ensures Within(Reversed(path), open)
  {
    ReversedConnects(open, path, Goal(rows, cols), Cell(1, 1));
    ConnectsSolves(open, Reversed(path), Cell(1, 1), Goal(rows, cols));
  }

  lemma NoPath(rows: int, cols: int, open: set<Cell>, marked: set<Cell>)
    requires Generated(rows, cols, open) && ClosedIn(open, marked - {}, marked)
    requires Cell(1, 1) in marked && Goal(rows, cols) !in marked
    ensures !GoalReachable(rows, cols)
  {
    assert marked - {} == marked;
    ClosedUnsolvable(open, marked, Cell(1, 1), Goal(rows, cols));
  }

  lemma NoPortals(path: seq<Cell>, a: Cell, b: Cell)
    requires PortalsFor(path, a, b)
    ensures path == [] ==> a == b == Cell(-1, -1)
  {
  }

  // The random walk, up to and including the opening of the goal.
  method Carved(maze: array2<int>, rows: int, cols: int, rounds: nat) returns (done: bool, ghost walk: seq<Cell>)
    requires rows >= 3 && cols >= 3 && maze.Length0 == rows && maze.Length1 == cols
    requires OpenCells(maze) == Rooms(rows, cols) && Binary(maze)
    modifies maze
    ensures Binary(maze)
    ensures |walk| > 0 && RoomWalk(walk) && walk[0] == Cell(1, 1)
    ensures done <==> Elements(walk) == Rooms(rows, cols)
    ensures |walk| <= rounds + 1 && (!done ==> |walk| == rounds + 1)
    ensures done ==> Generated(rows, cols, OpenCells(maze))
  {
    hide Rooms, Grown, TwoSteps, Elements, RoomWalk;
    var visited := new bool[rows, cols]((i, j) => false);
    var total := CountRooms(rows, cols);
    var visitedCells, cr, cc := 1, 1, 1;
    visited[cr, cc] := true;
    ghost var carved: set<Cell> := {};
    assert Marked(visited) == {Cell(1, 1)};
    FirstRoom(rows, cols);
    walk := [Cell(1, 1)];
    OneElement(Cell(1, 1));
    var left := rounds;
    while visitedCells < total && left > 0
      invariant Walking(maze, visited, rows, cols, Cell(cr, cc), carved) && visitedCells == |Marked(visited)|
      invariant |walk| > 0 && RoomWalk(walk) && walk[0] == Cell(1, 1) && walk[|walk| - 1] == Cell(cr, cc)
      invariant Elements(walk) == Marked(visited) && |walk| + left == rounds + 1
      decreases left
    {
      var isNew;
      ghost var before := walk;
      cr, cc, isNew, carved := Round(maze, visited, rows, cols, cr, cc, carved);
      if isNew {
        visitedCells := visitedCells + 1;
      }
      left := left - 1;
      walk := walk + [Cell(cr, cc)];
      OneMore(before, Cell(cr, cc));
    }
    done := visitedCells >= total;
    Covered(rows, cols, OpenCells(maze), Marked(visited), carved);
    if done {
      AllVisited(rows, cols, OpenCells(maze), Marked(visited), carved);
      OpenEnds(maze, rows, cols);
    }
  }

  method OpenEnds(maze: array2<int>, rows: int, cols: int)
    requires rows >= 3 && cols >= 3 && maze.Length0 == rows && maze.Length1 == cols
    requires Cell(1, 1) in OpenCells(maze) && Binary(maze)
    modifies maze
    ensures Binary(maze) && OpenCells(maze) == old(OpenCells(maze)) + {Goal(rows, cols)}
  {
    ghost var open := OpenCells(maze);
    maze[1, 1] := 0;
    assert OpenCells(maze) == open;
    maze[rows - 2, cols - 2] := 0;
    assert OpenCells(maze) == open + {Goal(rows, cols)};
  }

  // From room to neighbouring room.
  ghost predicate RoomWalk(walk: seq<Cell>) {
    |walk| > 0 && forall i :: 0 < i < |walk| ==> TwoSteps(walk[i - 1], walk[i])
  }

  lemma OneElement(x: Cell)
    ensures Elements([x]) == {x} && RoomWalk([x])
  {
  }

  lemma OneMore(walk: seq<Cell>, x: Cell)
    requires RoomWalk(walk) && TwoSteps(walk[|walk| - 1], x)
    ensures Elements(walk + [x]) == Elements(walk) + {x} && RoomWalk(walk + [x])
  {
  }

  lemma Covered(rows: int, cols: int, open: set<Cell>, seen: set<Cell>, carved: set<Cell>)
    requires Grown(rows, cols, open, seen, carved)
    ensures |seen| >= |Rooms(rows, cols)| <==> seen == Rooms(rows, cols)
  {
    hide Rooms;
    SubsetSize(seen, Rooms(rows, cols));
    if |seen| >= |Rooms(rows, cols)| {
      SubsetOfSameSize(seen, Rooms(rows, cols));
    }
  }

  lemma FirstRoom(rows: int, cols: int)
    requires rows >= 3 && cols >= 3
    ensures Cell(1, 1) in Rooms(rows, cols) && Grown(rows, cols, Rooms(rows, cols), {Cell(1, 1)}, {})
  {
    SingletonPerfect(Cell(1, 1));
    assert {Cell(1, 1)} + {} == {Cell(1, 1)};
  }

  lemma AllVisited(rows: int, cols: int, open: set<Cell>, seen: set<Cell>, carved: set<Cell>)
    requires rows >= 3 && cols >= 3 && Grown(rows, cols, open, seen, carved) && |seen| >= |Rooms(rows, cols)|
    ensures Cell(1, 1) in open && Generated(rows, cols, open + {Goal(rows, cols)})
  {
    hide Perfect, Carving, GoalReachable, Solvable, Rooms, Interior, Connects;
    ghost var g, all := Goal(rows, cols), open + {Goal(rows, cols)};
    SubsetSize(seen, Rooms(rows, cols));
    SubsetOfSameSize(seen, Rooms(rows, cols));
    Finished(rows, cols, open, carved);
    StaysInside(rows, cols, carved);
    if GoalReachable(rows, cols) {
      var p :| Connects(all, p, Cell(1, 1), g);
      ConnectsSolves(all, p, Cell(1, 1), g);
    } else {
      GoalIsIsolated(rows, cols, carved);
      IsolatedUnsolvable(all, Cell(1, 1), g);
    }
  }

  lemma StaysInside(rows: int, cols: int, carved: set<Cell>)
    requires rows >= 3 && cols >= 3 && Carving(Rooms(rows, cols), carved)
    ensures Interior(rows, cols, Rooms(rows, cols) + carved + {Goal(rows, cols)})
  {
  }

  lemma IsolatedUnsolvable(open: set<Cell>, a: Cell, g: Cell)
    requires a in open && a != g && forall z :: z in open ==> !Adjacent(z, g)
    ensures !Solvable(open, a, g)
  {
    ClosedUnsolvable(open, open - {g}, a, g);
  }

  // ----- the solvability check -----

  // Breadth-first search. The start cell itself is never tested for openness.
  method IsSolvable(maze: array2<int>, startRow: int, startCol: int, endRow: int, endCol: int) returns (solvable: bool)
    requires maze.Length0 > 0 ==> InRange(maze, Cell(startRow, startCol))
    ensures maze.Length0 == 0 ==> !solvable
    ensures maze.Length0 > 0 ==>
      (solvable <==> Solvable(OpenCells(maze), Cell(startRow, startCol), Cell(endRow, endCol)))
  {
    if maze.Length0 == 0 {
      return false;
    }
    hide Adjacent, ClosedIn, Solvable;
    ghost var open, s := OpenCells(maze), Cell(startRow, startCol);
    var visited := new bool[maze.Length0, maze.Length1]((i, j) => false);
    var q := [Cell(startRow, startCol)];
    visited[startRow, startCol] := true;
    assert Marked(visited) == {s};
    StartsClosed(open, s);
    while q != []
      invariant visited.Length0 == maze.Length0 && visited.Length1 == maze.Length1
      invariant Frontier(open, s, Marked(visited), q) && Cell(endRow, endCol) !in Marked(visited) - Elements(q)
      decreases Grid(maze.Length0, maze.Length1) - Marked(visited), |q|
    {
      var x := q[0];
      FrontSolvable(open, s, Marked(visited), q);
      if x.r == endRow && x.c == endCol {
        return true;
      }
      q := PushNeighbours(maze, visited, s, q);
    }
    EndsClosed(open, s, Marked(visited), Cell(endRow, endCol));
    solvable := false;
  }

  // Takes the front cell off the queue and queues its unvisited open neighbours.
  method PushNeighbours(maze: array2<int>, visited: array2<bool>, ghost s: Cell, queue: seq<Cell>) returns (q: seq<Cell>)
    requires visited.Length0 == maze.Length0 && visited.Length1 == maze.Length1
    requires queue != [] && Frontier(OpenCells(maze), s, Marked(visited), queue)
    modifies visited
    ensures Frontier(OpenCells(maze), s, Marked(visited), q)
    ensures Marked(visited) - Elements(q) <= (old(Marked(visited)) - Elements(queue)) + {queue[0]}
    ensures old(Marked(visited)) <= Marked(visited) && (Marked(visited) == old(Marked(visited)) ==> q == queue[1..])
  {
    hide Adjacent, ClosedIn, Solvable, Tried, Neighbour, Elements;
    ghost var open, base := OpenCells(maze), Marked(visited);
    var x := queue[0];
    q := queue[1..];
    PopFront(open, s, base, queue);
    for d := 0 to 4
      invariant Pushing(open, s, base, Marked(visited), queue, q, d)
      invariant Marked(visited) == base ==> q == queue[1..]
    {
      var nr, nc := x.r + DR1[d], x.c + DC1[d];
      ghost var marked := Marked(visited);
      NeighbourIs(x, d, nr, nc);
      if nr >= 0 && nr < maze.Length0 && nc >= 0 && nc < maze.Length1 && maze[nr, nc] == 0 && !visited[nr, nc] {
        visited[nr, nc] := true;
        assert Marked(visited) == marked + {Cell(nr, nc)};
        PushOne(open, s, base, marked, queue, q, d);
        q := q + [Cell(nr, nc)];
      } else {
        SkipOne(open, s, base, marked, queue, q, d);
      }
    }
    Pushed(open, s, base, Marked(visited), queue, q);
  }

  ghost function Elements<T>(q: seq<T>): set<T> {
    set x | x in q
  }

  // Every visited cell can be reached, and the neighbours of those no longer queued have
  // all been visited.
  ghost predicate Frontier(open: set<Cell>, s: Cell, visited: set<Cell>, q: seq<Cell>) {
    && s in visited && Elements(q) <= visited
    && (forall x :: x in visited ==> Solvable(open, s, x))
    && ClosedIn(open, visited - Elements(q), visited)
  }

  lemma StartsClosed(open: set<Cell>, s: Cell)
    ensures Frontier(open, s, {s}, [s])
  {
    assert Leads(open, [s], s, s);
  }

  lemma FrontSolvable(open: set<Cell>, s: Cell, visited: set<Cell>, q: seq<Cell>)
    requires Frontier(open, s, visited, q) && q != []
    ensures Solvable(open, s, q[0])
  {
  }

  lemma EndsClosed(open: set<Cell>, s: Cell, visited: set<Cell>, e: Cell)
    requires Frontier(open, s, visited, []) && e !in visited - Elements([])
    ensures !Solvable(open, s, e)
  {
    assert visited - Elements([]) == visited;
    ClosedUnsolvable(open, visited, s, e);
  }

  // The front cell has been taken off and its first d neighbours looked at.
  ghost predicate Pushing(open: set<Cell>, s: Cell, base: set<Cell>, marked: set<Cell>, queue: seq<Cell>, q: seq<Cell>, d: nat)
    requires queue != [] && d <= 4
  {
    && s in base && base <= marked && queue[0] in base
    && Elements(q) <= marked && Elements(queue[1..]) + (marked - base) <= Elements(q)
    && (forall x :: x in marked ==> Solvable(open, s, x))
    && ClosedIn(open, base - Elements(queue), base)
    && Tried(open, queue[0], d, marked)
  }

  lemma PopFront(open: set<Cell>, s: Cell, base: set<Cell>, queue: seq<Cell>)
    requires queue != [] && Frontier(open, s, base, queue)
    ensures Pushing(open, s, base, base, queue, queue[1..], 0)
  {
  }

  lemma NeighbourIs(x: Cell, d: nat, nr: int, nc: int)
    requires d < 4 && nr == x.r + DR1[d] && nc == x.c + DC1[d]
    ensures Neighbour(x, d) == Cell(nr, nc) && Adjacent(x, Cell(nr, nc))
  {
  }

  lemma PushOne(open: set<Cell>, s: Cell, base: set<Cell>, marked: set<Cell>, queue: seq<Cell>, q: seq<Cell>, d: nat)
    requires queue != [] && d < 4 && Pushing(open, s, base, marked, queue, q, d)
    requires Neighbour(queue[0], d) in open && Adjacent(queue[0], Neighbour(queue[0], d))
    ensures var y := Neighbour(queue[0], d);
      Pushing(open, s, base, marked + {y}, queue, q + [y], d + 1)
  {
    hide Adjacent, ClosedIn, Solvable, Neighbour;
    var y := Neighbour(queue[0], d);
    SolvableStep(open, s, queue[0], y);
    TriedOne(open, queue[0], d, marked, marked + {y});
    assert forall z :: z in Elements(q + [y]) <==> z in Elements(q) || z == y;
  }

  lemma SkipOne(open: set<Cell>, s: Cell, base: set<Cell>, marked: set<Cell>, queue: seq<Cell>, q: seq<Cell>, d: nat)
    requires queue != [] && d < 4 && Pushing(open, s, base, marked, queue, q, d)
    requires Neighbour(queue[0], d) in open ==> Neighbour(queue[0], d) in marked
    ensures Pushing(open, s, base, marked, queue, q, d + 1)
  {
  }

  lemma Pushed(open: set<Cell>, s: Cell, base: set<Cell>, marked: set<Cell>, queue: seq<Cell>, q: seq<Cell>)
    requires queue != [] && Pushing(open, s, base, marked, queue, q, 4)
    ensures Frontier(open, s, marked, q) && marked - Elements(q) <= (base - Elements(queue)) + {queue[0]}
  {
    hide Adjacent, Solvable, Neighbour;
    var x := queue[0];
    assert forall z :: z in Elements(queue) ==> z == x || z in Elements(queue[1..]) by {
      assert queue == [x] + queue[1..];
    }
    forall y | y in open && Adjacent(x, y) ensures y in marked {
      var e := AdjacentNeighbour(x, y);
    }
  }

  // The smallest grid with both dimensions even: its one room and its goal are apart.
  lemma FourByFour()
    ensures Rooms(4, 4) == {Cell(1, 1)} && Goal(4, 4) == Cell(2, 2)
    ensures Generated(4, 4, {Cell(1, 1), Cell(2, 2)}) && !Solvable({Cell(1, 1), Cell(2, 2)}, Cell(1, 1), Goal(4, 4))
  {
    FirstRoom(4, 4);
    assert Rooms(4, 4) == {Cell(1, 1)};
    AllVisited(4, 4, Rooms(4, 4), {Cell(1, 1)}, {});
    assert Rooms(4, 4) + {Goal(4, 4)} == {Cell(1, 1), Cell(2, 2)};
  }
}
