// Life on the infinite plane, and the growing grid that simulates it.
module Life {
  datatype Cell = Cell(r: int, c: int)

  type Bit = x: int | 0 <= x <= 1

  // ----- the plane -----

  // The eight cells around `x`.
  function Around(x: Cell): set<Cell> {
    {Cell(x.r - 1, x.c - 1), Cell(x.r - 1, x.c), Cell(x.r - 1, x.c + 1), Cell(x.r, x.c - 1),
     Cell(x.r, x.c + 1), Cell(x.r + 1, x.c - 1), Cell(x.r + 1, x.c), Cell(x.r + 1, x.c + 1)}
  }

  predicate Near(x: Cell, y: Cell) {
    -1 <= y.r - x.r <= 1 && -1 <= y.c - x.c <= 1 && y != x
  }

  lemma AroundIsNear(x: Cell)
    ensures forall y :: y in Around(x) <==> Near(x, y)
  {
  }

  // How many of these cells live.
  function Living(cells: set<Cell>, alive: set<Cell>): nat {
    |cells * alive|
  }

  // Born with three live neighbours, surviving with two or three.
  predicate LivesOn(alive: set<Cell>, x: Cell) {
    var n := Living(Around(x), alive);
    if x in alive then n == 2 || n == 3 else n == 3
  }

  // The next generation on the whole plane.
  ghost function Generation(alive: set<Cell>): set<Cell> {
    set y, x | y in alive && x in Around(y) + {y} && LivesOn(alive, x) :: x
  }

  ghost function Generations(alive: set<Cell>, n: nat): set<Cell> {
    if n == 0 then alive else Generation(Generations(alive, n - 1))
  }

  // The live cells next to `x`.
  ghost function LiveNear(alive: set<Cell>, x: Cell): set<Cell> {
    set y | y in alive && -1 <= y.r - x.r <= 1 && -1 <= y.c - x.c <= 1 && y != x
  }

  // `Generation` misses no cell of the plane: one without live cells around it stays dead.
  lemma GenerationLives(alive: set<Cell>, x: Cell)
    ensures x in Generation(alive) <==> LivesOn(alive, x)
  {
  }

  // The rules of the game, for every cell of the plane.
  lemma GenerationIsRule(alive: set<Cell>, x: Cell)
    ensures var n := |LiveNear(alive, x)|; x in Generation(alive) <==> n == 3 || (n == 2 && x in alive)
  {
    hide Generation;
    GenerationLives(alive, x);
    assert Around(x) * alive == LiveNear(alive, x);
  }

  lemma Lonely(alive: set<Cell>, x: Cell)
    requires x !in alive && Around(x) !! alive
    ensures !LivesOn(alive, x)
  {
  }

  // ----- grids -----

  ghost predicate Sized(g: seq<seq<Bit>>, rows: nat, cols: nat) {
    |g| == rows && forall r :: 0 <= r < rows ==> |g[r]| == cols
  }

  predicate OnGrid(rows: nat, cols: nat, r: int, c: int) {
    0 <= r < rows && 0 <= c < cols
  }

  // The cell (r, c) of the grid; cells off the grid are dead.
  function BitAt(g: seq<seq<Bit>>, r: int, c: int): Bit {
    if 0 <= r < |g| && 0 <= c < |g[r]| then g[r][c] else 0
  }

  // The live cells of a grid whose first cell lies at (top, left) of the plane.
  ghost function AliveIn(g: seq<seq<Bit>>, top: int, left: int): set<Cell> {
    set r, c | 0 <= r < |g| && 0 <= c < |g[r]| && g[r][c] == 1 :: Cell(top + r, left + c)
  }

  lemma AliveAt(g: seq<seq<Bit>>, top: int, left: int, x: Cell)
    ensures x in AliveIn(g, top, left) <==> BitAt(g, x.r - top, x.c - left) == 1
  {
  }

  // Two grids that agree on every cell of the plane.
  lemma SameAlive(g: seq<seq<Bit>>, top: int, left: int, h: seq<seq<Bit>>, top': int, left': int)
    requires forall r, c :: BitAt(g, r, c) == BitAt(h, r + top - top', c + left - left')
    ensures AliveIn(g, top, left) == AliveIn(h, top', left')
  {
    hide AliveIn, BitAt;
    forall x ensures x in AliveIn(g, top, left) <==> x in AliveIn(h, top', left') {
      AliveAt(g, top, left, x);
      AliveAt(h, top', left', x);
      var r, c := x.r - top, x.c - left;
      assert BitAt(g, r, c) == BitAt(h, r + top - top', c + left - left');
    }
  }

  lemma RowOnTop(g: seq<seq<Bit>>, zeros: seq<Bit>, top: int, left: int)
    requires forall c :: 0 <= c < |zeros| ==> zeros[c] == 0
    ensures AliveIn([zeros] + g, top - 1, left) == AliveIn(g, top, left)
  {
    SameAlive(g, top, left, [zeros] + g, top - 1, left);
  }

  lemma RowBelow(g: seq<seq<Bit>>, zeros: seq<Bit>, top: int, left: int)
    requires forall c :: 0 <= c < |zeros| ==> zeros[c] == 0
    ensures AliveIn(g + [zeros], top, left) == AliveIn(g, top, left)
  {
    SameAlive(g, top, left, g + [zeros], top, left);
  }

  lemma ColumnBefore(g: seq<seq<Bit>>, h: seq<seq<Bit>>, top: int, left: int)
    requires |h| == |g| && forall r :: 0 <= r < |g| ==> h[r] == [0] + g[r]
    ensures AliveIn(h, top, left - 1) == AliveIn(g, top, left)
  {
    SameAlive(g, top, left, h, top, left - 1);
  }

  lemma ColumnAfter(g: seq<seq<Bit>>, h: seq<seq<Bit>>, top: int, left: int)
    requires |h| == |g| && forall r :: 0 <= r < |g| ==> h[r] == g[r] + [0]
    ensures AliveIn(h, top, left) == AliveIn(g, top, left)
  {
    SameAlive(g, top, left, h, top, left);
  }

  ghost predicate RowDead(g: seq<seq<Bit>>, r: int) {
    forall c :: BitAt(g, r, c) == 0
  }

  ghost predicate ColumnDead(g: seq<seq<Bit>>, c: int) {
    forall r :: BitAt(g, r, c) == 0
  }

  ghost predicate BordersDead(g: seq<seq<Bit>>, rows: nat, cols: nat) {
    RowDead(g, 0) && RowDead(g, rows - 1) && ColumnDead(g, 0) && ColumnDead(g, cols - 1)
  }

  // A grid whose cells follow the rule.
  ghost predicate Follows(g: seq<seq<Bit>>, alive: set<Cell>, rows: nat, cols: nat, top: int, left: int) {
    && Sized(g, rows, cols)
    && forall r, c :: OnGrid(rows, cols, r, c) ==> (BitAt(g, r, c) == 1 <==> LivesOn(alive, Cell(top + r, left + c)))
  }

  // With dead borders, the next generation lies on the grid.
  lemma NextOnGrid(g: seq<seq<Bit>>, h: seq<seq<Bit>>, rows: nat, cols: nat, top: int, left: int)
    requires Sized(g, rows, cols) && BordersDead(g, rows, cols) && Follows(h, AliveIn(g, top, left), rows, cols, top, left)
    ensures AliveIn(h, top, left) == Generation(AliveIn(g, top, left))
  {
    hide Generation, LivesOn, AliveIn;
    var alive := AliveIn(g, top, left);
    forall x ensures x in AliveIn(h, top, left) <==> x in Generation(alive) {
      AliveAt(h, top, left, x);
      GenerationLives(alive, x);
      var r, c := x.r - top, x.c - left;
      if OnGrid(rows, cols, r, c) {
        assert x == Cell(top + r, left + c);
      } else {
        OffGrid(g, rows, cols, top, left, x);
      }
    }
  }

  lemma OffGrid(g: seq<seq<Bit>>, rows: nat, cols: nat, top: int, left: int, x: Cell)
    requires Sized(g, rows, cols) && BordersDead(g, rows, cols) && !OnGrid(rows, cols, x.r - top, x.c - left)
    ensures !LivesOn(AliveIn(g, top, left), x)
  {
    hide LivesOn, AliveIn, Around;
    var alive := AliveIn(g, top, left);
    AroundIsNear(x);
    AliveAt(g, top, left, x);
    forall y | y in Around(x) ensures y !in alive {
      AliveAt(g, top, left, y);
    }
    Lonely(alive, x);
  }

  // ----- the grid -----

  class GameOfLife {
    var rows: nat
    var cols: nat
    var grid: seq<seq<Bit>>
    var nextGrid: seq<seq<Bit>>
    var generation: nat
    // Where the grid's first cell lies on the plane.
    ghost var top: int
    ghost var left: int

    ghost predicate Valid()
      reads this
    {
      Sized(grid, rows, cols) && Sized(nextGrid, rows, cols)
    }

    // The live cells, as cells of the plane.
    ghost function Alive(): set<Cell>
      reads this
    {
      AliveIn(grid, top, left)
    }

    // Any pattern of live cells.
    constructor (pattern: seq<seq<Bit>>, rows: nat, cols: nat)
      requires Sized(pattern, rows, cols)
      ensures Valid() && grid == pattern && top == 0 && left == 0 && generation == 0
    {
      this.rows, this.cols, generation, top, left := rows, cols, 0, 0, 0;
      grid, nextGrid := pattern, pattern;
    }

    // The cells around `x` up to the given offset.
    ghost predicate Scanned(x: Cell, seen: set<Cell>, dr: int, dc: int) {
      forall y :: y in seen <==> Near(x, y) && (y.r < x.r + dr || (y.r == x.r + dr && y.c < x.c + dc))
    }

    // The running count: `cnt` live cells among those scanned up to the given offset.
    ghost predicate Counted(x: Cell, seen: set<Cell>, dr: int, dc: int, cnt: nat)
      requires Valid()
      reads this
    {
      Scanned(x, seen, dr, dc) && cnt == Living(seen, Alive())
    }

    // Counts the live cells around (r, c); cells off the grid count as dead.
    method CountNeighbors(r: nat, c: nat) returns (cnt: nat)
      requires Valid() && r < rows && c < cols
      ensures cnt == Living(Around(Cell(top + r, left + c)), Alive())
    {
      hide *;
      cnt := 0;
      ghost var x, seen: set<Cell> := Cell(top + r, left + c), {};
      StartScan(x);
      for dr := -1 to 2
        invariant Counted(x, seen, dr, -1, cnt)
      {
        for dc := -1 to 2
          invariant Counted(x, seen, dr, dc, cnt)
        {
          seen := ScanOne(x, seen, dr, dc, cnt);
          if !(dr == 0 && dc == 0) {
            cnt := cnt + CellAt(r + dr, c + dc);
          }
        }
        NextLine(x, seen, dr, cnt);
      }
      EndScan(x, seen, cnt);
    }

    function CellAt(rr: int, cc: int): (b: Bit)
      requires Valid()
      reads this
      ensures b == BitAt(grid, rr, cc)
    {
      if rr >= 0 && rr < rows && cc >= 0 && cc < cols then grid[rr][cc] else 0
    }

    lemma StartScan(x: Cell)
      requires Valid()
      ensures Counted(x, {}, -1, -1, 0)
    {
    }

    lemma ScanOne(x: Cell, seen: set<Cell>, dr: int, dc: int, cnt: nat) returns (seen': set<Cell>)
      requires Valid() && -1 <= dr <= 1 && -1 <= dc <= 1 && Counted(x, seen, dr, dc, cnt)
      ensures Counted(x, seen', dr, dc + 1, cnt + if dr == 0 && dc == 0 then 0 else CellAt(x.r + dr - top, x.c + dc - left))
    {
      hide Living, Scanned, AliveIn;
      seen' := Extend(x, seen, dr, dc);
      if !(dr == 0 && dc == 0) {
        CountOne(seen, Alive(), Cell(x.r + dr, x.c + dc));
        AliveAt(grid, top, left, Cell(x.r + dr, x.c + dc));
      }
    }

    lemma Extend(x: Cell, seen: set<Cell>, dr: int, dc: int) returns (seen': set<Cell>)
      requires -1 <= dr <= 1 && -1 <= dc <= 1 && Scanned(x, seen, dr, dc)
      ensures var y := Cell(x.r + dr, x.c + dc);
        y !in seen && Scanned(x, seen', dr, dc + 1) && seen' == if dr == 0 && dc == 0 then seen else seen + {y}
    {
      seen' := if dr == 0 && dc == 0 then seen else seen + {Cell(x.r + dr, x.c + dc)};
    }

    lemma NextLine(x: Cell, seen: set<Cell>, dr: int, cnt: nat)
      requires Valid() && Counted(x, seen, dr, 2, cnt)
      ensures Counted(x, seen, dr + 1, -1, cnt)
    {
    }

    lemma EndScan(x: Cell, seen: set<Cell>, cnt: nat)
      requires Valid() && Counted(x, seen, 2, -1, cnt)
      ensures cnt == Living(Around(x), Alive())
    {
      AroundIsNear(x);
      assert seen == Around(x);
    }

    // ----- growing -----

    method RowAlive(r: nat) returns (alive: bool)
      requires Valid() && r < rows
      ensures alive <==> !RowDead(grid, r)
    {
      alive := false;
      for c := 0 to cols
        invariant forall k :: 0 <= k < c ==> grid[r][k] == 0
      {
        if grid[r][c] != 0 {
          assert BitAt(grid, r, c) != 0;
          return true;
        }
      }
    }

    method ColumnAlive(c: nat) returns (alive: bool)
      requires Valid() && c < cols
      ensures alive <==> !ColumnDead(grid, c)
    {
      alive := false;
      for r := 0 to rows
        invariant forall k :: 0 <= k < r ==> grid[k][c] == 0
      {
        if grid[r][c] != 0 {
          assert BitAt(grid, r, c) != 0;
          return true;
        }
      }
    }

    // Nothing but the size of the grid and its place on the plane has changed.
    twostate predicate Grown()
      reads this
    {
      Valid() && Alive() == old(Alive()) && generation == old(generation)
    }

    method AddTop()
      requires Valid()
      modifies this
      ensures Grown() && rows == old(rows) + 1 && RowDead(grid, 0)
    {
      hide AliveIn;
      var zeros := seq(cols, c => 0);
      RowOnTop(grid, zeros, top, left);
      grid := [zeros] + grid;
      nextGrid := [zeros] + nextGrid;
      rows := rows + 1;
      top := top - 1;
    }

    method AddBottom()
      requires Valid() && RowDead(grid, 0) && rows > 0
      modifies this
      ensures Grown() && rows == old(rows) + 1 && RowDead(grid, 0) && RowDead(grid, rows - 1)
    {
      hide AliveIn;
      var zeros := seq(cols, c => 0);
      RowBelow(grid, zeros, top, left);
      ghost var g := grid;
      grid := grid + [zeros];
      nextGrid := nextGrid + [zeros];
      rows := rows + 1;
      assert forall c :: BitAt(grid, 0, c) == BitAt(g, 0, c);
    }

    static method PadLeft(g: seq<seq<Bit>>) returns (h: seq<seq<Bit>>)
      ensures |h| == |g| && forall r :: 0 <= r < |g| ==> h[r] == [0] + g[r]
    {
      h := g;
      for r := 0 to |g|
        invariant |h| == |g|
        invariant forall k :: 0 <= k < |g| ==> h[k] == if k < r then [0] + g[k] else g[k]
      {
        h := h[r := [0] + h[r]];
      }
    }

    static method PadRight(g: seq<seq<Bit>>) returns (h: seq<seq<Bit>>)
      ensures |h| == |g| && forall r :: 0 <= r < |g| ==> h[r] == g[r] + [0]
    {
      h := g;
      for r := 0 to |g|
        invariant |h| == |g|
        invariant forall k :: 0 <= k < |g| ==> h[k] == if k < r then g[k] + [0] else g[k]
      {
        h := h[r := h[r] + [0]];
      }
    }

    method AddLeft()
      requires Valid() && RowDead(grid, 0) && RowDead(grid, rows - 1)
      modifies this
      ensures Grown() && rows == old(rows) && cols == old(cols) + 1
      ensures RowDead(grid, 0) && RowDead(grid, rows - 1) && ColumnDead(grid, 0)
    {
      hide AliveIn;
      ghost var g := grid;
      grid := PadLeft(grid);
      ColumnBefore(g, grid, top, left);
      nextGrid := PadLeft(nextGrid);
      cols := cols + 1;
      left := left - 1;
      assert forall r, c :: BitAt(grid, r, c) == BitAt(g, r, c - 1);
    }

    method AddRight()
      requires Valid() && RowDead(grid, 0) && RowDead(grid, rows - 1) && ColumnDead(grid, 0) && cols > 0
      modifies this
      ensures Grown() && rows == old(rows) && cols == old(cols) + 1 && BordersDead(grid, rows, cols)
    {
      hide AliveIn;
      ghost var g := grid;
      grid := PadRight(grid);
      ColumnAfter(g, grid, top, left);
      nextGrid := PadRight(nextGrid);
      cols := cols + 1;
      assert forall r, c :: BitAt(grid, r, c) == BitAt(g, r, c);
    }

    // Afterwards no live cell touches a border, and no cell of the plane has changed. Each
    // loop ends: the border it adds is dead.
    method ExpandIfNeeded()
      requires Valid()
      modifies this
      ensures Grown() && BordersDead(grid, rows, cols)
    {
      hide AliveIn, Sized, RowDead, ColumnDead;
      while rows > 0
        invariant Grown()
        decreases if rows > 0 && !RowDead(grid, 0) then 1 else 0
      {
        var topAlive := RowAlive(0);
        if !topAlive {
          break;
        }
        AddTop();
      }
      NoCells();
      while rows > 0
        invariant Grown() && RowDead(grid, 0)
        decreases if rows > 0 && !RowDead(grid, rows - 1) then 1 else 0
      {
        var bottomAlive := RowAlive(rows - 1);
        if !bottomAlive {
          break;
        }
        AddBottom();
      }
      NoCells();
      while cols > 0
        invariant Grown() && RowDead(grid, 0) && RowDead(grid, rows - 1)
        decreases if cols > 0 && !ColumnDead(grid, 0) then 1 else 0
      {
        var leftAlive := ColumnAlive(0);
        if !leftAlive {
          break;
        }
        AddLeft();
      }
      NoCells();
      while cols > 0
        invariant Grown() && RowDead(grid, 0) && RowDead(grid, rows - 1) && ColumnDead(grid, 0)
        decreases if cols > 0 && !ColumnDead(grid, cols - 1) then 1 else 0
      {
        var rightAlive := ColumnAlive(cols - 1);
        if !rightAlive {
          break;
        }
        AddRight();
      }
      NoCells();
    }

    lemma NoCells()
      requires Valid()
      ensures rows == 0 ==> RowDead(grid, 0) && RowDead(grid, rows - 1)
      ensures cols == 0 ==> ColumnDead(grid, 0) && ColumnDead(grid, cols - 1)
    {
    }

    // ----- one generation -----

    method NextCell(r: nat, c: nat) returns (b: Bit)
      requires Valid() && r < rows && c < cols
      ensures b == 1 <==> LivesOn(Alive(), Cell(top + r, left + c))
      ensures var n := Living(Around(Cell(top + r, left + c)), Alive()); b == 1 <==> n == 3 || (n == 2 && grid[r][c] == 1)
    {
      hide AliveIn, Around, Living;
      var n := CountNeighbors(r, c);
      AliveAt(grid, top, left, Cell(top + r, left + c));
      if grid[r][c] != 0 {
        b := if n == 2 || n == 3 then 1 else 0;
      } else {
        b := if n == 3 then 1 else 0;
      }
    }

    // One step of the grid is one generation on the plane.
    method Step()
      requires Valid()
      modifies this
      ensures Valid() && Alive() == Generation(old(Alive())) && generation == old(generation) + 1
    {
      hide AliveIn, BordersDead, Follows, Generation;
      ExpandIfNeeded();
      FillNext();
      NextOnGrid(grid, nextGrid, rows, cols, top, left);
      grid, nextGrid := nextGrid, grid;
      generation := generation + 1;
    }

    method FillNext()
      requires Valid()
      modifies `nextGrid
      ensures Valid() && Follows(nextGrid, Alive(), rows, cols, top, left)
    {
      hide AliveIn, LivesOn;
      ghost var alive := Alive();
      for r := 0 to rows
        invariant Valid()
        invariant forall i, j :: 0 <= i < r && 0 <= j < cols ==> (nextGrid[i][j] == 1 <==> LivesOn(alive, Cell(top + i, left + j)))
      {
        for c := 0 to cols
          invariant Valid()
          invariant forall i, j :: 0 <= i < r && 0 <= j < cols ==> (nextGrid[i][j] == 1 <==> LivesOn(alive, Cell(top + i, left + j)))
          invariant forall j :: 0 <= j < c ==> (nextGrid[r][j] == 1 <==> LivesOn(alive, Cell(top + r, left + j)))
        {
          var b := NextCell(r, c);
          nextGrid := nextGrid[r := nextGrid[r][c := b]];
        }
      }
    }

    // Any number of steps.
    method Steps(n: nat)
      requires Valid()
      modifies this
      ensures Valid() && Alive() == Generations(old(Alive()), n) && generation == old(generation) + n
    {
      hide AliveIn, Generation;
      for i := 0 to n
        invariant Valid() && Alive() == Generations(old(Alive()), i) && generation == old(generation) + i
      {
        Step();
      }
    }
  }

  lemma CountOne(seen: set<Cell>, alive: set<Cell>, y: Cell)
    requires y !in seen
    ensures Living(seen + {y}, alive) == Living(seen, alive) + if y in alive then 1 else 0
  {
    if y in alive {
      assert (seen + {y}) * alive == seen * alive + {y};
    } else {
      assert (seen + {y}) * alive == seen * alive;
    }
  }
}
