/**
  The Game of Life kernel: the rule applied to one cell, the neighbour count on
  a torus, the next generation of a whole grid, and the live-cell population.

  A grid is a sequence of rows; a cell holds 0 (dead) or 1 (alive), as the
  program's grids hold the numbers 0 and 1. The torus has R rows and C columns;
  the program passes its fixed table size (36 x 64), so here R and C are
  parameters and the grid is required to have exactly that shape.
 */
module Life {

  type Grid = seq<seq<int>>

  /** g has exactly R rows of exactly C cells each. */
  predicate IsGrid(g: Grid, R: int, C: int)
  {
    |g| == R && forall i :: 0 <= i < |g| ==> |g[i]| == C
  }

  /** g is a torus of R x C cells with at least one row and one column. */
  predicate IsTorus(g: Grid, R: int, C: int)
  {
    R >= 1 && C >= 1 && IsGrid(g, R, C)
  }

  /** Every cell is 0 or 1. */
  predicate IsBinary(g: Grid)
  {
    forall i, j :: 0 <= i < |g| && 0 <= j < |g[i]| ==> g[i][j] == 0 || g[i][j] == 1
  }

  // ---------------------------------------------------------------------------
  // The rule
  // ---------------------------------------------------------------------------

  /** The classic Life rule: a live cell survives on 2 or 3 live neighbours,
      a dead cell is born on exactly 3; every other cell is dead next. */
  function CellValue(neighbors: int, alive: bool): (v: int)
    ensures v == 0 || v == 1
    ensures v == 1 <==> (alive && (neighbors == 2 || neighbors == 3)) || (!alive && neighbors == 3)
  {
    if alive then
      if neighbors == 2 || neighbors == 3 then 1 else 0
    else
      if neighbors == 3 then 1 else 0
  }

  // ---------------------------------------------------------------------------
  // The neighbour count, in the program's own structure: the row above, the
  // cell to the left, the cell to the right and the row below, where each
  // helper wraps the one coordinate that can fall off the edge.
  // ---------------------------------------------------------------------------

  /** The cell left of a column: column -1 wraps to C - 1. */
  function LeftField(g: Grid, R: int, C: int, row: int, col: int): int
    requires IsTorus(g, R, C) && 0 <= row < R && -1 <= col < C
  {
    g[row][if col >= 0 then col else C - 1]
  }

  /** The cell right of a column: column C wraps to 0. */
  function RightField(g: Grid, R: int, C: int, row: int, col: int): int
    requires IsTorus(g, R, C) && 0 <= row < R && 0 <= col <= C
  {
    g[row][if col < C then col else 0]
  }

  /** The three cells of the row above: row -1 wraps to R - 1. */
  function UpRow(g: Grid, R: int, C: int, row: int, col: int): int
    requires IsTorus(g, R, C) && -1 <= row < R && 0 <= col < C
  {
    var r := if row >= 0 then row else R - 1;
    LeftField(g, R, C, r, col - 1) + g[r][col] + RightField(g, R, C, r, col + 1)
  }

  /** The three cells of the row below: row R wraps to 0. */
  function DownRow(g: Grid, R: int, C: int, row: int, col: int): int
    requires IsTorus(g, R, C) && 0 <= row <= R && 0 <= col < C
  {
    var r := if row < R then row else 0;
    LeftField(g, R, C, r, col - 1) + g[r][col] + RightField(g, R, C, r, col + 1)
  }

  /** The sum of the eight neighbours of (row, col) on the torus. */
  function AliveNeighbors(g: Grid, R: int, C: int, row: int, col: int): int
    requires IsTorus(g, R, C) && 0 <= row < R && 0 <= col < C
  {
    UpRow(g, R, C, row - 1, col)
    + LeftField(g, R, C, row, col - 1)
    + RightField(g, R, C, row, col + 1)
    + DownRow(g, R, C, row + 1, col)
  }

  // ---------------------------------------------------------------------------
  // An independent reference: the sum over the eight offsets, each coordinate
  // reduced modulo the torus size.
  // ---------------------------------------------------------------------------

  const NeighborOffsets: seq<(int, int)> :=
    [(-1, -1), (-1, 0), (-1, 1), (0, -1), (0, 1), (1, -1), (1, 0), (1, 1)]

  /** NeighborOffsets lists each of the eight offsets other than (0, 0) once. */
  lemma NeighborOffsetsAreTheEight()
    ensures |NeighborOffsets| == 8
    ensures forall k, l :: 0 <= k < l < 8 ==> NeighborOffsets[k] != NeighborOffsets[l]
    ensures forall d :: d in NeighborOffsets <==>
              -1 <= d.0 <= 1 && -1 <= d.1 <= 1 && d != (0, 0)
  {
  }

  /** The cell at offset d from (row, col), both axes wrapped independently. */
  function CellAt(g: Grid, R: int, C: int, row: int, col: int, d: (int, int)): int
    requires IsTorus(g, R, C)
  {
    g[(row + d.0) % R][(col + d.1) % C]
  }

  function SumAt(g: Grid, R: int, C: int, row: int, col: int, ds: seq<(int, int)>): int
    requires IsTorus(g, R, C)
    decreases |ds|
  {
    if ds == [] then 0 else CellAt(g, R, C, row, col, ds[0]) + SumAt(g, R, C, row, col, ds[1..])
  }

  function ToroidalNeighbors(g: Grid, R: int, C: int, row: int, col: int): int
    requires IsTorus(g, R, C)
  {
    SumAt(g, R, C, row, col, NeighborOffsets)
  }

  /** One step off either edge wraps to the opposite edge. */
  lemma WrapStep(i: int, n: int)
    requires n >= 1 && -1 <= i <= n
    ensures i % n == if i < 0 then n - 1 else if i == n then 0 else i
  {
  }

  /** The reference sum written out term by term. */
  lemma ToroidalNeighborsExpanded(g: Grid, R: int, C: int, row: int, col: int)
    requires IsTorus(g, R, C)
    ensures ToroidalNeighbors(g, R, C, row, col)
         == CellAt(g, R, C, row, col, (-1, -1)) + CellAt(g, R, C, row, col, (-1, 0))
          + CellAt(g, R, C, row, col, (-1, 1)) + CellAt(g, R, C, row, col, (0, -1))
          + CellAt(g, R, C, row, col, (0, 1)) + CellAt(g, R, C, row, col, (1, -1))
          + CellAt(g, R, C, row, col, (1, 0)) + CellAt(g, R, C, row, col, (1, 1))
  {
  }

  /** Each side helper reads the column reduced modulo C. */
  lemma SideFieldsWrap(g: Grid, R: int, C: int, row: int, col: int)
    requires IsTorus(g, R, C) && 0 <= row < R && 0 <= col < C
    ensures LeftField(g, R, C, row, col - 1) == g[row][(col - 1) % C]
    ensures RightField(g, R, C, row, col + 1) == g[row][(col + 1) % C]
  {
    WrapStep(col - 1, C);
    WrapStep(col + 1, C);
  }

  /** The row helpers read the row reduced modulo R, and in it the column to
      the left, the column itself and the column to the right. */
  lemma RowsWrap(g: Grid, R: int, C: int, row: int, col: int)
    requires IsTorus(g, R, C) && 0 <= row < R && 0 <= col < C
    ensures var up := (row - 1) % R;
            UpRow(g, R, C, row - 1, col)
            == g[up][(col - 1) % C] + g[up][col] + g[up][(col + 1) % C]
    ensures var down := (row + 1) % R;
            DownRow(g, R, C, row + 1, col)
            == g[down][(col - 1) % C] + g[down][col] + g[down][(col + 1) % C]
  {
    WrapStep(row - 1, R);
    WrapStep(row + 1, R);
    SideFieldsWrap(g, R, C, (row - 1) % R, col);
    SideFieldsWrap(g, R, C, (row + 1) % R, col);
  }

  /** The program's count is the modular sum over the eight offsets. */
  lemma AliveNeighborsIsToroidal(g: Grid, R: int, C: int, row: int, col: int)
    requires IsTorus(g, R, C) && 0 <= row < R && 0 <= col < C
    ensures AliveNeighbors(g, R, C, row, col) == ToroidalNeighbors(g, R, C, row, col)
  {
    WrapStep(row, R);
    WrapStep(col, C);
    RowsWrap(g, R, C, row, col);
    SideFieldsWrap(g, R, C, row, col);
    ToroidalNeighborsExpanded(g, R, C, row, col);
  }

  lemma {:induction false} SumAtBounds(g: Grid, R: int, C: int, row: int, col: int, ds: seq<(int, int)>)
    requires IsTorus(g, R, C) && IsBinary(g)
    ensures 0 <= SumAt(g, R, C, row, col, ds) <= |ds|
    decreases |ds|
  {
    if ds != [] {
      SumAtBounds(g, R, C, row, col, ds[1..]);
    }
  }

  /** On a 0/1 grid the neighbour count lies in [0, 8]. */
  lemma AliveNeighborsRange(g: Grid, R: int, C: int, row: int, col: int)
    requires IsTorus(g, R, C) && IsBinary(g) && 0 <= row < R && 0 <= col < C
    ensures 0 <= AliveNeighbors(g, R, C, row, col) <= 8
  {
    AliveNeighborsIsToroidal(g, R, C, row, col);
    SumAtBounds(g, R, C, row, col, NeighborOffsets);
  }

  // ---------------------------------------------------------------------------
  // Whole generations
  // ---------------------------------------------------------------------------

  /** The value cell (i, j) of g takes in the next generation. */
  function NextCell(g: Grid, R: int, C: int, i: int, j: int): int
    requires IsTorus(g, R, C) && 0 <= i < R && 0 <= j < C
  {
    CellValue(AliveNeighbors(g, R, C, i, j), g[i][j] != 0)
  }

  /** The next generation of g: a fresh 0/1 grid of the same shape. */
  function NextGeneration(g: Grid, R: int, C: int): (h: Grid)
    requires IsTorus(g, R, C)
    ensures IsTorus(h, R, C) && IsBinary(h)
  {
    seq(R, i requires 0 <= i < R => seq(C, j requires 0 <= j < C => NextCell(g, R, C, i, j)))
  }

  /** The all-dead grid of the given shape. */
  function Zeros(rows: nat, cols: nat): (z: Grid)
    ensures IsGrid(z, rows, cols) && IsBinary(z)
  {
    seq(rows, _ => seq(cols, _ => 0))
  }

  // ---------------------------------------------------------------------------
  // Population: the number of live cells
  // ---------------------------------------------------------------------------

  function RowPopulation(row: seq<int>): (n: nat)
    ensures n <= |row|
  {
    if row == [] then 0
    else RowPopulation(row[..|row| - 1]) + (if row[|row| - 1] != 0 then 1 else 0)
  }

  function Population(g: Grid): nat
  {
    if g == [] then 0 else Population(g[..|g| - 1]) + RowPopulation(g[|g| - 1])
  }

  lemma {:induction false} RowPopulationZero(row: seq<int>)
    ensures RowPopulation(row) == 0 <==> forall j :: 0 <= j < |row| ==> row[j] == 0
  {
    if row != [] {
      RowPopulationZero(row[..|row| - 1]);
    }
  }

  /** A grid has population 0 exactly when every cell is dead. */
  lemma {:induction false} PopulationZero(g: Grid)
    ensures Population(g) == 0 <==>
            forall i, j :: 0 <= i < |g| && 0 <= j < |g[i]| ==> g[i][j] == 0
  {
    if g != [] {
      var init := g[..|g| - 1];
      PopulationZero(init);
      RowPopulationZero(g[|g| - 1]);
      assert forall i :: 0 <= i < |init| ==> init[i] == g[i];
    }
  }

  /** The all-dead grid is its own successor. */
  lemma ZerosAreStill(R: int, C: int)
    requires R >= 1 && C >= 1
    ensures NextGeneration(Zeros(R, C), R, C) == Zeros(R, C)
  {
    var z, h := Zeros(R, C), NextGeneration(Zeros(R, C), R, C);
    forall i, j | 0 <= i < R && 0 <= j < C
      ensures h[i][j] == z[i][j]
    {
      assert AliveNeighbors(z, R, C, i, j) == 0;
    }
    forall i | 0 <= i < R
      ensures h[i] == z[i]
    {
    }
  }

  // ---------------------------------------------------------------------------
  // Manual editing
  // ---------------------------------------------------------------------------

  /** g with cell (r, c) toggled: a live (non-zero) cell becomes 0, a dead one 1. */
  function Toggled(g: Grid, r: int, c: int): (h: Grid)
    requires 0 <= r < |g| && 0 <= c < |g[r]|
    ensures |h| == |g| && forall i :: 0 <= i < |g| ==> |h[i]| == |g[i]|
    ensures forall i, j :: 0 <= i < |g| && 0 <= j < |g[i]| && (i, j) != (r, c) ==> h[i][j] == g[i][j]
    ensures IsBinary(g) ==> IsBinary(h) && h[r][c] == 1 - g[r][c]
  {
    g[r := g[r][c := if g[r][c] != 0 then 0 else 1]]
  }

  /** Toggling the same cell of a 0/1 grid twice restores the grid. */
  lemma ToggleTwice(g: Grid, r: int, c: int)
    requires 0 <= r < |g| && 0 <= c < |g[r]| && IsBinary(g)
    ensures Toggled(Toggled(g, r, c), r, c) == g
  {
    var h := Toggled(Toggled(g, r, c), r, c);
    forall i | 0 <= i < |g|
      ensures h[i] == g[i]
    {
      assert forall j :: 0 <= j < |g[i]| ==> h[i][j] == g[i][j];
    }
  }
}
