/**
  The grid builder: the nested loops that fill a fresh grid row by row, in its
  'play' form (the next generation of a given grid, with its live count) and
  its default form (an all-dead grid). The input grid is a value: the builder
  only reads it, and the grid it returns is a new one.
 */
module GridUpdate {
  import opened Life

  /** One generation: every cell of the result is the rule applied to the
      corresponding cell of grid and its torus neighbours, and count is the
      number of live cells of the result. */
  method NextGrid(grid: Grid, R: int, C: int) returns (next: Grid, count: int)
    requires IsTorus(grid, R, C)
    ensures next == NextGeneration(grid, R, C)
    ensures count == Population(next)
  {
    ghost var spec := NextGeneration(grid, R, C);
    var rows, cols := |grid|, |grid[0]|;
    count := 0;
    next := [];
    for i := 0 to rows
      invariant |next| == i
      invariant forall k :: 0 <= k < i ==> next[k] == spec[k]
      invariant count == Population(next)
    {
      var row: seq<int> := [];
      for j := 0 to cols
        invariant |row| == j
        invariant forall l :: 0 <= l < j ==> row[l] == spec[i][l]
        invariant count == Population(next) + RowPopulation(row)
      {
        var isCellAlive := grid[i][j] != 0;
        var v := CellValue(AliveNeighbors(grid, R, C, i, j), isCellAlive);
        assert (row + [v])[..j] == row;
        row := row + [v];
        count := count + v;
      }
      assert row == spec[i];
      assert (next + [row])[..i] == next;
      next := next + [row];
    }
    assert next == spec;
  }

  /** The default form: an all-dead grid of rows x cols cells. */
  method BlankGrid(rows: nat, cols: nat) returns (next: Grid)
    ensures next == Zeros(rows, cols)
    ensures IsGrid(next, rows, cols) && Population(next) == 0
  {
    next := [];
    for i := 0 to rows
      invariant |next| == i
      invariant forall k :: 0 <= k < i ==> next[k] == Zeros(rows, cols)[k]
    {
      var row: seq<int> := [];
      for j := 0 to cols
        invariant |row| == j
        invariant forall l :: 0 <= l < j ==> row[l] == 0
      {
        row := row + [0];
      }
      next := next + [row];
    }
    PopulationZero(next);
  }
}
