/**
  Small patterns whose behaviour on the torus is known: a corner that sees the
  opposite corner, a lone live cell (it dies), the block (a still life) and the
  blinker (period 2).
 */
module Patterns {
  import opened Life

  /** On a 3 x 3 torus the bottom-right corner counts the top-left cell as a
      neighbour: both axes wrap. */
  lemma CornerWrapsBothAxes()
    ensures AliveNeighbors([[1, 0, 0], [0, 0, 0], [0, 0, 0]], 3, 3, 2, 2) == 1
  {
  }

  /** A grid that agrees with the rule on every cell is the next generation. */
  lemma GenerationFromCells(g: Grid, R: int, C: int, t: Grid)
    requires IsTorus(g, R, C) && IsGrid(t, R, C)
    requires forall i, j :: 0 <= i < R && 0 <= j < C ==> NextCell(g, R, C, i, j) == t[i][j]
    ensures NextGeneration(g, R, C) == t
  {
    var h := NextGeneration(g, R, C);
    forall i | 0 <= i < R
      ensures h[i] == t[i]
    {
    }
  }

  /** The all-dead R x C grid with the single cell (r, c) drawn in. */
  function LoneCell(R: int, C: int, r: int, c: int): (g: Grid)
    requires 0 <= r < R && 0 <= c < C
    ensures IsTorus(g, R, C) && IsBinary(g)
    ensures forall i, j :: 0 <= i < R && 0 <= j < C ==> g[i][j] == if (i, j) == (r, c) then 1 else 0
  {
    Toggled(Zeros(R, C), r, c)
  }

  /** The neighbour of (i, j) at offset d is the cell (r, c). */
  predicate Hits(R: int, C: int, i: int, j: int, r: int, c: int, d: (int, int))
    requires R >= 1 && C >= 1
  {
    (i + d.0) % R == r && (j + d.1) % C == c
  }

  /** On a torus at least 3 wide, two offsets of at most one step that reach
      the same row (or column) are the same offset. */
  lemma WrapInjective(i: int, a: int, b: int, n: int)
    requires n >= 3 && 0 <= i < n && -1 <= a <= 1 && -1 <= b <= 1
    ensures (i + a) % n == (i + b) % n ==> a == b
  {
    WrapStep(i + a, n);
    WrapStep(i + b, n);
  }

  lemma HitsUnique(R: int, C: int, i: int, j: int, r: int, c: int, d: (int, int), e: (int, int))
    requires R >= 3 && C >= 3 && 0 <= i < R && 0 <= j < C
    requires -1 <= d.0 <= 1 && -1 <= d.1 <= 1 && -1 <= e.0 <= 1 && -1 <= e.1 <= 1
    ensures Hits(R, C, i, j, r, c, d) && Hits(R, C, i, j, r, c, e) ==> d == e
  {
    WrapInjective(i, d.0, e.0, R);
    WrapInjective(j, d.1, e.1, C);
  }

  /** Offsets that all miss the live cell sum to 0. */
  lemma {:induction false} SumAtMisses(R: int, C: int, r: int, c: int, i: int, j: int, ds: seq<(int, int)>)
    requires 0 <= r < R && 0 <= c < C
    requires forall k :: 0 <= k < |ds| ==> !Hits(R, C, i, j, r, c, ds[k])
    ensures SumAt(LoneCell(R, C, r, c), R, C, i, j, ds) == 0
    decreases |ds|
  {
    if ds != [] {
      SumAtMisses(R, C, r, c, i, j, ds[1..]);
    }
  }

  /** Distinct offsets of at most one step see the live cell at most once. */
  lemma {:induction false} SumAtLone(R: int, C: int, r: int, c: int, i: int, j: int, ds: seq<(int, int)>)
    requires R >= 3 && C >= 3 && 0 <= r < R && 0 <= c < C && 0 <= i < R && 0 <= j < C
    requires forall k :: 0 <= k < |ds| ==> -1 <= ds[k].0 <= 1 && -1 <= ds[k].1 <= 1
    requires forall k, l :: 0 <= k < l < |ds| ==> ds[k] != ds[l]
    ensures SumAt(LoneCell(R, C, r, c), R, C, i, j, ds) <= 1
    decreases |ds|
  {
    if ds != [] {
      var rest := ds[1..];
      if Hits(R, C, i, j, r, c, ds[0]) {
        forall k | 0 <= k < |rest|
          ensures !Hits(R, C, i, j, r, c, rest[k])
        {
          HitsUnique(R, C, i, j, r, c, ds[0], ds[k + 1]);
        }
        SumAtMisses(R, C, r, c, i, j, rest);
      } else {
        SumAtLone(R, C, r, c, i, j, rest);
      }
    }
  }

  /** No neighbour of a cell is the cell itself on a torus at least 3 x 3. */
  lemma NoOffsetHitsSelf(R: int, C: int, r: int, c: int)
    requires R >= 3 && C >= 3 && 0 <= r < R && 0 <= c < C
    ensures forall k :: 0 <= k < |NeighborOffsets| ==> !Hits(R, C, r, c, r, c, NeighborOffsets[k])
  {
    forall k | 0 <= k < |NeighborOffsets|
      ensures !Hits(R, C, r, c, r, c, NeighborOffsets[k])
    {
      var d := NeighborOffsets[k];
      assert -1 <= d.0 <= 1 && -1 <= d.1 <= 1 && d != (0, 0);
      WrapInjective(r, d.0, 0, R);
      WrapInjective(c, d.1, 0, C);
    }
  }

  /** The live cell of a lone-cell grid has no live neighbour. */
  lemma LoneCellIsolated(R: int, C: int, r: int, c: int)
    requires R >= 3 && C >= 3 && 0 <= r < R && 0 <= c < C
    ensures AliveNeighbors(LoneCell(R, C, r, c), R, C, r, c) == 0
  {
    NoOffsetHitsSelf(R, C, r, c);
    SumAtMisses(R, C, r, c, r, c, NeighborOffsets);
    AliveNeighborsIsToroidal(LoneCell(R, C, r, c), R, C, r, c);
  }

  /** Every cell of a lone-cell grid has at most one live neighbour. */
  lemma LoneCellNeighbors(R: int, C: int, r: int, c: int, i: int, j: int)
    requires R >= 3 && C >= 3 && 0 <= r < R && 0 <= c < C && 0 <= i < R && 0 <= j < C
    ensures AliveNeighbors(LoneCell(R, C, r, c), R, C, i, j) <= 1
  {
    NeighborOffsetsAreTheEight();
    SumAtLone(R, C, r, c, i, j, NeighborOffsets);
    AliveNeighborsIsToroidal(LoneCell(R, C, r, c), R, C, i, j);
  }

  /** A lone live cell on a torus at least 3 x 3 dies, and nothing is born:
      the next generation is extinct, so a running game stops after one step. */
  lemma LoneCellDies(R: int, C: int, r: int, c: int)
    requires R >= 3 && C >= 3 && 0 <= r < R && 0 <= c < C
    ensures Population(NextGeneration(LoneCell(R, C, r, c), R, C)) == 0
  {
    var g := LoneCell(R, C, r, c);
    var h := NextGeneration(g, R, C);
    LoneCellIsolated(R, C, r, c);
    forall i, j | 0 <= i < R && 0 <= j < C
      ensures h[i][j] == 0
    {
      LoneCellNeighbors(R, C, r, c, i, j);
    }
    PopulationZero(h);
  }

  // The block and the blinker are drawn at an anchor (r, c) on any torus big
  // enough that a shape and its neighbourhood do not wrap onto themselves.
  // Each cell is located by its offset from the anchor, and one generation on
  // the torus is reduced to one generation in the unbounded plane.

  /** The offset of coordinate x from the anchor a on an axis of length n,
      read as a small signed number: 0, 1 and 2 steps past the anchor stay as
      they are, every other position counts as lying behind the anchor. */
  function Disp(x: int, a: int, n: int): (u: int)
    requires n >= 1
    ensures -n < u <= 2
  {
    var k := (x - a) % n;
    if k <= 2 then k else k - n
  }

  /** A shape drawn relative to its anchor. */
  datatype Shape = Block | Horizontal | Vertical

  /** Whether the cell at offset (u, v) from the anchor belongs to the shape:
      the block is the 2 x 2 square whose top-left cell is the anchor, the two
      blinker phases are three cells in a line centred on the anchor. */
  predicate In(s: Shape, u: int, v: int) {
    match s
    case Block => 0 <= u <= 1 && 0 <= v <= 1
    case Horizontal => u == 0 && -1 <= v <= 1
    case Vertical => -1 <= u <= 1 && v == 0
  }

  /** The smallest offset a shape uses on either axis (its largest is 1). */
  function Lo(s: Shape): (lo: int)
    ensures forall u, v :: In(s, u, v) ==> lo <= u <= 1 && lo <= v <= 1
  {
    if s == Block then 0 else -1
  }

  /** The shape one generation later: the block stays, the blinker turns. */
  function Next(s: Shape): (t: Shape)
    ensures Lo(t) == Lo(s)
  {
    match s
    case Block => Block
    case Horizontal => Vertical
    case Vertical => Horizontal
  }

  /** The torus is at least 4 x 4 for the block and 5 x 5 for the blinker. */
  predicate Fits(s: Shape, R: int, C: int) {
    R >= 4 - Lo(s) && C >= 4 - Lo(s)
  }

  /** The all-dead R x C grid with the shape drawn at anchor (r, c). */
  function Placed(s: Shape, R: int, C: int, r: int, c: int): (g: Grid)
    requires R >= 1 && C >= 1
    ensures IsTorus(g, R, C) && IsBinary(g)
    ensures forall i, j :: 0 <= i < R && 0 <= j < C ==>
              (g[i][j] == 1 <==> In(s, Disp(i, r, R), Disp(j, c, C)))
  {
    seq(R, i => seq(C, j => if In(s, Disp(i, r, R), Disp(j, c, C)) then 1 else 0))
  }

  /** How many of the eight neighbours of (u, v) in the unbounded plane
      belong to the shape. */
  function PlaneCount(s: Shape, u: int, v: int): (n: int)
    ensures 0 <= n <= 8
  {
    (if In(s, u - 1, v - 1) then 1 else 0) + (if In(s, u - 1, v) then 1 else 0)
    + (if In(s, u - 1, v + 1) then 1 else 0) + (if In(s, u, v - 1) then 1 else 0)
    + (if In(s, u, v + 1) then 1 else 0) + (if In(s, u + 1, v - 1) then 1 else 0)
    + (if In(s, u + 1, v) then 1 else 0) + (if In(s, u + 1, v + 1) then 1 else 0)
  }

  /** In the plane the rule turns every cell of a shape's surroundings into
      the next shape's. */
  lemma PlaneStep(s: Shape, u: int, v: int)
    ensures CellValue(PlaneCount(s, u, v), In(s, u, v)) == if In(Next(s), u, v) then 1 else 0
  {
  }

  /** Sums that stay inside (-n, 2n) are reduced by at most one n. */
  lemma ModRange(y: int, n: int)
    requires n >= 1 && -n <= y < 2 * n
    ensures y % n == if y < 0 then y + n else if y >= n then y - n else y
  {
  }

  /** One step along an axis moves the offset from the anchor by that step,
      wherever the result lands near the shape. */
  lemma AxisStep(x: int, a: int, d: int, n: int, lo: int)
    requires 0 <= x < n && 0 <= a < n && -1 <= d <= 1 && (lo == 0 || lo == -1) && n >= 4 - lo
    ensures var w := Disp((x + d) % n, a, n);
            (lo <= w <= 1 || lo <= Disp(x, a, n) + d <= 1) ==> w == Disp(x, a, n) + d
  {
    WrapStep(x + d, n);
    ModRange(x - a, n);
    ModRange((x + d) % n - a, n);
  }

  /** The neighbour of (i, j) at offset d is live exactly when the plane
      neighbour of (i, j)'s offset belongs to the shape. */
  lemma PlacedNeighbor(s: Shape, R: int, C: int, r: int, c: int, i: int, j: int, d: (int, int))
    requires Fits(s, R, C) && 0 <= r < R && 0 <= c < C && 0 <= i < R && 0 <= j < C
    requires -1 <= d.0 <= 1 && -1 <= d.1 <= 1
    ensures CellAt(Placed(s, R, C, r, c), R, C, i, j, d)
         == if In(s, Disp(i, r, R) + d.0, Disp(j, c, C) + d.1) then 1 else 0
  {
    AxisStep(i, r, d.0, R, Lo(s));
    AxisStep(j, c, d.1, C, Lo(s));
  }

  /** A cell of a drawn shape has as many live neighbours as its offset has in
      the plane. */
  lemma PlacedNeighbors(s: Shape, R: int, C: int, r: int, c: int, i: int, j: int)
    requires Fits(s, R, C) && 0 <= r < R && 0 <= c < C && 0 <= i < R && 0 <= j < C
    ensures AliveNeighbors(Placed(s, R, C, r, c), R, C, i, j) == PlaneCount(s, Disp(i, r, R), Disp(j, c, C))
  {
    var g := Placed(s, R, C, r, c);
    AliveNeighborsIsToroidal(g, R, C, i, j);
    ToroidalNeighborsExpanded(g, R, C, i, j);
    PlacedNeighbor(s, R, C, r, c, i, j, (-1, -1));
    PlacedNeighbor(s, R, C, r, c, i, j, (-1, 0));
    PlacedNeighbor(s, R, C, r, c, i, j, (-1, 1));
    PlacedNeighbor(s, R, C, r, c, i, j, (0, -1));
    PlacedNeighbor(s, R, C, r, c, i, j, (0, 1));
    PlacedNeighbor(s, R, C, r, c, i, j, (1, -1));
    PlacedNeighbor(s, R, C, r, c, i, j, (1, 0));
    PlacedNeighbor(s, R, C, r, c, i, j, (1, 1));
  }

  /** On a torus the shape fits, one generation of the drawn shape is the
      next shape drawn at the same anchor. */
  lemma PlacedStep(s: Shape, R: int, C: int, r: int, c: int)
    requires Fits(s, R, C) && 0 <= r < R && 0 <= c < C
    ensures NextGeneration(Placed(s, R, C, r, c), R, C) == Placed(Next(s), R, C, r, c)
  {
    var g := Placed(s, R, C, r, c);
    var t := Placed(Next(s), R, C, r, c);
    forall i, j | 0 <= i < R && 0 <= j < C
      ensures NextCell(g, R, C, i, j) == t[i][j]
    {
      PlacedNeighbors(s, R, C, r, c, i, j);
      PlaneStep(s, Disp(i, r, R), Disp(j, c, C));
    }
    GenerationFromCells(g, R, C, t);
  }

  /** The anchor's own offset is (0, 0), so the anchor cell is live. */
  lemma AnchorIsLive(s: Shape, R: int, C: int, r: int, c: int)
    requires R >= 1 && C >= 1 && 0 <= r < R && 0 <= c < C
    ensures Placed(s, R, C, r, c)[r][c] == 1
  {
  }

  /** The block is a still life on every torus at least 4 x 4. */
  lemma BlockIsStill(R: int, C: int, r: int, c: int)
    requires R >= 4 && C >= 4 && 0 <= r < R && 0 <= c < C
    ensures NextGeneration(Placed(Block, R, C, r, c), R, C) == Placed(Block, R, C, r, c)
  {
    PlacedStep(Block, R, C, r, c);
  }

  /** The horizontal blinker turns vertical on every torus at least 5 x 5. */
  lemma HorizontalToVertical(R: int, C: int, r: int, c: int)
    requires R >= 5 && C >= 5 && 0 <= r < R && 0 <= c < C
    ensures NextGeneration(Placed(Horizontal, R, C, r, c), R, C) == Placed(Vertical, R, C, r, c)
  {
    PlacedStep(Horizontal, R, C, r, c);
  }

  /** The vertical blinker turns horizontal on every torus at least 5 x 5. */
  lemma VerticalToHorizontal(R: int, C: int, r: int, c: int)
    requires R >= 5 && C >= 5 && 0 <= r < R && 0 <= c < C
    ensures NextGeneration(Placed(Vertical, R, C, r, c), R, C) == Placed(Horizontal, R, C, r, c)
  {
    PlacedStep(Vertical, R, C, r, c);
  }

  /** The blinker returns after two generations and its two phases differ:
      the cell below the anchor is live only in the vertical phase. */
  lemma BlinkerHasPeriodTwo(R: int, C: int, r: int, c: int)
    requires R >= 5 && C >= 5 && 0 <= r < R && 0 <= c < C
    ensures NextGeneration(NextGeneration(Placed(Horizontal, R, C, r, c), R, C), R, C)
         == Placed(Horizontal, R, C, r, c)
    ensures NextGeneration(Placed(Horizontal, R, C, r, c), R, C) != Placed(Horizontal, R, C, r, c)
  {
    HorizontalToVertical(R, C, r, c);
    VerticalToHorizontal(R, C, r, c);
    AxisStep(r, r, 1, R, -1);
    var below := (r + 1) % R;
    assert Disp(below, r, R) == 1 && Disp(c, c, C) == 0;
    assert Placed(Vertical, R, C, r, c)[below][c] != Placed(Horizontal, R, C, r, c)[below][c];
  }

  /** Neither phase of the blinker is extinct, so playing it never stops by
      itself. */
  lemma BlinkerNeverExtinct(R: int, C: int, r: int, c: int)
    requires R >= 5 && C >= 5 && 0 <= r < R && 0 <= c < C
    ensures Population(Placed(Horizontal, R, C, r, c)) != 0
    ensures Population(Placed(Vertical, R, C, r, c)) != 0
  {
    AnchorIsLive(Horizontal, R, C, r, c);
    PopulationZero(Placed(Horizontal, R, C, r, c));
    AnchorIsLive(Vertical, R, C, r, c);
    PopulationZero(Placed(Vertical, R, C, r, c));
  }
}
