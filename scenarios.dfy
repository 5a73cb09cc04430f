/// Small patterns whose behaviour under one step of the rule is known: a
/// lone live cell, the 2 by 2 block and the period-2 blinker.
module Scenarios {
  import opened Grid
  import opened Engine

  // ---------------------------------------------------------------------
  // A single live cell
  // ---------------------------------------------------------------------

  /// A width by height grid whose only live cell is (row, col).
  function LoneCell(width: nat, height: nat, row: nat, col: nat): (g: seq<bool>)
    requires row < height && col < width
    ensures |g| == width * height
    ensures forall i :: 0 <= i < |g| ==> (g[i] <==> i == Index(width, row, col))
  {
    IndexInRange(width, height, row, col);
    Cleared(width * height)[Index(width, row, col) := true]
  }

  /// Clearing a grid and toggling one cell leaves that cell alone alive.
  lemma ToggledOnCleared(width: nat, height: nat, row: nat, col: nat)
    requires row < height && col < width
    ensures Index(width, row, col) < width * height
    ensures Flipped(Cleared(width * height), Index(width, row, col)) == LoneCell(width, height, row, col)
  {
    IndexInRange(width, height, row, col);
  }

  /// Within two steps in each direction, the only live cell the lone cell's
  /// grid holds is the cell itself.
  lemma LoneCellAt(width: nat, height: nat, row: nat, col: nat, dr: int, dc: int)
    requires 3 <= width && 3 <= height && row < height && col < width
    requires -2 <= dr <= 2 && -2 <= dc <= 2
    ensures LoneCell(width, height, row, col)[TorusIndex(width, height, row, col, dr, dc)]
        <==> dr == 0 && dc == 0
  {
    WrapIsModular(row, height);
    WrapIsModular(col, width);
    if dr != 0 || dc != 0 {
      TorusIndexDistinct(width, height, row, col, dr, dc, 0, 0);
    }
  }

  /// A lone live cell has no live neighbour.
  lemma LoneCellIsolated(width: nat, height: nat, row: nat, col: nat)
    requires 3 <= width && 3 <= height && row < height && col < width
    ensures NeighborCount(LoneCell(width, height, row, col), width, height, row, col) == 0
  {
    var g := LoneCell(width, height, row, col);
    NeighborCountIsTorusCount(g, width, height, row, col);
    LoneCellAt(width, height, row, col, -1, -1);
    LoneCellAt(width, height, row, col, -1, 0);
    LoneCellAt(width, height, row, col, -1, 1);
    LoneCellAt(width, height, row, col, 0, -1);
    LoneCellAt(width, height, row, col, 0, 1);
    LoneCellAt(width, height, row, col, 1, -1);
    LoneCellAt(width, height, row, col, 1, 0);
    LoneCellAt(width, height, row, col, 1, 1);
  }

  /// Seen from the neighbour (dr, dc) away, the lone cell sits at offset
  /// (-dr, -dc) and nowhere else.
  lemma LoneCellSeenFrom(width: nat, height: nat, row: nat, col: nat, dr: int, dc: int, a: int, b: int)
    requires 3 <= width && 3 <= height && row < height && col < width
    requires -1 <= dr <= 1 && -1 <= dc <= 1 && -1 <= a <= 1 && -1 <= b <= 1
    ensures LoneCell(width, height, row, col)[TorusIndex(width, height, (row + dr) % height, (col + dc) % width, a, b)]
        <==> a == -dr && b == -dc
  {
    TorusIndexShift(width, height, row, col, dr, dc, a, b);
    LoneCellAt(width, height, row, col, dr + a, dc + b);
  }

  /// Each of the eight torus neighbours of a lone live cell has exactly one
  /// live neighbour.
  lemma LoneCellNeighbour(width: nat, height: nat, row: nat, col: nat, dr: int, dc: int)
    requires 3 <= width && 3 <= height && row < height && col < width
    requires -1 <= dr <= 1 && -1 <= dc <= 1 && (dr != 0 || dc != 0)
    ensures NeighborCount(LoneCell(width, height, row, col), width, height, (row + dr) % height, (col + dc) % width) == 1
  {
    var g := LoneCell(width, height, row, col);
    var r, c := (row + dr) % height, (col + dc) % width;
    NeighborCountIsTorusCount(g, width, height, r, c);
    LoneCellSeenFrom(width, height, row, col, dr, dc, -1, -1);
    LoneCellSeenFrom(width, height, row, col, dr, dc, -1, 0);
    LoneCellSeenFrom(width, height, row, col, dr, dc, -1, 1);
    LoneCellSeenFrom(width, height, row, col, dr, dc, 0, -1);
    LoneCellSeenFrom(width, height, row, col, dr, dc, 0, 1);
    LoneCellSeenFrom(width, height, row, col, dr, dc, 1, -1);
    LoneCellSeenFrom(width, height, row, col, dr, dc, 1, 0);
    LoneCellSeenFrom(width, height, row, col, dr, dc, 1, 1);
  }

  /// One tick later the lone cell has died of underpopulation.
  lemma LoneCellStarves(width: nat, height: nat, row: nat, col: nat)
    requires 3 <= width && 3 <= height && row < height && col < width
    ensures Index(width, row, col) < width * height
    ensures !NextGeneration(LoneCell(width, height, row, col), width, height)[Index(width, row, col)]
  {
    NextGenerationAt(LoneCell(width, height, row, col), width, height, row, col);
    LoneCellIsolated(width, height, row, col);
  }

  /// One tick later no neighbour of the lone cell has been born.
  lemma LoneCellNeighbourUnborn(width: nat, height: nat, row: nat, col: nat, dr: int, dc: int)
    requires 3 <= width && 3 <= height && row < height && col < width
    requires -1 <= dr <= 1 && -1 <= dc <= 1 && (dr != 0 || dc != 0)
    ensures !NextGeneration(LoneCell(width, height, row, col), width, height)[TorusIndex(width, height, row, col, dr, dc)]
  {
    var g := LoneCell(width, height, row, col);
    NextGenerationAt(g, width, height, (row + dr) % height, (col + dc) % width);
    LoneCellAt(width, height, row, col, dr, dc);
    LoneCellNeighbour(width, height, row, col, dr, dc);
  }

  /// One tick later the lone cell and all eight of its neighbours are dead.
  lemma LoneCellDies(width: nat, height: nat, row: nat, col: nat, dr: int, dc: int)
    requires 3 <= width && 3 <= height && row < height && col < width
    requires -1 <= dr <= 1 && -1 <= dc <= 1
    ensures !NextGeneration(LoneCell(width, height, row, col), width, height)[TorusIndex(width, height, row, col, dr, dc)]
  {
    if dr == 0 && dc == 0 {
      WrapIsModular(row, height);
      WrapIsModular(col, width);
      LoneCellStarves(width, height, row, col);
    } else {
      LoneCellNeighbourUnborn(width, height, row, col, dr, dc);
    }
  }

  // ---------------------------------------------------------------------
  // The block, a still life
  // ---------------------------------------------------------------------

  /// Row r of a grid four cells wide reads a, b, c, d from left to right.
  predicate Row4(g: seq<bool>, r: nat, a: bool, b: bool, c: bool, d: bool)
    requires 4 * r + 4 <= |g|
  {
    g[4 * r] == a && g[4 * r + 1] == b && g[4 * r + 2] == c && g[4 * r + 3] == d
  }

  /// The 4 by 4 grid holding a 2 by 2 block in its middle.
  predicate IsBlock(g: seq<bool>) {
    |g| == 16
    && Row4(g, 0, false, false, false, false)
    && Row4(g, 1, false, true, true, false)
    && Row4(g, 2, false, true, true, false)
    && Row4(g, 3, false, false, false, false)
  }

  /// Once a cell's neighbour count is known, its next state is the rule
  /// applied to that number.
  lemma StepWithCount(cells: seq<bool>, width: nat, height: nat, row: nat, col: nat, n: nat)
    requires row < height && col < width && width * height <= |cells|
    requires NeighborCount(cells, width, height, row, col) == n
    ensures Index(width, row, col) < width * height
    ensures NextGeneration(cells, width, height)[Index(width, row, col)] == Rule(cells[Index(width, row, col)], n)
  {
    NextGenerationAt(cells, width, height, row, col);
  }

  // Row by row, the block's grid one tick later: each cell's neighbour
  // count, then the rule applied to it.
  lemma BlockRow0(g: seq<bool>)
    requires IsBlock(g)
    ensures Row4(NextGeneration(g, 4, 4), 0, false, false, false, false)
  {
    StepWithCount(g, 4, 4, 0, 0, 1); StepWithCount(g, 4, 4, 0, 1, 2);
    StepWithCount(g, 4, 4, 0, 2, 2); StepWithCount(g, 4, 4, 0, 3, 1);
  }

  lemma BlockRow1(g: seq<bool>)
    requires IsBlock(g)
    ensures Row4(NextGeneration(g, 4, 4), 1, false, true, true, false)
  {
    StepWithCount(g, 4, 4, 1, 0, 2); StepWithCount(g, 4, 4, 1, 1, 3);
    StepWithCount(g, 4, 4, 1, 2, 3); StepWithCount(g, 4, 4, 1, 3, 2);
  }

  lemma BlockRow2(g: seq<bool>)
    requires IsBlock(g)
    ensures Row4(NextGeneration(g, 4, 4), 2, false, true, true, false)
  {
    StepWithCount(g, 4, 4, 2, 0, 2); StepWithCount(g, 4, 4, 2, 1, 3);
    StepWithCount(g, 4, 4, 2, 2, 3); StepWithCount(g, 4, 4, 2, 3, 2);
  }

  lemma BlockRow3(g: seq<bool>)
    requires IsBlock(g)
    ensures Row4(NextGeneration(g, 4, 4), 3, false, false, false, false)
  {
    StepWithCount(g, 4, 4, 3, 0, 1); StepWithCount(g, 4, 4, 3, 1, 2);
    StepWithCount(g, 4, 4, 3, 2, 2); StepWithCount(g, 4, 4, 3, 3, 1);
  }

  /// The block is a still life: one tick leaves it as it is.
  lemma BlockIsStill(g: seq<bool>)
    requires IsBlock(g)
    ensures IsBlock(NextGeneration(g, 4, 4))
  {
    BlockRow0(g);
    BlockRow1(g);
    BlockRow2(g);
    BlockRow3(g);
  }

  // ---------------------------------------------------------------------
  // The blinker, an oscillator of period 2
  // ---------------------------------------------------------------------

  /// Row r of a grid five cells wide reads a, b, c, d, e from left to right.
  predicate Row5(g: seq<bool>, r: nat, a: bool, b: bool, c: bool, d: bool, e: bool)
    requires 5 * r + 5 <= |g|
  {
    g[5 * r] == a && g[5 * r + 1] == b && g[5 * r + 2] == c && g[5 * r + 3] == d && g[5 * r + 4] == e
  }

  /// The 5 by 5 grid holding three live cells across its middle row.
  predicate IsHorizontalBlinker(g: seq<bool>) {
    |g| == 25
    && Row5(g, 0, false, false, false, false, false)
    && Row5(g, 1, false, false, false, false, false)
    && Row5(g, 2, false, true, true, true, false)
    && Row5(g, 3, false, false, false, false, false)
    && Row5(g, 4, false, false, false, false, false)
  }

  /// The 5 by 5 grid holding three live cells down its middle column.
  predicate IsVerticalBlinker(g: seq<bool>) {
    |g| == 25
    && Row5(g, 0, false, false, false, false, false)
    && Row5(g, 1, false, false, true, false, false)
    && Row5(g, 2, false, false, true, false, false)
    && Row5(g, 3, false, false, true, false, false)
    && Row5(g, 4, false, false, false, false, false)
  }

  // Row by row, the horizontal blinker one tick later.

  lemma HorizontalRow0(g: seq<bool>)
    requires IsHorizontalBlinker(g)
    ensures Row5(NextGeneration(g, 5, 5), 0, false, false, false, false, false)
  {
    StepWithCount(g, 5, 5, 0, 0, 0); StepWithCount(g, 5, 5, 0, 1, 0); StepWithCount(g, 5, 5, 0, 2, 0);
    StepWithCount(g, 5, 5, 0, 3, 0); StepWithCount(g, 5, 5, 0, 4, 0);
  }

  lemma HorizontalRow1(g: seq<bool>)
    requires IsHorizontalBlinker(g)
    ensures Row5(NextGeneration(g, 5, 5), 1, false, false, true, false, false)
  {
    StepWithCount(g, 5, 5, 1, 0, 1); StepWithCount(g, 5, 5, 1, 1, 2); StepWithCount(g, 5, 5, 1, 2, 3);
    StepWithCount(g, 5, 5, 1, 3, 2); StepWithCount(g, 5, 5, 1, 4, 1);
  }

  lemma HorizontalRow2(g: seq<bool>)
    requires IsHorizontalBlinker(g)
    ensures Row5(NextGeneration(g, 5, 5), 2, false, false, true, false, false)
  {
    StepWithCount(g, 5, 5, 2, 0, 1); StepWithCount(g, 5, 5, 2, 1, 1); StepWithCount(g, 5, 5, 2, 2, 2);
    StepWithCount(g, 5, 5, 2, 3, 1); StepWithCount(g, 5, 5, 2, 4, 1);
  }

  lemma HorizontalRow3(g: seq<bool>)
    requires IsHorizontalBlinker(g)
    ensures Row5(NextGeneration(g, 5, 5), 3, false, false, true, false, false)
  {
    StepWithCount(g, 5, 5, 3, 0, 1); StepWithCount(g, 5, 5, 3, 1, 2); StepWithCount(g, 5, 5, 3, 2, 3);
    StepWithCount(g, 5, 5, 3, 3, 2); StepWithCount(g, 5, 5, 3, 4, 1);
  }

  lemma HorizontalRow4(g: seq<bool>)
    requires IsHorizontalBlinker(g)
    ensures Row5(NextGeneration(g, 5, 5), 4, false, false, false, false, false)
  {
    StepWithCount(g, 5, 5, 4, 0, 0); StepWithCount(g, 5, 5, 4, 1, 0); StepWithCount(g, 5, 5, 4, 2, 0);
    StepWithCount(g, 5, 5, 4, 3, 0); StepWithCount(g, 5, 5, 4, 4, 0);
  }

  // Row by row, the vertical blinker one tick later.

  lemma VerticalRow0(g: seq<bool>)
    requires IsVerticalBlinker(g)
    ensures Row5(NextGeneration(g, 5, 5), 0, false, false, false, false, false)
  {
    StepWithCount(g, 5, 5, 0, 0, 0); StepWithCount(g, 5, 5, 0, 1, 1); StepWithCount(g, 5, 5, 0, 2, 1);
    StepWithCount(g, 5, 5, 0, 3, 1); StepWithCount(g, 5, 5, 0, 4, 0);
  }

  lemma VerticalRow1(g: seq<bool>)
    requires IsVerticalBlinker(g)
    ensures Row5(NextGeneration(g, 5, 5), 1, false, false, false, false, false)
  {
    StepWithCount(g, 5, 5, 1, 0, 0); StepWithCount(g, 5, 5, 1, 1, 2); StepWithCount(g, 5, 5, 1, 2, 1);
    StepWithCount(g, 5, 5, 1, 3, 2); StepWithCount(g, 5, 5, 1, 4, 0);
  }

  lemma VerticalRow2(g: seq<bool>)
    requires IsVerticalBlinker(g)
    ensures Row5(NextGeneration(g, 5, 5), 2, false, true, true, true, false)
  {
    StepWithCount(g, 5, 5, 2, 0, 0); StepWithCount(g, 5, 5, 2, 1, 3); StepWithCount(g, 5, 5, 2, 2, 2);
    StepWithCount(g, 5, 5, 2, 3, 3); StepWithCount(g, 5, 5, 2, 4, 0);
  }

  lemma VerticalRow3(g: seq<bool>)
    requires IsVerticalBlinker(g)
    ensures Row5(NextGeneration(g, 5, 5), 3, false, false, false, false, false)
  {
    StepWithCount(g, 5, 5, 3, 0, 0); StepWithCount(g, 5, 5, 3, 1, 2); StepWithCount(g, 5, 5, 3, 2, 1);
    StepWithCount(g, 5, 5, 3, 3, 2); StepWithCount(g, 5, 5, 3, 4, 0);
  }

  lemma VerticalRow4(g: seq<bool>)
    requires IsVerticalBlinker(g)
    ensures Row5(NextGeneration(g, 5, 5), 4, false, false, false, false, false)
  {
    StepWithCount(g, 5, 5, 4, 0, 0); StepWithCount(g, 5, 5, 4, 1, 1); StepWithCount(g, 5, 5, 4, 2, 1);
    StepWithCount(g, 5, 5, 4, 3, 1); StepWithCount(g, 5, 5, 4, 4, 0);
  }

  /// One tick turns the horizontal blinker into the vertical one.
  lemma BlinkerTurns(g: seq<bool>)
    requires IsHorizontalBlinker(g)
    ensures IsVerticalBlinker(NextGeneration(g, 5, 5))
  {
    HorizontalRow0(g);
    HorizontalRow1(g);
    HorizontalRow2(g);
    HorizontalRow3(g);
    HorizontalRow4(g);
  }

  /// One tick turns the vertical blinker back into the horizontal one.
  lemma BlinkerTurnsBack(g: seq<bool>)
    requires IsVerticalBlinker(g)
    ensures IsHorizontalBlinker(NextGeneration(g, 5, 5))
  {
    VerticalRow0(g);
    VerticalRow1(g);
    VerticalRow2(g);
    VerticalRow3(g);
    VerticalRow4(g);
  }

  /// The blinker has period 2: two ticks restore the horizontal bar.
  lemma BlinkerPeriodTwo(g: seq<bool>)
    requires IsHorizontalBlinker(g)
    ensures IsVerticalBlinker(NextGeneration(g, 5, 5))
    ensures IsHorizontalBlinker(NextGeneration(NextGeneration(g, 5, 5), 5, 5))
  {
    BlinkerTurns(g);
    BlinkerTurnsBack(NextGeneration(g, 5, 5));
  }
}
