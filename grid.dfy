/// The pure part of the engine: the row-major index mapping, the toroidal
/// neighbour count and the B3/S23 transition rule, all over a snapshot of
/// the cell bits (`seq<bool>`) together with the grid's width and height.
module Grid {

  /// `u32` and, on the 32-bit wasm target, `usize` hold values below 2^32.
  const U32_LIMIT: int := 0x1_0000_0000

  predicate IsU32(x: int) {
    0 <= x < U32_LIMIT
  }

  // ---------------------------------------------------------------------
  // Division with remainder
  // ---------------------------------------------------------------------

  /// A nonzero multiple of d is at least d away from zero.
  lemma MultipleBounds(k: int, d: int)
    requires d > 0
    ensures k >= 1 ==> k * d >= d
    ensures k <= -1 ==> k * d <= -d
  {
  }

  /// Any decomposition x == q * d + m with 0 <= m < d is the one `/` and `%`
  /// compute.
  lemma DivModUnique(x: int, d: int, q: int, m: int)
    requires d > 0 && 0 <= m < d && x == q * d + m
    ensures x / d == q && x % d == m
  {
    var q', m' := x / d, x % d;
    assert x == q' * d + m';
    assert (q - q') * d == m' - m;
    MultipleBounds(q - q', d);
  }

  /// Two numbers closer together than d that leave the same remainder are equal.
  lemma SameRemainderClose(x: int, y: int, d: int)
    requires d > 0 && x % d == y % d && -d < x - y < d
    ensures x == y
  {
    var qx, qy := x / d, y / d;
    assert x == qx * d + x % d && y == qy * d + y % d;
    assert x - y == (qx - qy) * d;
    MultipleBounds(qx - qy, d);
  }

  // ---------------------------------------------------------------------
  // Index mapping (get_index, get_row_index)
  // ---------------------------------------------------------------------

  /// Flat index of (row, col) in a row-major buffer of rows `width` bits long.
  function Index(width: nat, row: nat, col: nat): nat {
    row * width + col
  }

  /// Flat index of the first cell of `row`.
  function RowIndex(width: nat, row: nat): nat {
    row * width
  }

  /// A cell inside the grid has a flat index below width * height.
  lemma IndexInRange(width: nat, height: nat, row: nat, col: nat)
    requires row < height && col < width
    ensures Index(width, row, col) < width * height
  {
    assert row * width <= (height - 1) * width;
  }

  /// The first `row` rows of the grid, row <= height, fit in width * height bits.
  lemma RowsFit(width: nat, height: nat, row: nat)
    requires row <= height
    ensures row * width <= width * height
    ensures (row + 1) * width == row * width + width
  {
  }

  /// Row-major round trip from a cell: its flat index divided by the width is
  /// its row and the remainder its column; `get_row_index(row)` is the index
  /// of the row's first cell.
  lemma IndexRoundTrip(width: nat, row: nat, col: nat)
    requires col < width
    ensures Index(width, row, col) / width == row && Index(width, row, col) % width == col
    ensures RowIndex(width, row) == Index(width, row, 0)
  {
    DivModUnique(Index(width, row, col), width, row, col);
  }

  /// Row-major round trip from a flat index: every index below width * height
  /// is the index of the cell (i / width, i % width) of the grid.
  lemma CellOfIndex(width: nat, height: nat, i: nat)
    requires i < width * height
    ensures i / width < height && i % width < width && Index(width, i / width, i % width) == i
  {
    assert i == (i / width) * width + i % width;
  }

  /// Flat index of the cell dr rows and dc columns away from (row, col) on the
  /// torus: both coordinates are taken modulo the grid's size.
  function TorusIndex(width: nat, height: nat, row: int, col: int, dr: int, dc: int): (i: nat)
    requires width > 0 && height > 0
    ensures i < width * height
  {
    IndexInRange(width, height, (row + dr) % height, (col + dc) % width);
    Index(width, (row + dr) % height, (col + dc) % width)
  }

  /// Adding a whole number of periods does not change a remainder.
  lemma ModAddMultiple(x: int, q: int, n: int)
    requires n > 0
    ensures (x + q * n) % n == x % n
  {
    assert x == (x / n) * n + x % n;
    assert x + q * n == (x / n + q) * n + x % n;
    DivModUnique(x + q * n, n, x / n + q, x % n);
  }

  /// Reducing one summand first gives the same remainder.
  lemma ModOfSum(a: int, b: int, n: int)
    requires n > 0
    ensures (a % n + b) % n == (a + b) % n
  {
    assert a % n + b == (a + b) + (-(a / n)) * n;
    ModAddMultiple(a + b, -(a / n), n);
  }

  /// Shifting by s + n modulo n, in two reductions, is shifting by s.
  lemma ShiftedRemainder(s: int, x: int, n: int)
    requires n > 0
    ensures ((s + n) % n + x) % n == (x + s) % n
  {
    ModOfSum(s + n, x, n);
    assert s + n + x == (x + s) + 1 * n;
    ModAddMultiple(x + s, 1, n);
  }

  /// Two shifts of the same coordinate that differ by less than the period
  /// land on different rows (or columns).
  lemma ShiftsDiffer(x: int, s1: int, s2: int, n: int)
    requires n > 0 && s1 != s2 && -n < s1 - s2 < n
    ensures (x + s1) % n != (x + s2) % n
  {
    if (x + s1) % n == (x + s2) % n {
      SameRemainderClose(x + s1, x + s2, n);
    }
  }

  /// Two cells of the grid share a flat index only if they are the same cell.
  lemma IndexInjective(width: nat, r1: nat, c1: nat, r2: nat, c2: nat)
    requires c1 < width && c2 < width
    requires Index(width, r1, c1) == Index(width, r2, c2)
    ensures r1 == r2 && c1 == c2
  {
    DivModUnique(Index(width, r1, c1), width, r1, c1);
    DivModUnique(Index(width, r2, c2), width, r2, c2);
  }

  /// Two different offsets from the same cell, each pair of components
  /// closer than the grid's size, reach different cells of the torus.
  lemma TorusIndexDistinct(width: nat, height: nat, row: int, col: int, dr1: int, dc1: int, dr2: int, dc2: int)
    requires width > 0 && height > 0
    requires dr1 != dr2 || dc1 != dc2
    requires dr1 - dr2 < height && dr2 - dr1 < height && dc1 - dc2 < width && dc2 - dc1 < width
    ensures TorusIndex(width, height, row, col, dr1, dc1) != TorusIndex(width, height, row, col, dr2, dc2)
  {
    if dr1 != dr2 {
      ShiftsDiffer(row, dr1, dr2, height);
    } else {
      ShiftsDiffer(col, dc1, dc2, width);
    }
    var r1, c1 := (row + dr1) % height, (col + dc1) % width;
    var r2, c2 := (row + dr2) % height, (col + dc2) % width;
    if Index(width, r1, c1) == Index(width, r2, c2) {
      IndexInjective(width, r1, c1, r2, c2);
    }
  }

  /// Offsets compose: stepping (a, b) from the cell (dr, dc) away is
  /// stepping (dr + a, dc + b) from the start.
  lemma TorusIndexShift(width: nat, height: nat, row: int, col: int, dr: int, dc: int, a: int, b: int)
    requires width > 0 && height > 0
    ensures TorusIndex(width, height, (row + dr) % height, (col + dc) % width, a, b)
         == TorusIndex(width, height, row, col, dr + a, dc + b)
  {
    ModOfSum(row + dr, a, height);
    ModOfSum(col + dc, b, width);
    assert row + dr + a == row + (dr + a);
    assert col + dc + b == col + (dc + b);
  }

  // ---------------------------------------------------------------------
  // Neighbour oracle (live_neighbor_count)
  // ---------------------------------------------------------------------

  /// The previous coordinate along an axis of n cells, wrapping from the
  /// first to the last (north of a row, west of a column).
  function Prev(x: nat, n: nat): nat
    requires x < n
  {
    if x == 0 then n - 1 else x - 1
  }

  /// The next coordinate along an axis of n cells, wrapping from the last to
  /// the first (south of a row, east of a column).
  function Next(x: nat, n: nat): nat
    requires x < n
  {
    if x == n - 1 then 0 else x + 1
  }

  /// The wrapped step to either side is the toroidal (Euclidean) remainder.
  lemma WrapIsModular(x: nat, n: nat)
    requires x < n
    ensures Prev(x, n) == (x - 1) % n
    ensures Next(x, n) == (x + 1) % n
    ensures x == x % n
  {
    if x == 0 {
      DivModUnique(x - 1, n, -1, n - 1);
    } else {
      DivModUnique(x - 1, n, 0, x - 1);
    }
    if x == n - 1 {
      DivModUnique(x + 1, n, 1, 0);
    } else {
      DivModUnique(x + 1, n, 0, x + 1);
    }
    DivModUnique(x, n, 0, x);
  }

  /// A bit as a count: 1 when set, 0 when clear (`bool as u8`).
  function Bit(b: bool): nat {
    if b then 1 else 0
  }

  /// The bit of cell (row, col).
  function At(cells: seq<bool>, width: nat, height: nat, row: nat, col: nat): bool
    requires row < height && col < width && width * height <= |cells|
  {
    IndexInRange(width, height, row, col);
    cells[Index(width, row, col)]
  }

  /// Live neighbours of (row, col): north-west, north, north-east, west, east,
  /// south-west, south, south-east, each wrapped around the grid's edges.
  function NeighborCount(cells: seq<bool>, width: nat, height: nat, row: nat, col: nat): (n: nat)
    requires row < height && col < width && width * height <= |cells|
    ensures n <= 8
  {
    var north := Prev(row, height);
    var south := Next(row, height);
    var west := Prev(col, width);
    var east := Next(col, width);
    Bit(At(cells, width, height, north, west)) + Bit(At(cells, width, height, north, col))
      + Bit(At(cells, width, height, north, east)) + Bit(At(cells, width, height, row, west))
      + Bit(At(cells, width, height, row, east)) + Bit(At(cells, width, height, south, west))
      + Bit(At(cells, width, height, south, col)) + Bit(At(cells, width, height, south, east))
  }

  /// Reference definition: the number of live cells among the eight cells at
  /// offsets (dr, dc) in {-1, 0, 1} x {-1, 0, 1}, (0, 0) excluded, from
  /// (row, col), both coordinates taken modulo the grid's size.
  function TorusCount(cells: seq<bool>, width: nat, height: nat, row: nat, col: nat): nat
    requires row < height && col < width && width * height <= |cells|
  {
    Bit(cells[TorusIndex(width, height, row, col, -1, -1)]) + Bit(cells[TorusIndex(width, height, row, col, -1, 0)])
      + Bit(cells[TorusIndex(width, height, row, col, -1, 1)]) + Bit(cells[TorusIndex(width, height, row, col, 0, -1)])
      + Bit(cells[TorusIndex(width, height, row, col, 0, 1)]) + Bit(cells[TorusIndex(width, height, row, col, 1, -1)])
      + Bit(cells[TorusIndex(width, height, row, col, 1, 0)]) + Bit(cells[TorusIndex(width, height, row, col, 1, 1)])
  }

  /// The neighbour coordinate one step (-1, 0 or +1) from x, wrapped as
  /// `live_neighbor_count` wraps it.
  function Wrapped(x: nat, n: nat, delta: int): nat
    requires x < n && -1 <= delta <= 1
  {
    if delta == -1 then Prev(x, n) else if delta == 0 then x else Next(x, n)
  }

  /// The cell at torus offset (dr, dc) is the one the wrapped coordinates
  /// name.
  lemma TorusCellIsWrapped(cells: seq<bool>, width: nat, height: nat, row: nat, col: nat, dr: int, dc: int)
    requires row < height && col < width && width * height <= |cells|
    requires -1 <= dr <= 1 && -1 <= dc <= 1
    ensures cells[TorusIndex(width, height, row, col, dr, dc)]
         == At(cells, width, height, Wrapped(row, height, dr), Wrapped(col, width, dc))
  {
    WrapIsModular(row, height);
    WrapIsModular(col, width);
    assert (row + dr) % height == Wrapped(row, height, dr);
    assert (col + dc) % width == Wrapped(col, width, dc);
  }

  /// The neighbour count is the number of live cells on the torus at the eight
  /// Moore offsets (counted with multiplicity on grids narrower than 3).
  lemma NeighborCountIsTorusCount(cells: seq<bool>, width: nat, height: nat, row: nat, col: nat)
    requires row < height && col < width && width * height <= |cells|
    ensures NeighborCount(cells, width, height, row, col) == TorusCount(cells, width, height, row, col)
  {
    TorusCellIsWrapped(cells, width, height, row, col, -1, -1);
    TorusCellIsWrapped(cells, width, height, row, col, -1, 0);
    TorusCellIsWrapped(cells, width, height, row, col, -1, 1);
    TorusCellIsWrapped(cells, width, height, row, col, 0, -1);
    TorusCellIsWrapped(cells, width, height, row, col, 0, 1);
    TorusCellIsWrapped(cells, width, height, row, col, 1, -1);
    TorusCellIsWrapped(cells, width, height, row, col, 1, 0);
    TorusCellIsWrapped(cells, width, height, row, col, 1, 1);
  }

  // ---------------------------------------------------------------------
  // Rule evaluator (tick)
  // ---------------------------------------------------------------------

  /// The transition rule, arm by arm as the tick evaluates it.
  function Rule(alive: bool, n: nat): (next: bool)
    ensures next <==> (alive && (n == 2 || n == 3)) || (!alive && n == 3)
  {
    if alive && n < 2 then false
    else if alive && (n == 2 || n == 3) then true
    else if alive && n > 3 then false
    else if !alive && n == 3 then true
    else alive
  }

  /// The rule's verdict for cell (row, col), from the given generation alone.
  function NextCell(cells: seq<bool>, width: nat, height: nat, row: nat, col: nat): bool
    requires row < height && col < width && width * height <= |cells|
  {
    Rule(At(cells, width, height, row, col), NeighborCount(cells, width, height, row, col))
  }

  /// The verdicts for the first n cells of grid row `row`, left to right.
  function NextRow(cells: seq<bool>, width: nat, height: nat, row: nat, n: nat): (next: seq<bool>)
    requires row < height && n <= width && width * height <= |cells|
    ensures |next| == n
  {
    if n == 0 then []
    else NextRow(cells, width, height, row, n - 1) + [NextCell(cells, width, height, row, n - 1)]
  }

  /// The verdicts for the first m grid rows, top to bottom.
  function NextRows(cells: seq<bool>, width: nat, height: nat, m: nat): (next: seq<bool>)
    requires m <= height && width * height <= |cells|
    ensures |next| == m * width
  {
    if m == 0 then []
    else
      RowsFit(width, height, m - 1);
      NextRows(cells, width, height, m - 1) + NextRow(cells, width, height, m - 1, width)
  }

  /// The next generation of the grid's width * height cells, in row-major
  /// order.
  function NextGeneration(cells: seq<bool>, width: nat, height: nat): (next: seq<bool>)
    requires width * height <= |cells|
    ensures |next| == width * height
  {
    NextRows(cells, width, height, height)
  }

  /// Entry col of a row prefix that reaches it is that cell's verdict.
  lemma {:induction false} NextRowAt(cells: seq<bool>, width: nat, height: nat, row: nat, n: nat, col: nat)
    requires row < height && col < n <= width && width * height <= |cells|
    ensures NextRow(cells, width, height, row, n)[col] == NextCell(cells, width, height, row, col)
  {
    if col < n - 1 {
      NextRowAt(cells, width, height, row, n - 1, col);
    }
  }

  /// The flat index of (row, col) in the first m rows holds that cell's
  /// verdict.
  lemma {:induction false} NextRowsAt(cells: seq<bool>, width: nat, height: nat, m: nat, row: nat, col: nat)
    requires row < m <= height && col < width && width * height <= |cells|
    ensures Index(width, row, col) < m * width
    ensures NextRows(cells, width, height, m)[Index(width, row, col)] == NextCell(cells, width, height, row, col)
  {
    RowsFit(width, height, m - 1);
    IndexInRange(width, m, row, col);
    if row == m - 1 {
      NextRowAt(cells, width, height, row, width, col);
    } else {
      IndexInRange(width, m - 1, row, col);
      NextRowsAt(cells, width, height, m - 1, row, col);
    }
  }

  /// Cell (row, col) of the next generation is the rule applied to the cell's
  /// current state and its current neighbour count.
  lemma NextGenerationAt(cells: seq<bool>, width: nat, height: nat, row: nat, col: nat)
    requires row < height && col < width && width * height <= |cells|
    ensures Index(width, row, col) < width * height
    ensures NextGeneration(cells, width, height)[Index(width, row, col)]
         == Rule(cells[Index(width, row, col)], NeighborCount(cells, width, height, row, col))
  {
    NextRowsAt(cells, width, height, height, row, col);
  }

  /// The bit of a grid cell is the same in any buffer that agrees on the grid.
  lemma AtIgnoresTail(cells: seq<bool>, width: nat, height: nat, row: nat, col: nat)
    requires row < height && col < width && width * height <= |cells|
    ensures At(cells, width, height, row, col) == At(cells[..width * height], width, height, row, col)
  {
    IndexInRange(width, height, row, col);
  }

  lemma NeighborCountIgnoresTail(cells: seq<bool>, width: nat, height: nat, row: nat, col: nat)
    requires row < height && col < width && width * height <= |cells|
    ensures NeighborCount(cells, width, height, row, col)
         == NeighborCount(cells[..width * height], width, height, row, col)
  {
    var north, south := Prev(row, height), Next(row, height);
    var west, east := Prev(col, width), Next(col, width);
    AtIgnoresTail(cells, width, height, north, west);
    AtIgnoresTail(cells, width, height, north, col);
    AtIgnoresTail(cells, width, height, north, east);
    AtIgnoresTail(cells, width, height, row, west);
    AtIgnoresTail(cells, width, height, row, east);
    AtIgnoresTail(cells, width, height, south, west);
    AtIgnoresTail(cells, width, height, south, col);
    AtIgnoresTail(cells, width, height, south, east);
  }

  /// Bits stored past width * height never influence the next generation.
  lemma NextGenerationIgnoresTail(cells: seq<bool>, width: nat, height: nat)
    requires width * height <= |cells|
    ensures NextGeneration(cells, width, height)
         == NextGeneration(cells[..width * height], width, height)
  {
    var grid := cells[..width * height];
    forall i | 0 <= i < width * height
      ensures NextGeneration(cells, width, height)[i] == NextGeneration(grid, width, height)[i]
    {
      CellOfIndex(width, height, i);
      NextGenerationAt(cells, width, height, i / width, i % width);
      NextGenerationAt(grid, width, height, i / width, i % width);
      NeighborCountIgnoresTail(cells, width, height, i / width, i % width);
    }
  }
}
