/// The two pattern stamps: the stores `insert_glider_at_pos` and
/// `insert_pulsar_at_pos` make, in the order their loops make them, and what
/// the grid looks like once they are done.
module Patterns {
  import opened Grid
  import opened Writes

  // ---------------------------------------------------------------------
  // Glider
  // ---------------------------------------------------------------------

  /// The store made for row delta number a and column delta number b; the
  /// deltas run over [height - 1, 0, 1] and [width - 1, 0, 1], where the
  /// unsigned height - 1 (width - 1) plays the part of -1.
  function GliderWrite(width: nat, height: nat, row: nat, col: nat, a: nat, b: nat): BitWrite
    requires width > 0 && height > 0 && a < 3 && b < 3
  {
    var dRow: nat := [height - 1, 0, 1][a];
    var dCol: nat := [width - 1, 0, 1][b];
    var cellRow := (dRow + row) % height;
    var cellCol := (dCol + col) % width;
    var alive := (dRow == height - 1 && dCol == 0) || (dRow == 0 && dCol == width - 1) || dRow == 1;
    BitWrite(Index(width, cellRow, cellCol), alive)
  }

  /// The three stores for row delta number a, column delta by column delta.
  function GliderRowStores(width: nat, height: nat, row: nat, col: nat, a: nat): (ws: seq<BitWrite>)
    requires width > 0 && height > 0 && a < 3
    ensures |ws| == 3
  {
    [GliderWrite(width, height, row, col, a, 0),
     GliderWrite(width, height, row, col, a, 1),
     GliderWrite(width, height, row, col, a, 2)]
  }

  /// All nine stores, row delta by row delta.
  function GliderWrites(width: nat, height: nat, row: nat, col: nat): (ws: seq<BitWrite>)
    requires width > 0 && height > 0
    ensures |ws| == 9
  {
    GliderRowStores(width, height, row, col, 0)
      + GliderRowStores(width, height, row, col, 1)
      + GliderRowStores(width, height, row, col, 2)
  }

  /// Store b of row delta number a, written with the deltas (dRow, dCol) it
  /// stands for: the wrapped cell and the source's alive condition.
  lemma GliderRowStoreIs(width: nat, height: nat, row: nat, col: nat, a: nat, b: nat, dRow: nat, dCol: nat)
    requires width > 0 && height > 0 && a < 3 && b < 3
    requires dRow == [height - 1, 0, 1][a] && dCol == [width - 1, 0, 1][b]
    ensures GliderRowStores(width, height, row, col, a)[b]
         == BitWrite(Index(width, (dRow + row) % height, (dCol + col) % width),
                     (dRow == height - 1 && dCol == 0) || (dRow == 0 && dCol == width - 1) || dRow == 1)
  {
    assert GliderRowStores(width, height, row, col, a)[b] == GliderWrite(width, height, row, col, a, b);
  }

  /// Store k of the nine is the one for row delta k / 3 and column delta k % 3.
  lemma GliderStoreAt(width: nat, height: nat, row: nat, col: nat, k: nat)
    requires width > 0 && height > 0 && k < 9
    ensures GliderWrites(width, height, row, col)[k] == GliderWrite(width, height, row, col, k / 3, k % 3)
  {
    DivModUnique(k, 3, k / 3, k % 3);
  }

  /// The first 3 * (a + 1) stores are the first 3 * a and the stores of row
  /// delta a.
  lemma GliderRowsPrefix(width: nat, height: nat, row: nat, col: nat, a: nat)
    requires width > 0 && height > 0 && a < 3
    ensures GliderWrites(width, height, row, col)[..3 * a + 3]
         == GliderWrites(width, height, row, col)[..3 * a] + GliderRowStores(width, height, row, col, a)
  {
  }

  /// The glider drawn around its anchor:
  ///   . # .
  ///   # . .
  ///   # # #
  predicate GliderShape(dr: int, dc: int) {
    (dr == -1 && dc == 0) || (dr == 0 && dc == -1) || dr == 1
  }

  /// Index i is none of the nine cells of the 3 by 3 block around (row, col).
  predicate OutsideGlider(width: nat, height: nat, row: nat, col: nat, i: nat)
    requires width > 0 && height > 0
  {
    forall dr, dc :: -1 <= dr <= 1 && -1 <= dc <= 1 ==> i != TorusIndex(width, height, row, col, dr, dc)
  }

  /// Every glider store lands inside the grid.
  lemma GliderInBounds(width: nat, height: nat, row: nat, col: nat, len: nat)
    requires width > 0 && height > 0 && width * height <= len
    ensures InBounds(GliderWrites(width, height, row, col), len)
  {
    var ws := GliderWrites(width, height, row, col);
    forall k | 0 <= k < 9 ensures ws[k].index < len {
      GliderStoreAt(width, height, row, col, k);
      var dRow: nat := [height - 1, 0, 1][k / 3];
      var dCol: nat := [width - 1, 0, 1][k % 3];
      IndexInRange(width, height, (dRow + row) % height, (dCol + col) % width);
    }
  }

  /// On a grid at least 3 by 3, store (a, b) writes the glider's cell at
  /// delta (a - 1, b - 1) from the anchor, wrapped around the torus.
  lemma GliderWriteIs(width: nat, height: nat, row: nat, col: nat, a: nat, b: nat)
    requires width >= 3 && height >= 3 && a < 3 && b < 3
    ensures GliderWrite(width, height, row, col, a, b)
         == BitWrite(TorusIndex(width, height, row, col, a - 1, b - 1), GliderShape(a - 1, b - 1))
  {
    ModAddMultiple(row - 1, 1, height);
    ModAddMultiple(col - 1, 1, width);
  }

  /// The nine cells of the footprint are pairwise different on a grid at
  /// least 3 by 3.
  lemma GliderCellsDistinct(width: nat, height: nat, row: nat, col: nat, a: nat, b: nat, a2: nat, b2: nat)
    requires width >= 3 && height >= 3 && a < 3 && b < 3 && a2 < 3 && b2 < 3
    requires a != a2 || b != b2
    ensures TorusIndex(width, height, row, col, a - 1, b - 1)
         != TorusIndex(width, height, row, col, a2 - 1, b2 - 1)
  {
    TorusIndexDistinct(width, height, row, col, a - 1, b - 1, a2 - 1, b2 - 1);
  }

  /// On a grid at least 3 by 3, two different stores of the nine write to
  /// different flat indices.
  lemma GliderStoresDistinct(width: nat, height: nat, row: nat, col: nat, k: nat, j: nat)
    requires width >= 3 && height >= 3 && k < 9 && j < 9 && k != j
    ensures GliderWrites(width, height, row, col)[k].index != GliderWrites(width, height, row, col)[j].index
  {
    GliderStoreAt(width, height, row, col, k);
    GliderStoreAt(width, height, row, col, j);
    GliderWriteIs(width, height, row, col, k / 3, k % 3);
    GliderWriteIs(width, height, row, col, j / 3, j % 3);
    GliderCellsDistinct(width, height, row, col, k / 3, k % 3, j / 3, j % 3);
  }

  /// The store for offset (dr, dc) sits at position 3 * (dr + 1) + (dc + 1)
  /// and writes the glider's shape at that torus cell.
  lemma GliderStoreOf(width: nat, height: nat, row: nat, col: nat, dr: int, dc: int)
    requires width >= 3 && height >= 3 && -1 <= dr <= 1 && -1 <= dc <= 1
    ensures 3 * (dr + 1) + (dc + 1) < 9
    ensures GliderWrites(width, height, row, col)[3 * (dr + 1) + (dc + 1)]
         == BitWrite(TorusIndex(width, height, row, col, dr, dc), GliderShape(dr, dc))
  {
    var k := 3 * (dr + 1) + (dc + 1);
    DivModUnique(k, 3, dr + 1, dc + 1);
    GliderStoreAt(width, height, row, col, k);
    GliderWriteIs(width, height, row, col, dr + 1, dc + 1);
  }

  /// No store after position k writes to the index store k writes to.
  lemma GliderLaterStoresDiffer(width: nat, height: nat, row: nat, col: nat, k: nat)
    requires width >= 3 && height >= 3 && k < 9
    ensures forall j :: k < j < 9 ==>
      GliderWrites(width, height, row, col)[j].index != GliderWrites(width, height, row, col)[k].index
  {
    forall j | k < j < 9
      ensures GliderWrites(width, height, row, col)[j].index != GliderWrites(width, height, row, col)[k].index
    {
      GliderStoresDistinct(width, height, row, col, j, k);
    }
  }

  /// On a grid at least 3 by 3, the nine stores are the glider's cells in
  /// row-major order around the anchor.
  lemma GliderWritesAre(width: nat, height: nat, row: nat, col: nat)
    requires width >= 3 && height >= 3
    ensures forall k :: 0 <= k < 9 ==>
      GliderWrites(width, height, row, col)[k]
        == BitWrite(TorusIndex(width, height, row, col, k / 3 - 1, k % 3 - 1), GliderShape(k / 3 - 1, k % 3 - 1))
  {
    forall k | 0 <= k < 9
      ensures GliderWrites(width, height, row, col)[k]
        == BitWrite(TorusIndex(width, height, row, col, k / 3 - 1, k % 3 - 1), GliderShape(k / 3 - 1, k % 3 - 1))
    {
      GliderStoreAt(width, height, row, col, k);
      GliderWriteIs(width, height, row, col, k / 3, k % 3);
    }
  }

  /// On any non-empty grid, store (a, b) writes the torus cell at offset
  /// (a - 1, b - 1) from the anchor: h - 1 (w - 1) added modulo h (w) is a
  /// step back.
  lemma GliderIndexIs(width: nat, height: nat, row: nat, col: nat, a: nat, b: nat)
    requires width > 0 && height > 0 && a < 3 && b < 3
    ensures GliderWrite(width, height, row, col, a, b).index == TorusIndex(width, height, row, col, a - 1, b - 1)
  {
    ModAddMultiple(row - 1, 1, height);
    ModAddMultiple(col - 1, 1, width);
  }

  /// On any non-empty grid, a bit outside the 3 by 3 torus block keeps its
  /// value through the stamp.
  lemma GliderOutsideUnchanged(cells: seq<bool>, width: nat, height: nat, row: nat, col: nat, i: nat)
    requires width > 0 && height > 0 && width * height <= |cells|
    requires i < |cells| && OutsideGlider(width, height, row, col, i)
    ensures InBounds(GliderWrites(width, height, row, col), |cells|)
    ensures Apply(cells, GliderWrites(width, height, row, col))[i] == cells[i]
  {
    GliderInBounds(width, height, row, col, |cells|);
    var ws := GliderWrites(width, height, row, col);
    forall k | 0 <= k < 9 ensures ws[k].index != i {
      GliderStoreAt(width, height, row, col, k);
      GliderIndexIs(width, height, row, col, k / 3, k % 3);
      var dr, dc := k / 3 - 1, k % 3 - 1;
      assert -1 <= dr <= 1 && -1 <= dc <= 1;
      assert i != TorusIndex(width, height, row, col, dr, dc);
    }
    Untouched(cells, ws, i);
  }

  /// Cell (row + dr, col + dc), wrapped, ends up with the glider's shape.
  lemma GliderCellWritten(cells: seq<bool>, width: nat, height: nat, row: nat, col: nat, dr: int, dc: int)
    requires width >= 3 && height >= 3 && width * height <= |cells|
    requires -1 <= dr <= 1 && -1 <= dc <= 1
    ensures InBounds(GliderWrites(width, height, row, col), |cells|)
    ensures Apply(cells, GliderWrites(width, height, row, col))[TorusIndex(width, height, row, col, dr, dc)]
         == GliderShape(dr, dc)
  {
    GliderInBounds(width, height, row, col, |cells|);
    var k := 3 * (dr + 1) + (dc + 1);
    GliderStoreOf(width, height, row, col, dr, dc);
    GliderLaterStoresDiffer(width, height, row, col, k);
    LastStoreWins(cells, GliderWrites(width, height, row, col), k);
  }

  /// The glider stamp leaves every bit outside the wrapped 3 by 3 block
  /// around (row, col) as it was, on any non-empty grid; on a grid at least
  /// 3 by 3, where the block's nine cells are distinct, it overwrites the block
  /// with the glider's shape.
  lemma GliderFootprint(cells: seq<bool>, width: nat, height: nat, row: nat, col: nat)
    requires width > 0 && height > 0 && width * height <= |cells|
    ensures InBounds(GliderWrites(width, height, row, col), |cells|)
    ensures width >= 3 && height >= 3 ==> forall dr, dc :: -1 <= dr <= 1 && -1 <= dc <= 1 ==>
      Apply(cells, GliderWrites(width, height, row, col))[TorusIndex(width, height, row, col, dr, dc)]
        == GliderShape(dr, dc)
    ensures forall i :: 0 <= i < |cells| && OutsideGlider(width, height, row, col, i) ==>
      Apply(cells, GliderWrites(width, height, row, col))[i] == cells[i]
  {
    GliderInBounds(width, height, row, col, |cells|);
    if width >= 3 && height >= 3 {
      forall dr, dc | -1 <= dr <= 1 && -1 <= dc <= 1
        ensures Apply(cells, GliderWrites(width, height, row, col))[TorusIndex(width, height, row, col, dr, dc)]
             == GliderShape(dr, dc)
      {
        GliderCellWritten(cells, width, height, row, col, dr, dc);
      }
    }
    forall i | 0 <= i < |cells| && OutsideGlider(width, height, row, col, i)
      ensures Apply(cells, GliderWrites(width, height, row, col))[i] == cells[i]
    {
      GliderOutsideUnchanged(cells, width, height, row, col, i);
    }
  }

  // ---------------------------------------------------------------------
  // Pulsar
  // ---------------------------------------------------------------------

  /// The three kinds of template row: a horizontal bar row, a row crossing the
  /// vertical bars, and an empty row.
  const BarRow: seq<bool> :=
    [false, false, true, true, true, false, false, false, true, true, true, false, false]
  const SpokeRow: seq<bool> :=
    [true, false, false, false, false, true, false, true, false, false, false, false, true]
  const EmptyRow: seq<bool> :=
    [false, false, false, false, false, false, false, false, false, false, false, false, false]

  /// The 13 by 13 pulsar template, top row first.
  const PulsarTemplate: seq<seq<bool>> := [
    BarRow, EmptyRow, SpokeRow, SpokeRow, SpokeRow, BarRow, EmptyRow,
    BarRow, SpokeRow, SpokeRow, SpokeRow, EmptyRow, BarRow
  ]

  /// Thirteen template rows of thirteen bits each.
  lemma PulsarTemplateShape()
    ensures |PulsarTemplate| == 13
    ensures forall d :: 0 <= d < 13 ==> |PulsarTemplate[d]| == 13
  {
  }

  /// The pulsar drawn by rule: bars along template rows and columns
  /// {0, 5, 7, 12}, each covering offsets {2, 3, 4} and {8, 9, 10}.
  predicate PulsarAlive(d: int, j: int) {
    (d in {0, 5, 7, 12} && j in {2, 3, 4, 8, 9, 10})
      || (d in {2, 3, 4, 8, 9, 10} && j in {0, 5, 7, 12})
  }

  /// `(d_row + height - 6) % height`, computed in u32 (so height >= 6).
  function PulsarShift(height: nat, d: nat): nat
    requires height >= 6
  {
    (d + height - 6) % height
  }

  /// The grid row template row d is written to.
  function PulsarRow(height: nat, row: nat, d: nat): nat
    requires height >= 6
  {
    (PulsarShift(height, d) + row) % height
  }

  /// `get_row_index(cell_row) + col`: the flat index the template row is
  /// centred on; columns are not wrapped.
  function PulsarRowStart(width: nat, height: nat, row: nat, col: nat, d: nat): nat
    requires height >= 6
  {
    RowIndex(width, PulsarRow(height, row, d)) + col
  }

  /// The row start written out as `insert_pulsar_at_pos` computes it.
  lemma PulsarRowStartIs(width: nat, height: nat, row: nat, col: nat, d: nat)
    requires height >= 6
    ensures RowIndex(width, ((d + height - 6) % height + row) % height) + col
         == PulsarRowStart(width, height, row, col, d)
  {
    assert PulsarShift(height, d) == (d + height - 6) % height;
    assert PulsarRow(height, row, d) == ((d + height - 6) % height + row) % height;
  }

  /// No `row_idx + idx - 6` goes below zero.
  predicate PulsarNoUnderflow(width: nat, height: nat, row: nat, col: nat) {
    height >= 6 && forall d :: 0 <= d < 13 ==> 6 <= PulsarRowStart(width, height, row, col, d)
  }

  /// The conditions under which the pulsar stamp does not panic on a buffer of
  /// `len` bits: no u32 overflow in the row formula, no usize overflow or
  /// underflow in `row_idx + idx - 6` (usize is 32 bits wide on wasm32), and
  /// every store inside the buffer.
  predicate PulsarFits(width: nat, height: nat, row: nat, col: nat, len: nat) {
    && PulsarNoUnderflow(width, height, row, col)
    && IsU32(height + 12)
    && (forall d :: 0 <= d < 13 ==> IsU32(PulsarShift(height, d) + row))
    && (forall d :: 0 <= d < 13 ==> IsU32(PulsarRowStart(width, height, row, col, d) + 12))
    && (forall d :: 0 <= d < 13 ==> PulsarRowStart(width, height, row, col, d) + 6 < len)
  }

  /// Flat index of template cell (d, j): the row start shifted by j - 6.
  function PulsarIndex(width: nat, height: nat, row: nat, col: nat, d: nat, j: nat): nat
    requires PulsarNoUnderflow(width, height, row, col) && d < 13
  {
    PulsarRowStart(width, height, row, col, d) + j - 6
  }

  /// Index i is none of the 169 indices the template is written to.
  predicate OutsidePulsar(width: nat, height: nat, row: nat, col: nat, i: nat)
    requires PulsarNoUnderflow(width, height, row, col)
  {
    forall d, j :: 0 <= d < 13 && 0 <= j < 13 ==> i != PulsarIndex(width, height, row, col, d, j)
  }

  /// The store for template cell (d, j): its flat index and template bit.
  function PulsarWrite(width: nat, height: nat, row: nat, col: nat, d: nat, j: nat): BitWrite
    requires PulsarNoUnderflow(width, height, row, col) && d < 13 && j < 13
  {
    BitWrite(PulsarIndex(width, height, row, col, d, j), PulsarTemplate[d][j])
  }

  /// The stores for the first n template rows: row d writes its 13 bits, left
  /// to right, to the consecutive flat indices starting six before its row
  /// start.
  function PulsarRows(width: nat, height: nat, row: nat, col: nat, n: nat): (ws: seq<BitWrite>)
    requires PulsarNoUnderflow(width, height, row, col) && n <= 13
    ensures |ws| == 13 * n
  {
    if n == 0 then []
    else
      PulsarTemplateShape();
      PulsarRows(width, height, row, col, n - 1)
        + Span(PulsarRowStart(width, height, row, col, n - 1) - 6, PulsarTemplate[n - 1])
  }

  /// All 169 stores.
  function PulsarWrites(width: nat, height: nat, row: nat, col: nat): (ws: seq<BitWrite>)
    requires PulsarNoUnderflow(width, height, row, col)
    ensures |ws| == 169
  {
    PulsarRows(width, height, row, col, 13)
  }

  /// Store 13 * d + j of the first n template rows is the store for template
  /// cell (d, j).
  lemma {:induction false} PulsarRowsAt(width: nat, height: nat, row: nat, col: nat, n: nat, d: nat, j: nat)
    requires PulsarNoUnderflow(width, height, row, col) && d < n <= 13 && j < 13
    ensures PulsarRows(width, height, row, col, n)[13 * d + j] == PulsarWrite(width, height, row, col, d, j)
  {
    PulsarTemplateShape();
    var prev := PulsarRows(width, height, row, col, n - 1);
    var span := Span(PulsarRowStart(width, height, row, col, n - 1) - 6, PulsarTemplate[n - 1]);
    assert PulsarRows(width, height, row, col, n) == prev + span;
    if d < n - 1 {
      PulsarRowsAt(width, height, row, col, n - 1, d, j);
      assert (prev + span)[13 * d + j] == prev[13 * d + j];
    } else {
      assert (prev + span)[13 * d + j] == span[j];
    }
  }

  /// Store k of the 169 is the store for template cell (k / 13, k % 13).
  lemma PulsarStoreAt(width: nat, height: nat, row: nat, col: nat, k: nat)
    requires PulsarNoUnderflow(width, height, row, col) && k < 169
    ensures PulsarWrites(width, height, row, col)[k] == PulsarWrite(width, height, row, col, k / 13, k % 13)
  {
    PulsarRowsAt(width, height, row, col, 13, k / 13, k % 13);
  }

  /// Every pulsar store lands inside the buffer.
  lemma PulsarInBounds(width: nat, height: nat, row: nat, col: nat, len: nat)
    requires PulsarFits(width, height, row, col, len)
    ensures InBounds(PulsarWrites(width, height, row, col), len)
  {
    var ws := PulsarWrites(width, height, row, col);
    forall k | 0 <= k < 169 ensures ws[k].index < len {
      PulsarStoreAt(width, height, row, col, k);
    }
  }

  /// Template row d lands on grid row (row + d - 6) mod height.
  lemma PulsarRowIsShift(height: nat, row: nat, d: nat)
    requires height >= 6
    ensures PulsarRow(height, row, d) == (row + d - 6) % height
  {
    var s := d - 6;
    assert PulsarShift(height, d) == (s + height) % height;
    ShiftedRemainder(s, row, height);
  }

  /// The template is the pulsar drawn by rule.
  lemma PulsarTemplateIsPulsar(d: nat, j: nat)
    requires d < 13 && j < 13
    ensures PulsarTemplate[d][j] == PulsarAlive(d, j)
  {
  }

  /// On a grid at least 13 by 13, two different template cells have different
  /// flat indices.
  lemma PulsarCellsDistinct(width: nat, height: nat, row: nat, col: nat, d: nat, j: nat, d2: nat, j2: nat)
    requires 13 <= width && 13 <= height && PulsarNoUnderflow(width, height, row, col)
    requires d < 13 && j < 13 && d2 < 13 && j2 < 13 && (d != d2 || j != j2)
    ensures PulsarIndex(width, height, row, col, d, j) != PulsarIndex(width, height, row, col, d2, j2)
  {
    if d != d2 {
      PulsarRowIsShift(height, row, d);
      PulsarRowIsShift(height, row, d2);
      ShiftsDiffer(row - 6, d, d2, height);
      var r1, r2 := PulsarRow(height, row, d), PulsarRow(height, row, d2);
      assert r1 * width - r2 * width == (r1 - r2) * width;
      MultipleBounds(r1 - r2, width);
    }
  }

  /// A bit none of the 169 stores is aimed at keeps its value, on any grid the
  /// stamp fits.
  lemma PulsarOutsideUnchanged(cells: seq<bool>, width: nat, height: nat, row: nat, col: nat, i: nat)
    requires PulsarFits(width, height, row, col, |cells|)
    requires i < |cells| && OutsidePulsar(width, height, row, col, i)
    ensures InBounds(PulsarWrites(width, height, row, col), |cells|)
    ensures Apply(cells, PulsarWrites(width, height, row, col))[i] == cells[i]
  {
    PulsarInBounds(width, height, row, col, |cells|);
    var ws := PulsarWrites(width, height, row, col);
    forall k | 0 <= k < 169 ensures ws[k].index != i {
      PulsarStoreAt(width, height, row, col, k);
      assert i != PulsarIndex(width, height, row, col, k / 13, k % 13);
    }
    Untouched(cells, ws, i);
  }

  /// On a grid at least 13 by 13, where the 169 target indices are distinct,
  /// template cell (d, j) ends up with the pulsar's shape.
  lemma PulsarCellWritten(cells: seq<bool>, width: nat, height: nat, row: nat, col: nat, d: nat, j: nat)
    requires 13 <= width && 13 <= height && PulsarFits(width, height, row, col, |cells|)
    requires d < 13 && j < 13
    ensures InBounds(PulsarWrites(width, height, row, col), |cells|)
    ensures Apply(cells, PulsarWrites(width, height, row, col))[PulsarIndex(width, height, row, col, d, j)]
         == PulsarAlive(d, j)
  {
    PulsarInBounds(width, height, row, col, |cells|);
    var ws := PulsarWrites(width, height, row, col);
    var k := 13 * d + j;
    DivModUnique(k, 13, d, j);
    PulsarStoreAt(width, height, row, col, k);
    forall k2 | k < k2 < 169 ensures ws[k2].index != ws[k].index {
      PulsarStoreAt(width, height, row, col, k2);
      PulsarCellsDistinct(width, height, row, col, k2 / 13, k2 % 13, d, j);
    }
    LastStoreWins(cells, ws, k);
    PulsarTemplateIsPulsar(d, j);
  }

  /// The pulsar stamp writes template row d to grid row (row + d - 6) mod
  /// height, at the 13 flat indices centred on that row's index plus col, and
  /// leaves every other bit as it was, on any grid it fits; on a grid at least
  /// 13 by 13 those cells end up with the pulsar's shape.
  lemma PulsarFootprint(cells: seq<bool>, width: nat, height: nat, row: nat, col: nat)
    requires PulsarFits(width, height, row, col, |cells|)
    ensures InBounds(PulsarWrites(width, height, row, col), |cells|)
    ensures forall d :: 0 <= d < 13 ==> PulsarRow(height, row, d) == (row + d - 6) % height
    ensures 13 <= width && 13 <= height ==> forall d, j :: 0 <= d < 13 && 0 <= j < 13 ==>
      Apply(cells, PulsarWrites(width, height, row, col))[PulsarIndex(width, height, row, col, d, j)]
        == PulsarAlive(d, j)
    ensures forall i :: 0 <= i < |cells| && OutsidePulsar(width, height, row, col, i) ==>
      Apply(cells, PulsarWrites(width, height, row, col))[i] == cells[i]
  {
    PulsarInBounds(width, height, row, col, |cells|);
    forall d | 0 <= d < 13 ensures PulsarRow(height, row, d) == (row + d - 6) % height {
      PulsarRowIsShift(height, row, d);
    }
    if 13 <= width && 13 <= height {
      forall d, j | 0 <= d < 13 && 0 <= j < 13
        ensures Apply(cells, PulsarWrites(width, height, row, col))[PulsarIndex(width, height, row, col, d, j)]
             == PulsarAlive(d, j)
      {
        PulsarCellWritten(cells, width, height, row, col, d, j);
      }
    }
    forall i | 0 <= i < |cells| && OutsidePulsar(width, height, row, col, i)
      ensures Apply(cells, PulsarWrites(width, height, row, col))[i] == cells[i]
    {
      PulsarOutsideUnchanged(cells, width, height, row, col, i);
    }
  }

  /// Columns are not wrapped: when the anchor is within six columns of the
  /// right edge, the rightmost template column lands in the next grid row
  /// instead of wrapping to the left edge of the same row.
  lemma PulsarSpillsIntoNextRow(width: nat, height: nat, row: nat, col: nat, d: nat)
    requires PulsarNoUnderflow(width, height, row, col) && d < 13
    requires col < width <= col + 6
    ensures PulsarIndex(width, height, row, col, d, 12)
         == Index(width, PulsarRow(height, row, d) + 1, col + 6 - width)
    ensures col + 6 - width < width ==>
      PulsarIndex(width, height, row, col, d, 12)
        != Index(width, PulsarRow(height, row, d), (col + 6) % width)
  {
    var r := PulsarRow(height, row, d);
    assert (r + 1) * width == r * width + width;
    if col + 6 - width < width {
      DivModUnique(col + 6, width, 1, col + 6 - width);
    }
  }
}
