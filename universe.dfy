/// The engine object: a width by height toroidal grid stored row-major in one
/// bit buffer (`cells`), plus the scratch buffer (`tempCells`) a generation is
/// computed into before it is copied back.
module Engine {
  import opened Grid
  import opened Cells
  import opened Writes
  import opened Patterns

  /// A buffer of n cleared bits.
  function Cleared(n: nat): seq<bool> {
    seq(n, _ => false)
  }

  /// The starting pattern: bit i is set when i is even or a multiple of 7.
  function Seed(n: nat): seq<bool> {
    seq(n, i => i % 2 == 0 || i % 7 == 0)
  }

  /// A buffer with bit i flipped and every other bit kept.
  function Flipped(bits: seq<bool>, i: nat): (r: seq<bool>)
    requires i < |bits|
    ensures |r| == |bits| && r[i] == !bits[i]
    ensures forall j :: 0 <= j < |bits| && j != i ==> r[j] == bits[j]
  {
    bits[i := !bits[i]]
  }

  /// Flipping the same bit twice gives the buffer back.
  lemma FlipInvolution(bits: seq<bool>, i: nat)
    requires i < |bits|
    ensures Flipped(Flipped(bits, i), i) == bits
  {
  }

  /// Every cell of an empty grid is dead.
  lemma EmptyCellIsDead(width: nat, height: nat, row: nat, col: nat)
    requires row < height && col < width
    ensures !At(Cleared(width * height), width, height, row, col)
  {
    IndexInRange(width, height, row, col);
  }

  /// No cell of an empty grid has a live neighbour.
  lemma EmptyHasNoNeighbours(width: nat, height: nat, row: nat, col: nat)
    requires row < height && col < width
    ensures NeighborCount(Cleared(width * height), width, height, row, col) == 0
  {
    var north, south := Prev(row, height), Next(row, height);
    var west, east := Prev(col, width), Next(col, width);
    EmptyCellIsDead(width, height, north, west);
    EmptyCellIsDead(width, height, north, col);
    EmptyCellIsDead(width, height, north, east);
    EmptyCellIsDead(width, height, row, west);
    EmptyCellIsDead(width, height, row, east);
    EmptyCellIsDead(width, height, south, west);
    EmptyCellIsDead(width, height, south, col);
    EmptyCellIsDead(width, height, south, east);
  }

  /// Every cell of an empty grid is dead in the next generation.
  lemma EmptyCellStaysDead(width: nat, height: nat, row: nat, col: nat)
    requires row < height && col < width
    ensures Index(width, row, col) < width * height
    ensures !NextGeneration(Cleared(width * height), width, height)[Index(width, row, col)]
  {
    NextGenerationAt(Cleared(width * height), width, height, row, col);
    EmptyHasNoNeighbours(width, height, row, col);
  }

  /// A grid with no live cell stays empty: no dead cell has three live
  /// neighbours.
  lemma EmptyStaysEmpty(width: nat, height: nat)
    ensures NextGeneration(Cleared(width * height), width, height) == Cleared(width * height)
  {
    var next := NextGeneration(Cleared(width * height), width, height);
    forall i | 0 <= i < width * height
      ensures !next[i]
    {
      CellOfIndex(width, height, i);
      EmptyCellStaysDead(width, height, i / width, i % width);
    }
  }

  /// The scratch buffer part-way through the scan of `tick`: it begins with
  /// the verdicts stored so far and is cleared after them.
  predicate Holds(buffer: seq<bool>, done: seq<bool>) {
    |done| <= |buffer| && buffer == done + Cleared(|buffer| - |done|)
  }

  /// Storing v just past the stored verdicts extends them by v.
  lemma HoldsStep(buffer: seq<bool>, done: seq<bool>, v: bool)
    requires Holds(buffer, done) && |done| < |buffer|
    ensures Holds(buffer[|done| := v], done + [v])
  {
    assert buffer[|done| := v] == (done + [v]) + Cleared(|buffer| - |done| - 1);
  }

  /// Storing the verdict for cell (row, col) at its flat index advances the
  /// scan by one cell.
  lemma ScanStep(generation: seq<bool>, w: nat, h: nat, row: nat, col: nat, buffer: seq<bool>)
    requires row < h && col < w && w * h <= |generation| && w * h <= |buffer|
    requires Holds(buffer, NextRows(generation, w, h, row) + NextRow(generation, w, h, row, col))
    ensures Index(w, row, col) < w * h
    ensures Holds(buffer[Index(w, row, col) := Rule(generation[Index(w, row, col)], NeighborCount(generation, w, h, row, col))],
                  NextRows(generation, w, h, row) + NextRow(generation, w, h, row, col + 1))
  {
    var done := NextRows(generation, w, h, row) + NextRow(generation, w, h, row, col);
    var v := NextCell(generation, w, h, row, col);
    IndexInRange(w, h, row, col);
    assert v == Rule(generation[Index(w, row, col)], NeighborCount(generation, w, h, row, col));
    assert Index(w, row, col) == |done|;
    HoldsStep(buffer, done, v);
    assert NextRows(generation, w, h, row) + NextRow(generation, w, h, row, col + 1) == done + [v];
  }

  /// The body of the scan in `tick` for cell (row, col): reads the cell and
  /// its neighbour count from `cells` and stores the rule's verdict at the
  /// cell's index in the scratch buffer.
  method WriteNextCell(cells: array<bool>, w: nat, h: nat, tempCells: array<bool>, row: nat, col: nat)
    requires cells != tempCells && row < h && col < w && w * h <= cells.Length && w * h <= tempCells.Length
    requires Holds(tempCells[..], NextRows(cells[..], w, h, row) + NextRow(cells[..], w, h, row, col))
    modifies tempCells
    ensures Holds(tempCells[..], NextRows(cells[..], w, h, row) + NextRow(cells[..], w, h, row, col + 1))
  {
    ghost var before := tempCells[..];
    ScanStep(cells[..], w, h, row, col, before);
    var idx := Index(w, row, col);
    var cell := cells[idx];
    var liveNeighbors := NeighborCount(cells[..], w, h, row, col);
    tempCells[idx] := Rule(cell, liveNeighbors);
    assert tempCells[..] == before[idx := Rule(cell, liveNeighbors)];
  }

  /// One row of the scan in `tick`: stores the rule's verdict for every cell
  /// of grid row `row`, given that the rows above are already stored and the
  /// rest of the scratch buffer is still cleared.
  method WriteNextRow(cells: array<bool>, w: nat, h: nat, tempCells: array<bool>, row: nat)
    requires cells != tempCells && row < h && w * h <= cells.Length && w * h <= tempCells.Length
    requires Holds(tempCells[..], NextRows(cells[..], w, h, row))
    modifies tempCells
    ensures Holds(tempCells[..], NextRows(cells[..], w, h, row + 1))
  {
    for col := 0 to w
      invariant Holds(tempCells[..], NextRows(cells[..], w, h, row) + NextRow(cells[..], w, h, row, col))
    {
      WriteNextCell(cells, w, h, tempCells, row, col);
    }
    assert NextRows(cells[..], w, h, row + 1) == NextRows(cells[..], w, h, row) + NextRow(cells[..], w, h, row, w);
  }

  /// The scan half of `tick`: clears the scratch buffer, then stores into it,
  /// row by row, the rule's verdict for every grid cell of the generation in
  /// `cells`, which it only reads.
  method WriteNextGeneration(cells: array<bool>, w: nat, h: nat, tempCells: array<bool>)
    requires cells != tempCells && w * h <= cells.Length && w * h <= tempCells.Length
    modifies tempCells
    ensures tempCells[..] == NextGeneration(cells[..], w, h) + Cleared(tempCells.Length - w * h)
  {
    forall i | 0 <= i < tempCells.Length {
      tempCells[i] := false;
    }
    assert tempCells[..] == NextRows(cells[..], w, h, 0) + Cleared(tempCells.Length);
    for row := 0 to h
      invariant Holds(tempCells[..], NextRows(cells[..], w, h, row))
    {
      WriteNextRow(cells, w, h, tempCells, row);
    }
  }

  /// The inner loop of `insert_glider_at_pos`: for row delta dRow (number a
  /// of [h - 1, 0, 1]), one store per column delta at the wrapped cell.
  method StampGliderRow(buf: array<bool>, w: nat, h: nat, row: nat, col: nat, a: nat, dRow: nat)
    requires w > 0 && h > 0 && w * h <= buf.Length && a < 3 && dRow == [h - 1, 0, 1][a]
    modifies buf
    ensures buf[..] == Apply(old(buf[..]), GliderRowStores(w, h, row, col, a))
  {
    ghost var rowStores := GliderRowStores(w, h, row, col, a);
    var colDeltas: seq<nat> := [w - 1, 0, 1];
    for b := 0 to 3
      invariant buf[..] == Apply(old(buf[..]), rowStores[..b])
    {
      var dCol := colDeltas[b];
      var cellRow := (dRow + row) % h;
      var cellCol := (dCol + col) % w;
      var idx := Index(w, cellRow, cellCol);
      var isAlive := (dRow == h - 1 && dCol == 0) || (dRow == 0 && dCol == w - 1) || dRow == 1;
      IndexInRange(w, h, cellRow, cellCol);
      GliderRowStoreIs(w, h, row, col, a, b, dRow, dCol);
      assert rowStores[..b + 1] == rowStores[..b] + [BitWrite(idx, isAlive)];
      ApplySnoc(old(buf[..]), rowStores[..b], BitWrite(idx, isAlive));
      ghost var before := buf[..];
      buf[idx] := isAlive;
      assert buf[..] == before[idx := isAlive];
    }
    assert rowStores[..3] == rowStores;
  }

  /// The loops of `insert_glider_at_pos` on a grid buffer: for each row
  /// delta of [h - 1, 0, 1] (h - 1 standing for -1), the row's three stores.
  method StampGlider(buf: array<bool>, w: nat, h: nat, row: nat, col: nat)
    requires w > 0 && h > 0 && w * h <= buf.Length
    modifies buf
    ensures InBounds(GliderWrites(w, h, row, col), buf.Length)
    ensures buf[..] == Apply(old(buf[..]), GliderWrites(w, h, row, col))
  {
    GliderInBounds(w, h, row, col, buf.Length);
    ghost var initial := buf[..];
    ghost var ws := GliderWrites(w, h, row, col);
    var rowDeltas: seq<nat> := [h - 1, 0, 1];
    for a := 0 to 3
      invariant buf[..] == Apply(initial, ws[..3 * a])
    {
      var dRow := rowDeltas[a];
      StampGliderRow(buf, w, h, row, col, a, dRow);
      GliderRowsPrefix(w, h, row, col, a);
      ApplyConcat(initial, ws[..3 * a], GliderRowStores(w, h, row, col, a));
    }
    assert ws[..9] == ws;
  }

  /// The inner loop of `insert_pulsar_at_pos`: the 13 bits of one template
  /// row, stored left to right at flat indices rowIdx - 6 .. rowIdx + 6.
  method StampPulsarSpan(buf: array<bool>, rowIdx: nat, rowCells: seq<bool>)
    requires 6 <= rowIdx && rowIdx + 6 < buf.Length && |rowCells| == 13
    modifies buf
    ensures buf[..] == Apply(old(buf[..]), Span(rowIdx - 6, rowCells))
  {
    ghost var rowStores := Span(rowIdx - 6, rowCells);
    for idx := 0 to 13
      invariant buf[..] == Apply(old(buf[..]), rowStores[..idx])
    {
      SpanPrefix(rowIdx - 6, rowCells, idx);
      ApplySnoc(old(buf[..]), rowStores[..idx], BitWrite(rowIdx + idx - 6, rowCells[idx]));
      ghost var before := buf[..];
      buf[rowIdx + idx - 6] := rowCells[idx];
      assert buf[..] == before[rowIdx + idx - 6 := rowCells[idx]];
    }
    assert rowStores[..13] == rowStores;
  }

  /// One pass of the outer loop of `insert_pulsar_at_pos`: template row dRow
  /// goes to grid row (dRow + h - 6) mod h shifted by row, again mod h, and
  /// its 13 bits go to raw flat offsets -6 .. +6 around that grid row's index
  /// plus col, with no wrap between columns.
  method StampPulsarRow(buf: array<bool>, w: nat, h: nat, row: nat, col: nat, dRow: nat, rowCells: seq<bool>)
    requires PulsarFits(w, h, row, col, buf.Length) && dRow < 13 && |rowCells| == 13
    modifies buf
    ensures buf[..] == Apply(old(buf[..]), Span(PulsarRowStart(w, h, row, col, dRow) - 6, rowCells))
  {
    PulsarRowStartIs(w, h, row, col, dRow);
    var cellRow := ((dRow + h - 6) % h + row) % h;
    var rowIdx := RowIndex(w, cellRow) + col;
    StampPulsarSpan(buf, rowIdx, rowCells);
  }

  /// `insert_pulsar_at_pos` on a grid buffer: the 13 template rows, top to
  /// bottom.
  method StampPulsar(buf: array<bool>, w: nat, h: nat, row: nat, col: nat)
    requires PulsarFits(w, h, row, col, buf.Length)
    modifies buf
    ensures InBounds(PulsarWrites(w, h, row, col), buf.Length)
    ensures buf[..] == Apply(old(buf[..]), PulsarWrites(w, h, row, col))
  {
    PulsarInBounds(w, h, row, col, buf.Length);
    ghost var initial := buf[..];
    PulsarTemplateShape();
    var rows := PulsarTemplate;
    for dRow := 0 to 13
      invariant buf[..] == Apply(initial, PulsarRows(w, h, row, col, dRow))
    {
      StampPulsarRow(buf, w, h, row, col, dRow, rows[dRow]);
      ApplyConcat(initial, PulsarRows(w, h, row, col, dRow), Span(PulsarRowStart(w, h, row, col, dRow) - 6, rows[dRow]));
    }
  }

  /// The inner loop of `get_cells`: appends the tags of grid row `row`, left
  /// to right, to those of the rows above.
  method ReadRow(cells: array<bool>, w: nat, h: nat, row: nat, acc: seq<Cell>) returns (res: seq<Cell>)
    requires row < h && w * h <= cells.Length && |acc| == row * w
    requires forall i :: 0 <= i < |acc| ==> acc[i] == FromBit(cells[i])
    ensures |res| == (row + 1) * w <= w * h
    ensures forall i :: 0 <= i < |res| ==> res[i] == FromBit(cells[i])
  {
    RowsFit(w, h, row + 1);
    res := acc;
    for col := 0 to w
      invariant |res| == row * w + col
      invariant forall i :: 0 <= i < |res| ==> res[i] == FromBit(cells[i])
    {
      IndexInRange(w, h, row, col);
      var idx := Index(w, row, col);
      var alive := if cells[idx] then Alive else Dead;
      res := res + [alive];
    }
  }

  /// The loops of `get_cells`: one tag per grid cell, row by row.
  method ReadCells(cells: array<bool>, w: nat, h: nat) returns (res: seq<Cell>)
    requires w * h <= cells.Length
    ensures |res| == w * h
    ensures forall i :: 0 <= i < |res| ==> res[i] == FromBit(cells[i])
  {
    res := [];
    for row := 0 to h
      invariant |res| == row * w
      invariant forall i :: 0 <= i < |res| ==> res[i] == FromBit(cells[i])
    {
      res := ReadRow(cells, w, h, row, res);
    }
  }

  class Universe {
    var width: nat
    var height: nat
    var cells: array<bool>
    var tempCells: array<bool>

    /// The object invariant. Every dimension and buffer length fits a u32
    /// (`usize` on wasm32), and the grid fits in `cells`. The buffer may be
    /// longer than width * height: a tick copies the scratch buffer's length
    /// back into `cells`, and the resizers do not resize the scratch buffer.
    ghost predicate Valid()
      reads this
    {
      && cells != tempCells
      && IsU32(width) && IsU32(height) && IsU32(width * height)
      && width * height <= cells.Length
      && IsU32(cells.Length) && IsU32(tempCells.Length)
    }

    /// `Universe::new`: a 256 by 256 grid holding the seed pattern and a
    /// cleared scratch buffer of the same size.
    constructor ()
      ensures Valid() && width == 256 && height == 256
      ensures fresh(cells) && fresh(tempCells)
      ensures cells[..] == Seed(65536) && tempCells[..] == Cleared(65536)
    {
      var w: nat, h: nat := 256, 256;
      var size := w * h;
      var c := new bool[size](_ => false);
      var t := new bool[size](_ => false);
      assert t[..] == Cleared(size);
      for i := 0 to size
        modifies c
        invariant forall j :: 0 <= j < i ==> c[j] == (j % 2 == 0 || j % 7 == 0)
      {
        c[i] := i % 2 == 0 || i % 7 == 0;
      }
      assert c[..] == Seed(size);
      width, height, cells, tempCells := w, h, c, t;
    }

    /// `width()`: the current width, a u32.
    function Width(): (w: nat)
      requires Valid()
      reads this
      ensures IsU32(w) && w == width
    {
      width
    }

    /// `height()`: the current height, a u32.
    function Height(): (h: nat)
      requires Valid()
      reads this
      ensures IsU32(h) && h == height
    {
      height
    }

    /// `get_cells`: one tag per grid cell, row by row, `Alive` exactly where
    /// the bit is set.
    method GetCells() returns (res: seq<Cell>)
      requires Valid()
      ensures |res| == width * height
      ensures forall i :: 0 <= i < |res| ==> res[i] == FromBit(cells[i])
      ensures forall row: nat, col: nat :: row < height && col < width ==>
        Index(width, row, col) < |res| && res[Index(width, row, col)].Alive? == cells[Index(width, row, col)]
    {
      var w, h := width, height;
      res := ReadCells(cells, w, h);
      forall row: nat, col: nat | row < h && col < w
        ensures Index(w, row, col) < |res|
      {
        IndexInRange(w, h, row, col);
      }
    }

    /// `set_cells`: sets the bit of every listed (row, col), in list order. The
    /// coordinates are not wrapped; each must map inside the buffer.
    method SetCells(coords: seq<(nat, nat)>)
      requires Valid() && CoordsFit(width, coords, cells.Length)
      modifies cells
      ensures Valid()
      ensures InBounds(MarkWrites(width, coords), cells.Length)
      ensures cells[..] == Apply(old(cells[..]), MarkWrites(width, coords))
    {
      ghost var ws := MarkWrites(width, coords);
      assert InBounds(ws, cells.Length) by {
        forall k | 0 <= k < |ws| ensures ws[k].index < cells.Length {
          assert ws[k].index == Index(width, coords[k].0, coords[k].1);
        }
      }
      for k := 0 to |coords|
        invariant cells[..] == Apply(old(cells[..]), ws[..k])
      {
        var (row, col) := coords[k];
        var idx := Index(width, row, col);
        cells[idx] := true;
        assert ws[k] == BitWrite(idx, true);
        assert ws[..k + 1][..k] == ws[..k];
      }
      assert ws[..|coords|] == ws;
    }

    /// `tick`: clears the scratch buffer, writes the next generation of every
    /// grid cell into it from the current generation alone, then copies the
    /// whole scratch buffer, length included, into `cells`.
    method Tick()
      requires Valid() && width * height <= tempCells.Length
      modifies this, cells, tempCells
      ensures Valid() && width == old(width) && height == old(height) && tempCells == old(tempCells)
      ensures cells == old(cells) || fresh(cells)
      ensures cells[..] == NextGeneration(old(cells[..]), width, height)
                           + Cleared(tempCells.Length - width * height)
      ensures tempCells[..] == cells[..]
    {
      WriteNextGeneration(cells, width, height, tempCells);
      if cells.Length != tempCells.Length {
        cells := new bool[tempCells.Length];
      }
      forall i | 0 <= i < cells.Length {
        cells[i] := tempCells[i];
      }
      assert cells[..] == tempCells[..];
    }

    /// `set_width`: takes the new width and replaces `cells` with a cleared
    /// buffer of width * height bits; the scratch buffer keeps its size.
    method SetWidth(newWidth: nat)
      requires Valid() && IsU32(newWidth) && IsU32(newWidth * height)
      modifies this
      ensures Valid() && width == newWidth && height == old(height)
      ensures fresh(cells) && cells[..] == Cleared(width * height)
      ensures tempCells == old(tempCells)
    {
      width := newWidth;
      var size := width * height;
      var buffer := new bool[size];
      forall i | 0 <= i < size {
        buffer[i] := false;
      }
      cells := buffer;
    }

    /// `set_height`: takes the new height and replaces `cells` with a cleared
    /// buffer of width * height bits; the scratch buffer keeps its size.
    method SetHeight(newHeight: nat)
      requires Valid() && IsU32(newHeight) && IsU32(width * newHeight)
      modifies this
      ensures Valid() && height == newHeight && width == old(width)
      ensures fresh(cells) && cells[..] == Cleared(width * height)
      ensures tempCells == old(tempCells)
    {
      height := newHeight;
      var size := width * height;
      var buffer := new bool[size];
      forall i | 0 <= i < size {
        buffer[i] := false;
      }
      cells := buffer;
    }

    /// `toggle_cell`: flips the one bit at get_index(row, col); the coordinates
    /// are not wrapped.
    method ToggleCell(row: nat, col: nat)
      requires Valid() && Index(width, row, col) < cells.Length
      modifies cells
      ensures Valid()
      ensures cells[..] == Flipped(old(cells[..]), Index(width, row, col))
    {
      var idx := Index(width, row, col);
      var cellState := cells[idx];
      cells[idx] := !cellState;
    }

    /// `reset_clear`: clears every bit of the buffer, keeping its length.
    method ResetClear()
      requires Valid()
      modifies cells
      ensures Valid()
      ensures cells[..] == Cleared(cells.Length)
    {
      forall i | 0 <= i < cells.Length {
        cells[i] := false;
      }
    }

    /// `insert_glider_at_pos`: the nine glider stores, in loop order, on the
    /// grid buffer.
    method InsertGliderAtPos(row: nat, col: nat)
      requires Valid() && width > 0 && height > 0
      requires IsU32(row + height - 1) && IsU32(row + 1) && IsU32(col + width - 1) && IsU32(col + 1)
      modifies cells
      ensures Valid()
      ensures InBounds(GliderWrites(width, height, row, col), cells.Length)
      ensures cells[..] == Apply(old(cells[..]), GliderWrites(width, height, row, col))
    {
      StampGlider(cells, width, height, row, col);
    }

    /// `insert_pulsar_at_pos`: the 169 pulsar stores, in loop order, on the
    /// grid buffer.
    method InsertPulsarAtPos(row: nat, col: nat)
      requires Valid() && PulsarFits(width, height, row, col, cells.Length)
      modifies cells
      ensures Valid()
      ensures InBounds(PulsarWrites(width, height, row, col), cells.Length)
      ensures cells[..] == Apply(old(cells[..]), PulsarWrites(width, height, row, col))
    {
      StampPulsar(cells, width, height, row, col);
    }
  }
}
