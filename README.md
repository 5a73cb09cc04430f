# Game-of-Life universe engine, modelled in Dafny

This project models the `Universe` engine of a WebAssembly Game-of-Life. The
grid is a torus: it is `width` by `height` cells, and both the top and bottom
edges and the left and right edges join.

The cells are stored in one flat, row-major bit buffer, `cells`. A generation
step (`tick`) computes the next generation into a scratch bit buffer,
`temp_cells`, using the B3/S23 rule: a dead cell with three live neighbours is
born, and a live cell with two or three survives. The scratch buffer is then
copied back into `cells`.

Besides `tick`, the model covers:

- The index mapping.
- The wrapped neighbour count.
- The readers `get_cells`, `width` and `height`.
- The mutators `set_cells`, `toggle_cell` and `reset_clear`.
- The resizers `set_width` and `set_height`.
- The two pattern stamps, glider and pulsar.
- The constructor.

The model has six modules:

- `Cells` (`cells.dfy`): the `Cell` tag, dead or alive, and its toggle.
- `Grid` (`grid.dfy`):
  - the row-major index and its arithmetic;
  - the neighbour count, with a torus reference definition beside it;
  - the transition rule;
  - the next generation as a function of the current one.
- `Writes` (`writes.dfy`): a sequence of single-bit stores (`FixedBitSet::set`
  calls) and what the buffer holds after them: the last store to an index
  wins, and untouched bits keep their value. `set_cells` and both stamps are
  such sequences.
- `Patterns` (`patterns.dfy`): the exact store lists of the glider and
  pulsar stamps, in loop order, and their footprints on the grid.
- `Engine` (`universe.dfy`): the `Universe` class, with `cells` and
  `tempCells` as `array<bool>`. The loops of `tick`, `get_cells` and the stamps
  are methods with loop invariants, each proved against the specification
  functions above.
- `Scenarios` (`scenarios.dfy`): small patterns whose next generations are
  known: a lone live cell dies and none of its neighbours is born, the 2 by 2
  block is a still life, and the three-cell blinker turns between horizontal
  and vertical. Each concrete grid is pinned down cell by cell, and its
  neighbour counts are proved one row at a time.

Rust's `u32`/`usize` overflow, which panics in a debug build, and
`FixedBitSet::set` out of range, which always panics, are stated as
preconditions. `usize` is taken to be 32 bits wide, as on wasm32. The
exception is stores that the source lets land
anywhere in the buffer, such as `set_cells` and `toggle_cell`, which do not
wrap coordinates. For those the precondition is only that the flat index is
inside the buffer, which is exactly when the source does not panic.

Quirks of `src/lib.rs` the model keeps:

- **The glider stamp makes five cells alive** (src/lib.rs:241-244):
  `(row - 1, col)`, `(row, col - 1)` and the three cells of row `row + 1`.
- **The two buffers can differ in length.** `set_width` and
  `set_height` replace only `cells`. The next `tick` then copies the scratch
  buffer, with its length, back into `cells` (`clone_from`). So the class
  invariant only requires `width * height <= cells.Length`, and `tick`
  requires that the grid fits in the scratch buffer, since `set` would panic
  otherwise.
- **The pulsar does not wrap columns.** It wraps rows modulo `height`, but
  writes each template row at raw flat offsets `-6 .. +6` around the row's
  index plus `col`. Near the right edge its last columns land in the next
  grid row, as `Patterns.PulsarSpillsIntoNextRow` shows.

## Model

| member | source | states |
|---|---|---|
| Cells.Toggle | src/lib.rs:62-68 | toggling always gives the other state |
| Cells.ToggleInvolution | src/lib.rs:62-68 | toggling twice gives the cell back |
| Cells.FromBit | src/lib.rs:122-126 | the tag is `Alive` exactly when the bit is set |
| Grid.Index | src/lib.rs:72-74 | `get_index`: the row-major flat index row * width + col; `IndexInRange`, `IndexRoundTrip`, `CellOfIndex` and `IndexInjective` state what it means |
| Grid.RowIndex | src/lib.rs:76-78 | `get_row_index`: the flat index row * width of a row's first cell |
| Grid.IsU32 | src/lib.rs:56-57 | a value fits a `u32` (and a wasm32 `usize`) |
| Grid.IndexInRange | src/lib.rs:72-74 | `get_index(row, col)` of an in-grid cell is below width * height |
| Grid.IndexRoundTrip | src/lib.rs:72-78 | from a cell: its index / width is the row and index % width the column; `get_row_index(row)` is `get_index(row, 0)` |
| Grid.CellOfIndex | src/lib.rs:72-74 | from a flat index below width * height: it is `get_index` of the cell (i / width, i % width), which lies in the grid |
| Grid.IndexInjective | src/lib.rs:72-74 | two cells with columns inside the grid share a flat index only if they are the same cell |
| Grid.TorusIndex | src/lib.rs:80-114 | the index of a neighbour taken modulo the grid's size is inside the grid |
| Grid.TorusIndexDistinct | src/lib.rs:80-114 | two different offsets from one cell, each component pair closer than the grid's size, reach different cells |
| Grid.TorusIndexShift | src/lib.rs:80-114 | offset (a, b) from the cell at offset (dr, dc) is offset (dr + a, dc + b) from the start |
| Grid.Prev | src/lib.rs:83-89 | the north row (west column): one back, wrapping from 0 to the last |
| Grid.Next | src/lib.rs:84-94 | the south row (east column): one on, wrapping from the last to 0 |
| Grid.WrapIsModular | src/lib.rs:83-94 | the north/south (and west/east) wrap by `if` is the modular step (x - 1) mod n and (x + 1) mod n |
| Grid.Bit | src/lib.rs:97 | a bit counted as `bool as u8`: 1 when set, 0 when clear |
| Grid.At | src/lib.rs:150 | `self.cells[get_index(row, col)]` for an in-grid cell |
| Grid.NeighborCount | src/lib.rs:80-114 | `live_neighbor_count` is at most 8 |
| Grid.TorusCellIsWrapped | src/lib.rs:96-111 | each of the eight neighbours read is the cell at the modular offset (dr, dc) |
| Grid.NeighborCountIsTorusCount | src/lib.rs:80-114 | `live_neighbor_count` equals the number of live cells among the eight torus neighbours, offsets in {-1,0,1}^2 except (0,0) |
| Grid.Rule | src/lib.rs:161-167 | the match arms together: next is alive iff alive with 2 or 3 neighbours, or dead with exactly 3 |
| Grid.NextCell | src/lib.rs:149-167 | the rule applied to cell (row, col)'s bit and its live neighbour count |
| Grid.NextRow | src/lib.rs:148-170 | the verdicts for a row prefix have one entry per cell |
| Grid.NextRows | src/lib.rs:147-171 | the verdicts for m rows have m * width entries |
| Grid.NextGeneration | src/lib.rs:145-173 | the next generation has width * height cells |
| Grid.NextRowAt | src/lib.rs:148-168 | entry col of a row's verdicts is the rule's verdict for that cell |
| Grid.NextRowsAt | src/lib.rs:147-168 | entry `get_index(row, col)` of the first m rows' verdicts is that cell's verdict |
| Grid.NextGenerationAt | src/lib.rs:149-167 | cell `get_index(row, col)` of the next generation is the rule applied to the old cell and its old neighbour count |
| Grid.AtIgnoresTail | src/lib.rs:150 | reading a grid cell only looks at the first width * height bits |
| Grid.NeighborCountIgnoresTail | src/lib.rs:80-114 | the neighbour count only looks at the first width * height bits |
| Grid.NextGenerationIgnoresTail | src/lib.rs:145-173 | bits past width * height, left there by a resize or a tick, never influence the next generation |
| Writes.InBounds | src/lib.rs:138 | every store's index is inside the buffer, so no `set` panics |
| Writes.Apply | src/lib.rs:138 | the stores keep the buffer's length |
| Writes.ApplySnoc | src/lib.rs:136-139 | one more `set` updates the buffer at its index |
| Writes.ApplyConcat | src/lib.rs:266-273 | carrying out a + b is carrying out a, then b |
| Writes.Span | src/lib.rs:270-272 | a row span has one store per template bit |
| Writes.SpanPrefix | src/lib.rs:270-272 | the first k + 1 stores of a span are its first k and then store k |
| Writes.LastWrite | src/lib.rs:138 | the position found is a store to i with no later store to i, or -1 when there is none |
| Writes.ApplyAt | src/lib.rs:138 | bit i after the stores is the last store's value to i, or the old bit when none touches i |
| Writes.LastStoreWins | src/lib.rs:138 | a store that no later store overwrites decides its bit |
| Writes.Untouched | src/lib.rs:138 | a bit no store touches keeps its value |
| Writes.ApplyIdempotent | src/lib.rs:135-140 | carrying out the same stores twice equals carrying them out once |
| Writes.CoordsFit | src/lib.rs:136-138 | every listed pair's `get_index` is inside the buffer, so `set_cells` does not panic |
| Writes.MarkWrites | src/lib.rs:136-138 | the stores of `set_cells`: one `set(get_index(row, col), true)` per pair, in list order |
| Writes.MarkedAt | src/lib.rs:135-140 | after `set_cells`, a bit is set iff it was set before or some listed (row, col) maps to it |
| Writes.MarkIdempotent | src/lib.rs:135-140 | `set_cells` with the same list twice equals once |
| Writes.MarkOrderIrrelevant | src/lib.rs:135-140 | two lists with the same pairs, in any order and with any repetitions, give the same grid |
| Patterns.GliderWrite | src/lib.rs:238-249 | the store for row delta a and column delta b: the wrapped cell `((d_row + row) % height, (d_col + col) % width)` with the five-cell alive condition |
| Patterns.GliderRowStores | src/lib.rs:237-250 | one row delta makes three stores |
| Patterns.GliderWrites | src/lib.rs:235-252 | the glider makes nine stores |
| Patterns.GliderStoreAt | src/lib.rs:236-237 | store k is made for row delta k / 3 and column delta k % 3 |
| Patterns.GliderRowsPrefix | src/lib.rs:236-251 | the stores are made row delta by row delta |
| Patterns.GliderShape | src/lib.rs:241-244 | the alive condition at offset (dr, dc): north, west, or anywhere on the south row |
| Patterns.GliderInBounds | src/lib.rs:238-240 | every glider store is inside the grid |
| Patterns.GliderIndexIs | src/lib.rs:236-240 | on any non-empty grid, with h - 1 standing for -1, store (a, b) writes the torus cell at offset (a - 1, b - 1) |
| Patterns.GliderWriteIs | src/lib.rs:236-248 | with h - 1 standing for -1, store (a, b) writes the torus cell at offset (a - 1, b - 1) with the glider's shape |
| Patterns.GliderCellsDistinct | src/lib.rs:238-240 | on a grid at least 3 by 3 the nine cells are pairwise different |
| Patterns.GliderStoresDistinct | src/lib.rs:235-252 | two different stores of the nine write different indices |
| Patterns.GliderStoreOf | src/lib.rs:235-252 | the store for offset (dr, dc) writes the glider's shape at that torus cell |
| Patterns.GliderLaterStoresDiffer | src/lib.rs:235-252 | no later store overwrites a glider store's index |
| Patterns.GliderWritesAre | src/lib.rs:235-252 | the nine stores are the glider's cells in row-major order around the anchor |
| Patterns.GliderOutsideUnchanged | src/lib.rs:235-252 | on any non-empty grid, a bit outside the 3 by 3 torus block keeps its value |
| Patterns.GliderCellWritten | src/lib.rs:241-249 | each cell of the block ends up with the glider's shape |
| Patterns.GliderFootprint | src/lib.rs:235-252 | on any non-empty grid every bit outside the wrapped 3 by 3 block is unchanged; on a grid at least 3 by 3 the block holds the five-cell glider |
| Patterns.PulsarTemplateShape | src/lib.rs:255-265 | the template is 13 rows of 13 bits |
| Patterns.PulsarTemplateIsPulsar | src/lib.rs:255-265 | the template is the pulsar drawn by rule: bar rows alive at offsets 2,3,4,8,9,10 and spoke rows alive at 0,5,7,12 |
| Patterns.PulsarShift | src/lib.rs:268 | `(d_row + height - 6) % height`, computed in u32 so height >= 6 |
| Patterns.PulsarRow | src/lib.rs:267-268 | `cell_row`: the shift plus row, modulo height |
| Patterns.PulsarRowStart | src/lib.rs:269 | `row_idx`: `get_row_index(cell_row) + col`, with no column wrap |
| Patterns.PulsarNoUnderflow | src/lib.rs:268-271 | height >= 6 and no `row_idx + idx - 6` below zero |
| Patterns.PulsarFits | src/lib.rs:266-272 | the stamp does not panic: no u32 overflow in the row formula, no usize overflow or underflow in `row_idx + idx - 6`, and every store inside the buffer |
| Patterns.PulsarIndex | src/lib.rs:271 | the flat index `row_idx + idx - 6` of template cell (d, idx) |
| Patterns.PulsarWrite | src/lib.rs:271 | the store for template cell (d, idx): its flat index and template bit |
| Patterns.PulsarRows | src/lib.rs:266-273 | the first n template rows make 13 * n stores |
| Patterns.PulsarWrites | src/lib.rs:254-274 | the pulsar makes 169 stores |
| Patterns.PulsarRowsAt | src/lib.rs:266-272 | store 13 * d + j writes template bit (d, j) to its flat index |
| Patterns.PulsarStoreAt | src/lib.rs:266-272 | store k is template cell (k / 13, k % 13) |
| Patterns.PulsarInBounds | src/lib.rs:269-271 | when the pulsar fits, every store is inside the buffer |
| Patterns.PulsarRowIsShift | src/lib.rs:267-268 | template row d lands on grid row (row + d - 6) mod height |
| Patterns.PulsarCellsDistinct | src/lib.rs:266-272 | on a grid at least 13 by 13 the 169 template cells have different flat indices |
| Patterns.PulsarOutsideUnchanged | src/lib.rs:266-273 | on any grid the stamp fits, a bit none of the 169 stores is aimed at keeps its value |
| Patterns.PulsarCellWritten | src/lib.rs:266-273 | on a grid at least 13 by 13, template cell (d, j) ends with the pulsar's shape |
| Patterns.PulsarFootprint | src/lib.rs:254-274 | on any grid the stamp fits, row d goes to grid row (row + d - 6) mod height and every other bit is unchanged; on a grid at least 13 by 13 the 169 cells get the pulsar's shape |
| Patterns.PulsarSpillsIntoNextRow | src/lib.rs:269-271 | columns are not wrapped: near the right edge the last template column lands in the next grid row, not in the same row |
| Engine.Cleared | src/lib.rs:221-223 | n cleared bits, as `set_range(.., false)` leaves them |
| Engine.Seed | src/lib.rs:182-184 | the starting pattern: bit i set iff i % 2 == 0 or i % 7 == 0 |
| Engine.Flipped | src/lib.rs:215-219 | exactly bit i is inverted; every other bit and the length are kept |
| Engine.FlipInvolution | src/lib.rs:215-219 | flipping the same bit twice restores the buffer |
| Engine.EmptyCellIsDead | src/lib.rs:221-223 | every cell of a cleared grid is dead |
| Engine.EmptyHasNoNeighbours | src/lib.rs:80-114 | no cell of a cleared grid has a live neighbour |
| Engine.EmptyCellStaysDead | src/lib.rs:145-173 | every cell of a cleared grid is dead after a tick |
| Engine.EmptyStaysEmpty | src/lib.rs:145-173 | a tick of a cleared grid gives a cleared grid |
| Engine.HoldsStep | src/lib.rs:159-168 | storing a value just past the stored verdicts extends them, and the rest stays cleared |
| Engine.ScanStep | src/lib.rs:149-168 | storing cell (row, col)'s verdict at its index advances the scan state by that cell |
| Engine.WriteNextCell | src/lib.rs:149-168 | the scratch buffer holds the verdicts up to and including (row, col), and is cleared after them |
| Engine.WriteNextRow | src/lib.rs:148-170 | the scratch buffer holds the verdicts of rows 0..row, and is cleared after them |
| Engine.WriteNextGeneration | src/lib.rs:146-171 | the scratch buffer holds the next generation of the old `cells` followed by cleared bits |
| Engine.StampGliderRow | src/lib.rs:237-250 | the buffer is the old buffer after the row delta's three stores |
| Engine.StampGlider | src/lib.rs:235-252 | the buffer is the old buffer after the nine glider stores, all in bounds |
| Engine.StampPulsarSpan | src/lib.rs:270-272 | the buffer is the old buffer after the 13 consecutive stores |
| Engine.StampPulsarRow | src/lib.rs:267-272 | the buffer is the old buffer after template row d's span |
| Engine.StampPulsar | src/lib.rs:254-274 | the buffer is the old buffer after the 169 pulsar stores, all in bounds |
| Engine.ReadRow | src/lib.rs:120-128 | one more grid row of tags is pushed, each `Alive` exactly where its bit is set |
| Engine.ReadCells | src/lib.rs:117-131 | width * height tags, tag i is `Alive` exactly where bit i is set |
| Engine.Universe.Valid | src/lib.rs:55-60 | the object invariant: the dimensions, their product and both buffer lengths fit a u32, the grid fits in `cells`, and the two buffers are distinct |
| Engine.Universe.constructor | src/lib.rs:175-191 | a 256 by 256 grid, bit i set iff i % 2 == 0 or i % 7 == 0, and a cleared scratch buffer of the same size |
| Engine.Universe.Width | src/lib.rs:280-282 | the current width, a u32 |
| Engine.Universe.Height | src/lib.rs:284-286 | the current height, a u32 |
| Engine.Universe.GetCells | src/lib.rs:117-131 | width * height tags in row-major order, cell (row, col)'s tag is `Alive` exactly where its bit is set |
| Engine.Universe.SetCells | src/lib.rs:135-140 | `cells` is the old buffer after one `set(get_index(row, col), true)` per listed pair, in order |
| Engine.Universe.Tick | src/lib.rs:145-173 | `cells` becomes the next generation of the old `cells` followed by the scratch buffer's cleared tail; the scratch buffer equals it; dimensions are kept |
| Engine.Universe.SetWidth | src/lib.rs:196-202 | the width is updated, `cells` is a fresh cleared buffer of width * height bits, and the scratch buffer is not resized |
| Engine.Universe.SetHeight | src/lib.rs:207-213 | the height is updated, `cells` is a fresh cleared buffer of width * height bits, and the scratch buffer is not resized |
| Engine.Universe.ToggleCell | src/lib.rs:215-219 | exactly the bit at `get_index(row, col)` is flipped |
| Engine.Universe.ResetClear | src/lib.rs:221-223 | every bit is cleared and the length is kept |
| Engine.Universe.InsertGliderAtPos | src/lib.rs:235-252 | `cells` is the old buffer after the nine glider stores |
| Engine.Universe.InsertPulsarAtPos | src/lib.rs:254-274 | `cells` is the old buffer after the 169 pulsar stores |
| Scenarios.LoneCell | src/lib.rs:215-223 | a grid whose bit i is set iff i is the index of cell (row, col) |
| Scenarios.ToggledOnCleared | src/lib.rs:215-223 | `reset_clear` followed by `toggle_cell(row, col)` gives the lone-cell grid |
| Scenarios.LoneCellAt | src/lib.rs:80-114 | on a grid at least 3 by 3, no cell within two steps of the lone cell, other than itself, is alive |
| Scenarios.LoneCellIsolated | src/lib.rs:80-114 | the lone cell's own neighbour count is 0 |
| Scenarios.LoneCellSeenFrom | src/lib.rs:80-114 | from the neighbour at offset (dr, dc), the only live cell among its eight is at offset (-dr, -dc) |
| Scenarios.LoneCellNeighbour | src/lib.rs:80-114 | each of the lone cell's eight torus neighbours has neighbour count exactly 1 |
| Scenarios.LoneCellStarves | src/lib.rs:145-173 | after one tick the lone cell is dead, since it has no live neighbour |
| Scenarios.LoneCellNeighbourUnborn | src/lib.rs:145-173 | after one tick each of the lone cell's eight neighbours is still dead, since each sees only one live cell |
| Scenarios.LoneCellDies | src/lib.rs:145-173 | after one tick, the lone cell and each of its eight neighbours are dead |
| Scenarios.BlockIsStill | src/lib.rs:145-173 | on a 4 by 4 grid, a tick leaves the 2 by 2 block in the middle exactly as it was, every other cell dead |
| Scenarios.BlinkerTurns | src/lib.rs:145-173 | on a 5 by 5 grid, a tick turns the horizontal three-cell bar in the middle row into the vertical bar in the middle column, every other cell dead |
| Scenarios.BlinkerTurnsBack | src/lib.rs:145-173 | a tick turns the vertical bar back into the horizontal one |
| Scenarios.BlinkerPeriodTwo | src/lib.rs:145-173 | two ticks bring the horizontal blinker back to itself, passing through the vertical one |

## Left out

- `reset_random` (src/lib.rs:225-233): it draws each bit from the host's random number generator with a floating-point comparison.
- `Timer`, the `log!` macro and the extern `alert` (src/lib.rs:18-44): console I/O in the host.
- The `wasm_bindgen` bindings, the `wee_alloc` allocator and the panic hook set in `new`: these are host setup with no behaviour to state.
- `cells()` (src/lib.rs:288-290): it returns a raw pointer to the bit set's storage words.
- `render` and `Display::fmt` (src/lib.rs:276-304): they print the bit set's internal `u32` words, whose layout belongs to the `fixedbitset` crate. That crate is not part of this model.
- `FixedBitSet` is modelled as an array of booleans, one per bit, sized to the requested capacity. Capacity rounding up to whole words is not modelled.
- Reading a bit out of range is not modelled. It yields `false` rather than panicking, but every read here is in range.
- Release-build wrap-around of `u32` arithmetic is not modelled. Overflow and underflow, which panic in a debug build, are preconditions: `Valid`, `SetWidth`, `SetHeight`, `InsertGliderAtPos` and the pulsar's `PulsarFits`. The latter includes the 32-bit `usize` sum `row_idx + idx`.
- Patterns.GliderFootprint: the glider's shape is proved only on grids at least 3 by 3, while the frame holds on every non-empty grid. On smaller grids the nine stores overlap, and the last one to each cell wins, which `StampGlider` still states exactly through `Writes.Apply`.
- Patterns.PulsarFootprint: the pulsar's shape is proved only on grids at least 13 by 13, while the frame holds on every grid the stamp fits. On smaller grids the template cells overlap, and `StampPulsar` still states the exact store sequence.
- Writes.Apply: it passes over a store outside the buffer. The source would panic there, so every operation that uses it also proves that all its stores are in bounds.
- The glider's drift and the pulsar's oscillation over several generations are not proved. The block and the blinker in `Scenarios` sit on fixed 4 by 4 and 5 by 5 grids, so every neighbour count there is a concrete number. The stamps instead place their patterns at any position on a grid of any size, and following them for four ticks (glider) or three (pulsar) would need every neighbour count of every intermediate generation on a symbolic grid.
- `tick` is split into one method per loop level (`WriteNextGeneration`, `WriteNextRow`, `WriteNextCell`), and so are the stamps and `get_cells`. The split keeps each proof small. The order of stores is the source's.
