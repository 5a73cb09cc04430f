/// Every mutator except the resizers and the clear is a sequence of
/// single-bit stores (`FixedBitSet::set`) carried out in order; this module
/// gives that sequence a meaning: the last store to an index wins, indices
/// nobody stores to keep their bit.
module Writes {
  import opened Grid

  /// One `set(index, value)` call.
  datatype BitWrite = BitWrite(index: nat, value: bool)

  /// Every store lands inside a buffer of `len` bits (`set` panics otherwise).
  predicate InBounds(ws: seq<BitWrite>, len: nat) {
    forall k :: 0 <= k < |ws| ==> ws[k].index < len
  }

  /// The buffer after carrying out the stores from first to last. A store
  /// outside the buffer, on which `set` would panic, is passed over; every
  /// operation below proves `InBounds` of its stores, so none is.
  function Apply(cells: seq<bool>, ws: seq<BitWrite>): (r: seq<bool>)
    ensures |r| == |cells|
  {
    if ws == [] then cells
    else
      var before := Apply(cells, ws[..|ws| - 1]);
      var last := ws[|ws| - 1];
      if last.index < |before| then before[last.index := last.value] else before
  }

  /// Appending one store to the list applies it on top of the others.
  lemma ApplySnoc(cells: seq<bool>, ws: seq<BitWrite>, w: BitWrite)
    requires w.index < |cells|
    ensures Apply(cells, ws + [w]) == Apply(cells, ws)[w.index := w.value]
  {
    assert (ws + [w])[..|ws|] == ws;
  }

  /// Carrying out a + b is carrying out a, then b.
  lemma {:induction false} ApplyConcat(cells: seq<bool>, a: seq<BitWrite>, b: seq<BitWrite>)
    ensures Apply(cells, a + b) == Apply(Apply(cells, a), b)
  {
    if b == [] {
      assert a + b == a;
    } else {
      var ab := a + b;
      assert ab[..|ab| - 1] == a + b[..|b| - 1];
      assert ab[|ab| - 1] == b[|b| - 1];
      ApplyConcat(cells, a, b[..|b| - 1]);
    }
  }

  /// Stores of `bits` to consecutive indices, starting at `first`.
  function Span(first: nat, bits: seq<bool>): (ws: seq<BitWrite>)
    ensures |ws| == |bits|
  {
    seq(|bits|, j requires 0 <= j < |bits| => BitWrite(first + j, bits[j]))
  }

  /// The first k + 1 stores of a span are its first k and store k.
  lemma SpanPrefix(first: nat, bits: seq<bool>, k: nat)
    requires k < |bits|
    ensures Span(first, bits)[..k + 1] == Span(first, bits)[..k] + [BitWrite(first + k, bits[k])]
  {
  }

  /// Position of the last store to index i, or -1 when no store touches i.
  function LastWrite(ws: seq<BitWrite>, i: nat): (k: int)
    ensures -1 <= k < |ws|
    ensures k >= 0 ==> ws[k].index == i
    ensures forall j :: k < j < |ws| ==> ws[j].index != i
  {
    if ws == [] then -1
    else if ws[|ws| - 1].index == i then |ws| - 1
    else LastWrite(ws[..|ws| - 1], i)
  }

  /// Bit i after the stores is the value of the last store to i, or the old
  /// bit when there is none.
  lemma {:induction false} ApplyAt(cells: seq<bool>, ws: seq<BitWrite>, i: nat)
    requires i < |cells|
    ensures var k := LastWrite(ws, i);
      Apply(cells, ws)[i] == if k < 0 then cells[i] else ws[k].value
  {
    if ws != [] {
      ApplyAt(cells, ws[..|ws| - 1], i);
    }
  }

  /// A store that no later store overwrites decides its bit.
  lemma LastStoreWins(cells: seq<bool>, ws: seq<BitWrite>, k: nat)
    requires k < |ws| && ws[k].index < |cells|
    requires forall j :: k < j < |ws| ==> ws[j].index != ws[k].index
    ensures Apply(cells, ws)[ws[k].index] == ws[k].value
  {
    ApplyAt(cells, ws, ws[k].index);
  }

  /// A bit that no store touches is left as it was.
  lemma Untouched(cells: seq<bool>, ws: seq<BitWrite>, i: nat)
    requires i < |cells|
    requires forall k :: 0 <= k < |ws| ==> ws[k].index != i
    ensures Apply(cells, ws)[i] == cells[i]
  {
    ApplyAt(cells, ws, i);
  }

  /// Carrying out the same stores a second time changes nothing.
  lemma ApplyIdempotent(cells: seq<bool>, ws: seq<BitWrite>)
    ensures Apply(Apply(cells, ws), ws) == Apply(cells, ws)
  {
    var once := Apply(cells, ws);
    forall i | 0 <= i < |cells| ensures Apply(once, ws)[i] == once[i] {
      ApplyAt(cells, ws, i);
      ApplyAt(once, ws, i);
    }
  }

  // ---------------------------------------------------------------------
  // set_cells: a list of (row, col) pairs, each made alive
  // ---------------------------------------------------------------------

  /// Every listed cell has an index inside a buffer of `len` bits.
  predicate CoordsFit(width: nat, coords: seq<(nat, nat)>, len: nat) {
    forall k :: 0 <= k < |coords| ==> Index(width, coords[k].0, coords[k].1) < len
  }

  /// The stores `set_cells` makes: one `set(get_index(row, col), true)` per pair.
  function MarkWrites(width: nat, coords: seq<(nat, nat)>): seq<BitWrite> {
    seq(|coords|, k requires 0 <= k < |coords| => BitWrite(Index(width, coords[k].0, coords[k].1), true))
  }

  /// After `set_cells`, a bit is set exactly when it was set before or some
  /// listed pair maps to it.
  lemma MarkedAt(cells: seq<bool>, width: nat, coords: seq<(nat, nat)>, i: nat)
    requires CoordsFit(width, coords, |cells|) && i < |cells|
    ensures InBounds(MarkWrites(width, coords), |cells|)
    ensures Apply(cells, MarkWrites(width, coords))[i]
        <==> cells[i] || exists k :: 0 <= k < |coords| && Index(width, coords[k].0, coords[k].1) == i
  {
    var ws := MarkWrites(width, coords);
    assert InBounds(ws, |cells|) by {
      forall j | 0 <= j < |ws| ensures ws[j].index < |cells| {
        assert ws[j].index == Index(width, coords[j].0, coords[j].1);
      }
    }
    ApplyAt(cells, ws, i);
    var k := LastWrite(ws, i);
    if k < 0 {
      forall j | 0 <= j < |coords| ensures Index(width, coords[j].0, coords[j].1) != i {
        assert ws[j].index == Index(width, coords[j].0, coords[j].1);
      }
    } else {
      assert ws[k].value && Index(width, coords[k].0, coords[k].1) == i;
    }
  }

  /// Marking the same list twice gives the grid marking it once gives.
  lemma MarkIdempotent(cells: seq<bool>, width: nat, coords: seq<(nat, nat)>)
    requires CoordsFit(width, coords, |cells|)
    ensures InBounds(MarkWrites(width, coords), |cells|)
    ensures Apply(Apply(cells, MarkWrites(width, coords)), MarkWrites(width, coords))
         == Apply(cells, MarkWrites(width, coords))
  {
    ApplyIdempotent(cells, MarkWrites(width, coords));
  }

  /// Only which pairs are listed matters, not their order or repetitions.
  lemma MarkOrderIrrelevant(cells: seq<bool>, width: nat, c1: seq<(nat, nat)>, c2: seq<(nat, nat)>)
    requires CoordsFit(width, c1, |cells|)
    requires forall p :: p in c1 <==> p in c2
    ensures CoordsFit(width, c2, |cells|)
    ensures Apply(cells, MarkWrites(width, c1)) == Apply(cells, MarkWrites(width, c2))
  {
    assert CoordsFit(width, c2, |cells|) by {
      forall k | 0 <= k < |c2| ensures Index(width, c2[k].0, c2[k].1) < |cells| {
        assert c2[k] in c1;
      }
    }
    forall i | 0 <= i < |cells|
      ensures Apply(cells, MarkWrites(width, c1))[i] == Apply(cells, MarkWrites(width, c2))[i]
    {
      MarkedAt(cells, width, c1, i);
      MarkedAt(cells, width, c2, i);
      if exists k :: 0 <= k < |c1| && Index(width, c1[k].0, c1[k].1) == i {
        var k :| 0 <= k < |c1| && Index(width, c1[k].0, c1[k].1) == i;
        assert c1[k] in c2;
      }
      if exists k :: 0 <= k < |c2| && Index(width, c2[k].0, c2[k].1) == i {
        var k :| 0 <= k < |c2| && Index(width, c2[k].0, c2[k].1) == i;
        assert c2[k] in c1;
      }
    }
  }
}
