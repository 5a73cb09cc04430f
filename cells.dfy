/// The per-cell value exposed to the host: a cell is either dead or alive.
module Cells {

  datatype Cell = Dead | Alive

  /// Flips a cell; with only two states, differing from the input pins the
  /// result down completely.
  function Toggle(c: Cell): (r: Cell)
    ensures r != c
  {
    match c
    case Alive => Dead
    case Dead => Alive
  }

  /// Toggling twice gives the cell back.
  lemma ToggleInvolution(c: Cell)
    ensures Toggle(Toggle(c)) == c
  {
  }

  /// The tag reported for a stored bit.
  function FromBit(alive: bool): (c: Cell)
    ensures c.Alive? <==> alive
  {
    if alive then Alive else Dead
  }
}
