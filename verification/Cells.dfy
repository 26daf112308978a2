/** What both engines keep for one position of the screen. */
module Cells {
  datatype Cell = Cell(ch: char, attr: bv8)

  /** A cell of a screen that was never written. */
  const EMPTY: Cell := Cell(' ', 0)
}
