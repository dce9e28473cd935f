/** The index arithmetic of the terminal board: square 0 (a1) is drawn in
    the bottom-left cell, square 63 (h8) in the top-right one. Only the
    mapping is modelled, not the drawing. */
module Display {
  import opened Chess

  /** The grid cell (row from the top, column from the left) of a square. */
  function GridCell(square: Square): (cell: (int, int))
    ensures 0 <= cell.0 < 8 && 0 <= cell.1 < 8
    ensures SquareAt(cell.0, cell.1) == square
  {
    (7 - square / 8, square % 8)
  }

  /** The square drawn in a grid cell. */
  function SquareAt(row: int, col: int): (square: Square)
    requires 0 <= row < 8 && 0 <= col < 8
    ensures square / 8 == 7 - row && square % 8 == col
  {
    (7 - row) * 8 + col
  }

  /** Every cell shows exactly one square: GridCell undoes SquareAt. */
  lemma GridCellOfSquareAt(row: int, col: int)
    requires 0 <= row < 8 && 0 <= col < 8
    ensures GridCell(SquareAt(row, col)) == (row, col)
  {
  }

  /** Distinct squares are drawn in distinct cells. */
  lemma GridCellInjective(a: Square, b: Square)
    requires GridCell(a) == GridCell(b)
    ensures a == b
  {
  }
}
