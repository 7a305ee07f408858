/** The click path of the board: a cell hands its coordinate string to the
    toggle rule, which decodes it into a centre and flips around it. */
module Click {
  import opened Board
  import opened BoardLemmas
  import opened Coords

  /** The toggle rule entered with a coordinate string: the string is decoded
      into (y, x) and the board flipped around that centre. A string outside
      the modelled format leaves the board unchanged. */
  function FlipCellsAroundCoord(b: Grid, nrows: nat, ncols: nat, coord: string): (r: Grid)
    requires WellFormed(b, nrows, ncols)
    ensures WellFormed(r, nrows, ncols)
  {
    match ParseCoord(coord)
    case Some((y, x)) => FlipCellsAround(b, nrows, ncols, y, x)
    case None => b
  }

  /** The string "y-x" flips around row y, column x. */
  lemma FlipCellsAroundCoordFormat(b: Grid, nrows: nat, ncols: nat, y: nat, x: nat)
    requires WellFormed(b, nrows, ncols)
    ensures FlipCellsAroundCoord(b, nrows, ncols, Format(y, x)) == FlipCellsAround(b, nrows, ncols, y, x)
  {
    ParseFormat(y, x);
  }

  /** Handing the same coordinate string in twice gives back the original board. */
  lemma FlipCellsAroundCoordInvolution(b: Grid, nrows: nat, ncols: nat, coord: string)
    requires WellFormed(b, nrows, ncols)
    ensures FlipCellsAroundCoord(FlipCellsAroundCoord(b, nrows, ncols, coord), nrows, ncols, coord) == b
  {
    match ParseCoord(coord)
    case Some((y, x)) => FlipCellsAroundInvolution(b, nrows, ncols, y, x);
    case None =>
  }

  /** A click on the cell at row i, column j, as written: the cell's string is
      column-then-row while the decoding reads row-then-column. */
  function ClickCell(b: Grid, nrows: nat, ncols: nat, i: nat, j: nat): (r: Grid)
    requires WellFormed(b, nrows, ncols)
    requires i < nrows && j < ncols
    ensures WellFormed(r, nrows, ncols)
  {
    FlipCellsAroundCoord(b, nrows, ncols, CellCoords(i, j))
  }

  /** A click on row i, column j flips around row j, column i. */
  lemma ClickCellTransposed(b: Grid, nrows: nat, ncols: nat, i: nat, j: nat)
    requires WellFormed(b, nrows, ncols)
    requires i < nrows && j < ncols
    ensures ClickCell(b, nrows, ncols, i, j) == FlipCellsAround(b, nrows, ncols, j, i)
  {
    CellCoordsDecodeTransposed(i, j);
  }

  /** The clicked cell itself changes exactly when it lies on the main
      diagonal: every click off the diagonal leaves it as it was. */
  lemma ClickedCellToggledIff(b: Grid, nrows: nat, ncols: nat, i: nat, j: nat)
    requires WellFormed(b, nrows, ncols)
    requires i < nrows && j < ncols
    ensures ClickCell(b, nrows, ncols, i, j)[i][j] != b[i][j] <==> i == j
  {
    ClickCellTransposed(b, nrows, ncols, i, j);
  }

  /** On a board of 2 rows and 3 columns with only row 1, column 2 lit, a
      click on row 0, column 2 leaves that cell unlit and toggles only row 1,
      column 0. */
  lemma ClickCellCounterexample()
    ensures ClickCell([[false, false, false], [false, false, true]], 2, 3, 0, 2)
      == [[false, false, false], [true, false, true]]
  {
    var b := [[false, false, false], [false, false, true]];
    var r := ClickCell(b, 2, 3, 0, 2);
    ClickCellTransposed(b, 2, 3, 0, 2);
    GridExtensionality(r, [[false, false, false], [true, false, true]], 2, 3);
  }

  /** The coordinate string the decoding expects for the cell at row i,
      column j: the row first, then the column. */
  function IntendedCellCoords(i: nat, j: nat): string {
    Format(i, j)
  }

  /** A click on the cell at row i, column j with the row-then-column string. */
  function ClickCellIntended(b: Grid, nrows: nat, ncols: nat, i: nat, j: nat): (r: Grid)
    requires WellFormed(b, nrows, ncols)
    requires i < nrows && j < ncols
    ensures WellFormed(r, nrows, ncols)
  {
    FlipCellsAroundCoord(b, nrows, ncols, IntendedCellCoords(i, j))
  }

  /** With the row-then-column string a click flips around the clicked cell,
      and the clicked cell always changes. */
  lemma ClickCellIntendedCentred(b: Grid, nrows: nat, ncols: nat, i: nat, j: nat)
    requires WellFormed(b, nrows, ncols)
    requires i < nrows && j < ncols
    ensures ClickCellIntended(b, nrows, ncols, i, j) == FlipCellsAround(b, nrows, ncols, i, j)
    ensures ClickCellIntended(b, nrows, ncols, i, j)[i][j] == !b[i][j]
  {
    ParseFormat(i, j);
  }
}
