/** The board of the Lights Out game: a grid of lit/unlit cells, its random
    initialiser, the toggle rule a click applies, and the win predicate. */
module Board {

  /** A board: rows of cells; `true` is a lit cell, `false` an unlit one. */
  type Grid = seq<seq<bool>>

  /** `b` has exactly `nrows` rows of exactly `ncols` cells each. */
  predicate WellFormed(b: Grid, nrows: nat, ncols: nat) {
    |b| == nrows && forall i :: 0 <= i < |b| ==> |b[i]| == ncols
  }

  /** The `nrows` x `ncols` board with every cell unlit. */
  function AllOff(nrows: nat, ncols: nat): (b: Grid)
    ensures WellFormed(b, nrows, ncols)
    ensures forall i, j :: 0 <= i < nrows && 0 <= j < ncols ==> !b[i][j]
  {
    seq(nrows, _ => seq(ncols, _ => false))
  }

  /** Two boards of the same dimensions that agree on every cell are equal. */
  lemma GridExtensionality(a: Grid, b: Grid, nrows: nat, ncols: nat)
    requires WellFormed(a, nrows, ncols) && WellFormed(b, nrows, ncols)
    requires forall i, j :: 0 <= i < nrows && 0 <= j < ncols ==> a[i][j] == b[i][j]
    ensures a == b
  {
    forall i | 0 <= i < nrows
      ensures a[i] == b[i]
    {
      assert |a[i]| == |b[i]| == ncols;
    }
  }

  // ---------------------------------------------------------------------------
  // Initialisation
  // ---------------------------------------------------------------------------

  /** Position, in the stream of random draws, of the draw that decides cell
      (i, j): the initialiser draws once per cell, row by row, so every row
      before row i uses up `ncols` draws. */
  function DrawIndex(ncols: nat, i: nat, j: nat): nat {
    if i == 0 then j else ncols + DrawIndex(ncols, i - 1, j)
  }

  /** The draw of cell (i, j) is the (i * ncols + j)-th of the stream. */
  lemma {:induction false} DrawIndexValue(ncols: nat, i: nat, j: nat)
    ensures DrawIndex(ncols, i, j) == i * ncols + j
    decreases i
  {
    if i > 0 {
      DrawIndexValue(ncols, i - 1, j);
      assert i * ncols == (i - 1) * ncols + ncols;
    }
  }

  /** Within a row, the draws follow one another from the row's first. */
  lemma {:induction false} DrawIndexInRow(ncols: nat, i: nat, j: nat)
    ensures DrawIndex(ncols, i, j) == DrawIndex(ncols, i, 0) + j
    decreases i
  {
    if i > 0 {
      DrawIndexInRow(ncols, i - 1, j);
    }
  }

  /** Multiplying by the same natural number keeps the order. */
  lemma MulMonotone(a: nat, b: nat, c: nat)
    requires a <= b
    ensures a * c <= b * c
  {
    assert b * c == a * c + (b - a) * c;
  }

  /** The draws after the first row are one per cell of the remaining rows. */
  lemma DrawCountSplit(nrows: nat, ncols: nat)
    requires 0 < nrows
    ensures nrows * ncols == ncols + (nrows - 1) * ncols
  {
  }

  /** A cell starts lit exactly when its draw is strictly above the threshold. */
  predicate StartsLit(draw: real, chanceLightStartsOn: real) {
    draw > chanceLightStartsOn
  }

  /** One row of the initial board, from that row's draws. */
  function InitialRow(draws: seq<real>, chanceLightStartsOn: real): (row: seq<bool>)
    ensures |row| == |draws|
    ensures forall j :: 0 <= j < |draws| ==> row[j] == StartsLit(draws[j], chanceLightStartsOn)
  {
    if |draws| == 0 then []
    else [StartsLit(draws[0], chanceLightStartsOn)] + InitialRow(draws[1..], chanceLightStartsOn)
  }

  /** The initial board decided by the stream `draws`, one draw per cell, row
      by row: the first `ncols` draws decide the first row, the rest decide the
      remaining rows. It is the reference the initialiser is proved against. */
  function InitialBoard(nrows: nat, ncols: nat, chanceLightStartsOn: real, draws: seq<real>): (b: Grid)
    requires |draws| == nrows * ncols
    ensures WellFormed(b, nrows, ncols)
    decreases nrows
  {
    if nrows == 0 then []
    else
      DrawCountSplit(nrows, ncols);
      [InitialRow(draws[..ncols], chanceLightStartsOn)]
        + InitialBoard(nrows - 1, ncols, chanceLightStartsOn, draws[ncols..])
  }

  /** Every cell (i, j) of `b` is lit exactly when its own draw, the
      DrawIndex(ncols, i, j)-th of the stream, exceeds the threshold. */
  predicate DecidedByDraws(b: Grid, ncols: nat, chanceLightStartsOn: real, draws: seq<real>) {
    forall i, j :: 0 <= i < |b| && 0 <= j < |b[i]| ==>
      DrawIndex(ncols, i, j) < |draws| && b[i][j] == StartsLit(draws[DrawIndex(ncols, i, j)], chanceLightStartsOn)
  }

  /** Appending the row decided by the next `ncols` draws keeps every cell
      decided by its own draw. */
  lemma AppendDecidedRow(b: Grid, row: seq<bool>, ncols: nat, chanceLightStartsOn: real, draws: seq<real>)
    requires DecidedByDraws(b, ncols, chanceLightStartsOn, draws)
    requires |row| == ncols
    requires DrawIndex(ncols, |b|, 0) + ncols <= |draws|
    requires forall j :: 0 <= j < ncols ==>
      row[j] == StartsLit(draws[DrawIndex(ncols, |b|, 0) + j], chanceLightStartsOn)
    ensures DecidedByDraws(b + [row], ncols, chanceLightStartsOn, draws)
  {
    var b' := b + [row];
    forall i, j | 0 <= i < |b'| && 0 <= j < |b'[i]|
      ensures DrawIndex(ncols, i, j) < |draws|
              && b'[i][j] == StartsLit(draws[DrawIndex(ncols, i, j)], chanceLightStartsOn)
    {
      if i < |b| {
        assert b'[i] == b[i];
      } else {
        DrawIndexInRow(ncols, i, j);
        assert b'[i] == row;
      }
    }
    assert DecidedByDraws(b', ncols, chanceLightStartsOn, draws);
  }

  /** Cell (i, j) of the reference initial board is lit exactly when its own
      draw exceeds the threshold. */
  lemma {:induction false} InitialBoardCell(nrows: nat, ncols: nat, chanceLightStartsOn: real, draws: seq<real>, i: nat, j: nat)
    requires |draws| == nrows * ncols
    requires i < nrows && j < ncols
    ensures DrawIndex(ncols, i, j) < |draws|
    ensures InitialBoard(nrows, ncols, chanceLightStartsOn, draws)[i][j]
      == StartsLit(draws[DrawIndex(ncols, i, j)], chanceLightStartsOn)
    decreases nrows
  {
    DrawCountSplit(nrows, ncols);
    var tail := draws[ncols..];
    var rest := InitialBoard(nrows - 1, ncols, chanceLightStartsOn, tail);
    var b := InitialBoard(nrows, ncols, chanceLightStartsOn, draws);
    assert b == [InitialRow(draws[..ncols], chanceLightStartsOn)] + rest;
    if i > 0 {
      InitialBoardCell(nrows - 1, ncols, chanceLightStartsOn, tail, i - 1, j);
      assert b[i] == rest[i - 1];
      assert tail[DrawIndex(ncols, i - 1, j)] == draws[DrawIndex(ncols, i, j)];
    }
  }

  /** The draws of a whole row lie inside a stream of one draw per cell. */
  lemma RowDrawsInRange(nrows: nat, ncols: nat, i: nat)
    requires i < nrows
    ensures DrawIndex(ncols, i, 0) + ncols <= nrows * ncols
  {
    DrawIndexValue(ncols, i, 0);
    MulMonotone(i + 1, nrows, ncols);
    assert i * ncols + ncols == (i + 1) * ncols;
  }

  /** One row of the initialiser: `ncols` cells, the j-th lit exactly when
      the draw at `start + j` exceeds `chanceLightStartsOn`. */
  method CreateRow(ncols: nat, chanceLightStartsOn: real, draws: seq<real>, start: nat) returns (row: seq<bool>)
    requires start + ncols <= |draws|
    ensures |row| == ncols
    ensures forall j :: 0 <= j < ncols ==> row[j] == StartsLit(draws[start + j], chanceLightStartsOn)
  {
    row := [];
    var j := 0;
    while j < ncols
      invariant 0 <= j <= ncols
      invariant |row| == j
      invariant forall j' :: 0 <= j' < j ==> row[j'] == StartsLit(draws[start + j'], chanceLightStartsOn)
    {
      var randomNum := draws[start + j];
      row := row + [StartsLit(randomNum, chanceLightStartsOn)];
      j := j + 1;
    }
  }

  /** The board initialiser: `nrows` rows of `ncols` cells, each lit exactly
      when its draw exceeds `chanceLightStartsOn`. The random source is the
      injected stream `draws`, consumed one draw per cell, row by row. */
  method CreateBoard(nrows: nat, ncols: nat, chanceLightStartsOn: real, draws: seq<real>) returns (b: Grid)
    requires |draws| == nrows * ncols
    ensures WellFormed(b, nrows, ncols)
    ensures DecidedByDraws(b, ncols, chanceLightStartsOn, draws)
  {
    b := [];
    var k := 0;
    var i := 0;
    while i < nrows
      invariant 0 <= i <= nrows
      invariant k == DrawIndex(ncols, i, 0)
      invariant WellFormed(b, i, ncols)
      invariant DecidedByDraws(b, ncols, chanceLightStartsOn, draws)
    {
      RowDrawsInRange(nrows, ncols, i);
      var row := CreateRow(ncols, chanceLightStartsOn, draws, k);
      AppendDecidedRow(b, row, ncols, chanceLightStartsOn, draws);
      b := b + [row];
      k := k + ncols;
      i := i + 1;
    }
  }

  /** A board of the right dimensions whose every cell is decided by its own
      draw is the reference initial board: the initialiser's contract
      determines its result. */
  lemma DecidedBoardIsInitial(b: Grid, nrows: nat, ncols: nat, chanceLightStartsOn: real, draws: seq<real>)
    requires |draws| == nrows * ncols
    requires WellFormed(b, nrows, ncols)
    requires DecidedByDraws(b, ncols, chanceLightStartsOn, draws)
    ensures b == InitialBoard(nrows, ncols, chanceLightStartsOn, draws)
  {
    var reference := InitialBoard(nrows, ncols, chanceLightStartsOn, draws);
    forall i, j | 0 <= i < nrows && 0 <= j < ncols
      ensures b[i][j] == reference[i][j]
    {
      InitialBoardCell(nrows, ncols, chanceLightStartsOn, draws, i, j);
    }
    GridExtensionality(b, reference, nrows, ncols);
  }

  // ---------------------------------------------------------------------------
  // Winning
  // ---------------------------------------------------------------------------

  /** Every cell of `row` is unlit, checked cell by cell from the left. */
  predicate RowAllOff(row: seq<bool>) {
    |row| == 0 || (row[0] == false && RowAllOff(row[1..]))
  }

  /** The win predicate: every row has every cell unlit, checked row by row. */
  predicate HasWon(b: Grid) {
    |b| == 0 || (RowAllOff(b[0]) && HasWon(b[1..]))
  }

  // ---------------------------------------------------------------------------
  // The toggle rule
  // ---------------------------------------------------------------------------

  /** (y, x) names a cell of an `nrows` x `ncols` board. */
  predicate InBounds(nrows: nat, ncols: nat, y: int, x: int) {
    0 <= x < ncols && 0 <= y < nrows
  }

  /** Negates the cell at row y, column x when it is on the board; a
      coordinate off the board is skipped without complaint. */
  function FlipCell(b: Grid, nrows: nat, ncols: nat, y: int, x: int): (r: Grid)
    requires WellFormed(b, nrows, ncols)
    ensures WellFormed(r, nrows, ncols)
    ensures forall i, j :: 0 <= i < nrows && 0 <= j < ncols ==>
      r[i][j] == (if i == y && j == x then !b[i][j] else b[i][j])
    ensures !InBounds(nrows, ncols, y, x) ==> r == b
  {
    if InBounds(nrows, ncols, y, x) then b[y := b[y][x := !b[y][x]]] else b
  }

  /** Cell (i, j) is one of the five cells a flip centred on (y, x) targets:
      the centre and its four orthogonal neighbours. */
  predicate InNeighbourhood(y: int, x: int, i: int, j: int) {
    || (i == y && j == x)
    || (i == y - 1 && j == x)
    || (i == y + 1 && j == x)
    || (i == y && j == x - 1)
    || (i == y && j == x + 1)
  }

  /** At least one of the five targets of a flip centred on (y, x) is on the board. */
  predicate AnyTargetInBounds(nrows: nat, ncols: nat, y: int, x: int) {
    || InBounds(nrows, ncols, y, x)
    || InBounds(nrows, ncols, y - 1, x)
    || InBounds(nrows, ncols, y + 1, x)
    || InBounds(nrows, ncols, y, x - 1)
    || InBounds(nrows, ncols, y, x + 1)
  }

  /** The toggle rule, centred on row y, column x: flips the centre, the cells
      above and below, then the cells left and right, each only if on the board. */
  function FlipCellsAround(b: Grid, nrows: nat, ncols: nat, y: int, x: int): (r: Grid)
    requires WellFormed(b, nrows, ncols)
    ensures WellFormed(r, nrows, ncols)
    ensures forall i, j :: 0 <= i < nrows && 0 <= j < ncols ==>
      r[i][j] == (b[i][j] != InNeighbourhood(y, x, i, j))
  {
    var b1 := FlipCell(b, nrows, ncols, y, x);
    var b2 := FlipCell(b1, nrows, ncols, y - 1, x);
    var b3 := FlipCell(b2, nrows, ncols, y + 1, x);
    var b4 := FlipCell(b3, nrows, ncols, y, x - 1);
    FlipCell(b4, nrows, ncols, y, x + 1)
  }
}
