/** Properties of the Lights Out board: what winning means, what a flip does
    to the win, and how the initial board is decided by its draws. */
module BoardLemmas {
  import opened Board

  // ---------------------------------------------------------------------------
  // Winning
  // ---------------------------------------------------------------------------

  /** A row passes the cell-by-cell check exactly when no cell of it is lit. */
  lemma {:induction false} RowAllOffIff(row: seq<bool>)
    ensures RowAllOff(row) <==> forall j :: 0 <= j < |row| ==> !row[j]
    decreases |row|
  {
    if |row| > 0 {
      RowAllOffIff(row[1..]);
      assert forall j :: 1 <= j < |row| ==> row[j] == row[1..][j - 1];
    }
  }

  /** The win predicate holds exactly when no cell of any row is lit. */
  lemma {:induction false} HasWonIff(b: Grid)
    ensures HasWon(b) <==> forall i, j :: 0 <= i < |b| && 0 <= j < |b[i]| ==> !b[i][j]
    decreases |b|
  {
    if |b| > 0 {
      RowAllOffIff(b[0]);
      HasWonIff(b[1..]);
      assert forall i :: 1 <= i < |b| ==> b[i] == b[1..][i - 1];
    }
  }

  /** The all-unlit board of any size is won. */
  lemma AllOffWon(nrows: nat, ncols: nat)
    ensures HasWon(AllOff(nrows, ncols))
  {
    HasWonIff(AllOff(nrows, ncols));
  }

  /** A board with a lit cell is not won. */
  lemma LitCellNotWon(b: Grid, i: nat, j: nat)
    requires i < |b| && j < |b[i]| && b[i][j]
    ensures !HasWon(b)
  {
    HasWonIff(b);
  }

  // ---------------------------------------------------------------------------
  // The toggle rule
  // ---------------------------------------------------------------------------

  /** Flipping around the same centre twice gives back the original board. */
  lemma FlipCellsAroundInvolution(b: Grid, nrows: nat, ncols: nat, y: int, x: int)
    requires WellFormed(b, nrows, ncols)
    ensures FlipCellsAround(FlipCellsAround(b, nrows, ncols, y, x), nrows, ncols, y, x) == b
  {
    var r := FlipCellsAround(FlipCellsAround(b, nrows, ncols, y, x), nrows, ncols, y, x);
    GridExtensionality(r, b, nrows, ncols);
  }

  /** Some on-board target of a flip centred on (y, x), when there is one. */
  lemma TargetInBounds(nrows: nat, ncols: nat, y: int, x: int) returns (i: int, j: int)
    requires AnyTargetInBounds(nrows, ncols, y, x)
    ensures InBounds(nrows, ncols, i, j) && InNeighbourhood(y, x, i, j)
  {
    if InBounds(nrows, ncols, y, x) {
      i, j := y, x;
    } else if InBounds(nrows, ncols, y - 1, x) {
      i, j := y - 1, x;
    } else if InBounds(nrows, ncols, y + 1, x) {
      i, j := y + 1, x;
    } else if InBounds(nrows, ncols, y, x - 1) {
      i, j := y, x - 1;
    } else {
      i, j := y, x + 1;
    }
  }

  /** A flip leaves the board as it was exactly when none of its five targets
      is on the board (a centre far enough off the board). */
  lemma FlipCellsAroundUnchangedIff(b: Grid, nrows: nat, ncols: nat, y: int, x: int)
    requires WellFormed(b, nrows, ncols)
    ensures FlipCellsAround(b, nrows, ncols, y, x) == b <==> !AnyTargetInBounds(nrows, ncols, y, x)
  {
    var r := FlipCellsAround(b, nrows, ncols, y, x);
    if AnyTargetInBounds(nrows, ncols, y, x) {
      var i, j := TargetInBounds(nrows, ncols, y, x);
      assert r[i][j] != b[i][j];
    } else {
      GridExtensionality(r, b, nrows, ncols);
    }
  }

  /** From a won board, a flip leaves the game won exactly when none of its
      targets is on the board; in particular a flip centred on a cell of the
      board always lights something. */
  lemma FlipFromWonIff(b: Grid, nrows: nat, ncols: nat, y: int, x: int)
    requires WellFormed(b, nrows, ncols) && HasWon(b)
    ensures HasWon(FlipCellsAround(b, nrows, ncols, y, x)) <==> !AnyTargetInBounds(nrows, ncols, y, x)
    ensures InBounds(nrows, ncols, y, x) ==> !HasWon(FlipCellsAround(b, nrows, ncols, y, x))
  {
    var r := FlipCellsAround(b, nrows, ncols, y, x);
    HasWonIff(b);
    if AnyTargetInBounds(nrows, ncols, y, x) {
      var i, j := TargetInBounds(nrows, ncols, y, x);
      LitCellNotWon(r, i, j);
    } else {
      FlipCellsAroundUnchangedIff(b, nrows, ncols, y, x);
    }
  }

  /** On a 3 x 3 unlit board a flip at the corner (0, 0) lights exactly the
      corner and its two on-board neighbours. */
  lemma CornerFlipExample()
    ensures FlipCellsAround(AllOff(3, 3), 3, 3, 0, 0)
      == [[true, true, false], [true, false, false], [false, false, false]]
  {
    var r := FlipCellsAround(AllOff(3, 3), 3, 3, 0, 0);
    GridExtensionality(r, [[true, true, false], [true, false, false], [false, false, false]], 3, 3);
  }

  /** On a 3 x 3 unlit board a flip at the centre (1, 1) lights exactly the
      centre and its four neighbours. */
  lemma CentreFlipExample()
    ensures FlipCellsAround(AllOff(3, 3), 3, 3, 1, 1)
      == [[false, true, false], [true, true, true], [false, true, false]]
  {
    var r := FlipCellsAround(AllOff(3, 3), 3, 3, 1, 1);
    GridExtensionality(r, [[false, true, false], [true, true, true], [false, true, false]], 3, 3);
  }

  // ---------------------------------------------------------------------------
  // Initialisation
  // ---------------------------------------------------------------------------

  /** The initial board is already won exactly when no draw exceeds the threshold. */
  lemma InitialBoardWonIff(nrows: nat, ncols: nat, chanceLightStartsOn: real, draws: seq<real>)
    requires |draws| == nrows * ncols
    ensures HasWon(InitialBoard(nrows, ncols, chanceLightStartsOn, draws))
      <==> forall k :: 0 <= k < |draws| ==> draws[k] <= chanceLightStartsOn
  {
    var b := InitialBoard(nrows, ncols, chanceLightStartsOn, draws);
    HasWonIff(b);
    if HasWon(b) {
      forall k | 0 <= k < |draws|
        ensures draws[k] <= chanceLightStartsOn
      {
        var i, j := CellOfDraw(nrows, ncols, k);
        InitialBoardCell(nrows, ncols, chanceLightStartsOn, draws, i, j);
        assert !b[i][j];
      }
    } else {
      var i, j :| 0 <= i < |b| && 0 <= j < |b[i]| && b[i][j];
      InitialBoardCell(nrows, ncols, chanceLightStartsOn, draws, i, j);
    }
  }

  /** Every draw of a stream of one draw per cell decides some cell. */
  lemma CellOfDraw(nrows: nat, ncols: nat, k: nat) returns (i: nat, j: nat)
    requires k < nrows * ncols
    ensures i < nrows && j < ncols && DrawIndex(ncols, i, j) == k
  {
    assert ncols > 0;
    i, j := k / ncols, k % ncols;
    DrawIndexValue(ncols, i, j);
    if i >= nrows {
      MulMonotone(nrows, i, ncols);
      assert false;
    }
  }

  /** With draws in [0, 1) and a threshold of at least 1, no light starts on,
      so the game is won from the start. */
  lemma CertainOffStartsWon(nrows: nat, ncols: nat, chanceLightStartsOn: real, draws: seq<real>)
    requires |draws| == nrows * ncols
    requires forall k :: 0 <= k < |draws| ==> 0.0 <= draws[k] < 1.0
    requires chanceLightStartsOn >= 1.0
    ensures HasWon(InitialBoard(nrows, ncols, chanceLightStartsOn, draws))
  {
    InitialBoardWonIff(nrows, ncols, chanceLightStartsOn, draws);
  }
}
