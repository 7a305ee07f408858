# Lights Out board, in Dafny

A model of the board logic of a React "Lights Out" game. The board is a grid of
cells, each lit or unlit. Clicking a cell is meant to flip that cell and its four
orthogonal neighbours (src/Board.js:90, src/Cell.js:8-9). As written, the flip is
centred on the transposed cell (see Findings). The game is won when every cell is
unlit.

The model has three modules.

- `Board` (board.dfy) holds the grid and its three operations.
  - The grid is a `seq<seq<bool>>` with the dimension predicate `WellFormed`.
  - `CreateBoard` is the initialiser. It is a method with the source's nested loops. Its contract determines its result, which `DecidedBoardIsInitial` shows equal to the recursive reference `InitialBoard`.
  - `HasWon` is the win predicate. Like `every`, it checks row by row and cell by cell.
  - `FlipCell` and `FlipCellsAround` are the toggle rule. They are pure functions from board to board.
- `BoardLemmas` (board_lemmas.dfy) proves the properties that relate these operations.
- `Coords` (coords.dfy) models the coordinate string. A cell is given the decimal text of two numbers joined by `-`, and a click decodes it with `split("-")` and `Number`. `Click` (click.dfy) models the click path from a cell's string to the toggle rule.

The random source is a parameter. `draws` is a sequence of reals with one draw per cell, consumed row by row in the order the source calls `Math.random()`. Board dimensions are `nat`. The threshold and the draws are `real`.

`FlipCellsAround(b, nrows, ncols, y, x)` flips around row `y`, column `x`, indexed exactly as the source indexes `boardCopy[y][x]`. The cell at row `i`, column `j` is given the string `` `${j}-${i}` ``, and that string is decoded as `[y, x]`. So a click on (i, j) flips around (j, i). The model keeps this as written in `Click.ClickCell` and records it under Findings.

## Model

| member | source | states |
|---|---|---|
| Board.CreateBoard | src/Board.js:34-45 | the initial board has exactly nrows rows of exactly ncols cells; cell (i, j) is lit iff its own draw, the (i*ncols+j)-th of the stream, is strictly greater than chanceLightStartsOn |
| Board.DecidedBoardIsInitial | src/Board.js:34-45 | any nrows x ncols board whose every cell is decided by its own draw is the reference initial board, so the initialiser's loops build exactly that board |
| Board.CreateRow | src/Board.js:37-41 | one row of the initialiser has exactly ncols cells, and cell j is lit iff the j-th of the row's draws is strictly greater than the threshold |
| Board.InitialBoard | src/Board.js:36-43 | the reference initial board, built row by row from consecutive slices of ncols draws, has exactly nrows rows of exactly ncols cells |
| Board.InitialBoardCell | src/Board.js:36-43 | each cell (i, j) of the reference initial board is lit iff its own draw, the (i*ncols+j)-th of the stream, exceeds the threshold |
| Board.DrawIndexValue | src/Board.js:36-39 | the draw for cell (i, j) is the (i*ncols+j)-th of the stream, because every earlier row uses up ncols draws |
| Board.InitialRow | src/Board.js:38-41 | one row has one cell per draw, and each cell is lit iff its draw exceeds the threshold |
| BoardLemmas.InitialBoardWonIff | src/Board.js:39-40 | the initial board is all unlit (already won) iff every draw is at most the threshold; in particular draws all at most the threshold give an all-false board |
| BoardLemmas.CertainOffStartsWon | src/Board.js:39-40 | with draws in [0, 1) and a threshold of at least 1, no light starts on and the game is won from the start |
| Board.FlipCell | src/Board.js:58-64 | only the cell at (y, x) is negated, and only when 0 <= x < ncols and 0 <= y < nrows; off the board the board is returned unchanged; dimensions are kept |
| Board.FlipCellsAround | src/Board.js:66-72 | exactly the in-bounds cells among (y,x), (y-1,x), (y+1,x), (y,x-1), (y,x+1) are negated; every other cell keeps its value; dimensions are unchanged |
| BoardLemmas.FlipCellsAroundInvolution | src/Board.js:58-72 | flipping twice around the same centre returns the original board |
| BoardLemmas.FlipCellsAroundUnchangedIff | src/Board.js:61-71 | a flip leaves the board unchanged iff none of its five targets is on the board |
| Board.HasWon | src/Board.js:49-51 | no contract of its own: the nested check, row by row and cell by cell; characterised both ways by BoardLemmas.HasWonIff |
| BoardLemmas.HasWonIff | src/Board.js:49-51 | the win predicate holds iff no cell of any row is lit (both directions) |
| BoardLemmas.RowAllOffIff | src/Board.js:50 | the per-row check holds iff no cell of the row is lit |
| BoardLemmas.AllOffWon | src/Board.js:49-51 | the all-unlit board of any size is won |
| BoardLemmas.LitCellNotWon | src/Board.js:49-51 | a board with a lit cell is not won |
| BoardLemmas.FlipFromWonIff | src/Board.js:49-72 | from a won board, a flip leaves the game won iff none of its targets is on the board; so a flip centred on the board never leaves it won |
| BoardLemmas.CornerFlipExample | src/Board.js:66-72 | on a 3x3 unlit board a flip at (0, 0) lights exactly (0,0), (0,1) and (1,0) |
| BoardLemmas.CentreFlipExample | src/Board.js:66-72 | on a 3x3 unlit board a flip at (1, 1) lights exactly the centre and its four neighbours |
| Coords.Decimal | src/Board.js:81 | the template-literal text of a non-negative integer is non-empty, all digits and contains no '-'; read back by Coords.DecimalRoundTrip |
| Coords.ParseNumber | src/Board.js:56 | no contract of its own: `Number` of one piece, the empty piece giving 0 and a digit string its value; its round trip is Coords.DecimalRoundTrip |
| Coords.Split | src/Board.js:56 | `split("-")` gives at least one piece and no piece contains '-'; loses nothing by Coords.JoinSplit, and splits "a-c" into [a, c] by Coords.SplitPair |
| Coords.DecimalRoundTrip | src/Board.js:56 | converting the decimal text of a non-negative integer back with the number conversion gives the integer |
| Coords.JoinSplit | src/Board.js:56 | splitting at '-' loses nothing: the pieces joined with '-' give back the string |
| Coords.SplitPair | src/Board.js:56 | "a-c" with no '-' in a or c splits into exactly the two pieces a and c |
| Coords.ParseCoord | src/Board.js:56 | no contract of its own: split, convert the first two pieces, destructure as [y, x]; decodes every formatted pair by Coords.ParseFormat |
| Coords.ParseFormat | src/Board.js:56 | decoding the string of a pair (first, second) gives y = first and x = second |
| Coords.CellCoords | src/Board.js:81 | no contract of its own: the cell at row i, column j gets the string "j-i"; decoded as the transposed cell by Coords.CellCoordsDecodeTransposed |
| Coords.CellCoordsDecodeTransposed | src/Board.js:81 | the string of the cell at row i, column j is "j-i", and decoding it gives y = j, x = i, which is the transposed cell |
| Click.FlipCellsAroundCoord | src/Board.js:54-72 | `flipCellsAround(coord)` keeps the board's dimensions; flips around (y, x) for the string "y-x" by Click.FlipCellsAroundCoordFormat and undoes itself by Click.FlipCellsAroundCoordInvolution |
| Click.FlipCellsAroundCoordFormat | src/Board.js:54-56 | the toggle rule entered with the string "y-x" flips around row y, column x |
| Click.FlipCellsAroundCoordInvolution | src/Board.js:54-72 | entering the same coordinate string twice returns the original board |
| Click.ClickCell | src/Board.js:76-81 | a click on a cell, as written, keeps the board's dimensions; flips around the transposed cell by Click.ClickCellTransposed and Click.ClickedCellToggledIff |
| Click.ClickCellTransposed | src/Board.js:76-81 | a click on the cell at row i, column j flips around row j, column i |
| Click.ClickedCellToggledIff | src/Board.js:76-81 | the clicked cell itself changes iff it lies on the main diagonal (i = j) |
| Click.ClickCellCounterexample | src/Board.js:76-81 | on a 2x3 board with only row 1, column 2 lit (a board the game still shows), a click on row 0, column 2 toggles only row 1, column 0 and leaves the clicked cell unlit |
| Click.ClickCellIntended | src/Cell.js:13-14 | a click with the row-then-column string keeps the board's dimensions; flips around the clicked cell by Click.ClickCellIntendedCentred |
| Click.ClickCellIntendedCentred | src/Cell.js:13-14 | with the row-then-column string the cell's documentation describes, a click flips around the clicked cell and always changes it |

## Left out

- React plumbing is not modelled. This covers the `useState` hook, the `setBoard` updater callback, the rendered table, the win message, CSS and `defaultProps`. It is framework and UI code.
- src/Cell.js is not modelled beyond its documented coordinate order. It only renders a cell and forwards a click to the board.
- `Math.random()` is replaced by the injected `draws` stream. Floating-point rounding is not modelled: draws and the threshold are exact reals.
- Probabilities are not modelled. src/Board.js:11 documents `chanceLightStartsOn` as the chance that a cell starts lit. But src/Board.js:40 lights a cell when its draw is strictly above the threshold, so for a uniform draw in [0, 1) a cell starts lit with chance 1 − chanceLightStartsOn. The model follows the code, so the documented meaning is inverted: `BoardLemmas.CertainOffStartsWon` shows that a threshold of at least 1 starts every cell unlit.
- Aliasing is not modelled. In the source, `[...oldBoard]` copies only the outer array. The rows are then negated in place, so the previous board value changes as well. The model treats a flip as a pure function from board value to board value.
- Only part of `Number()` is modelled. A piece of digits converts to its decimal value, and the empty piece converts to 0. Every other piece gives `None`, and `Click.FlipCellsAroundCoord` then returns the board unchanged. That matches the source when the conversion yields NaN, because every bound comparison with NaN is false. Whitespace, signs, decimal points, exponents and hexadecimal are not modelled. A fractional piece is one such case. As the row piece, as in "1.5-0", it passes the bounds check, then reading `boardCopy[1.5][0]` throws a TypeError in the source, which the model maps to an unchanged board. As the column piece, as in "0-1.5", it only writes non-index properties on the row.
- Board.FlipCell requires the board to have the shape given by `nrows` and `ncols`. The source's bound check uses those props rather than the array's size, and a board whose shape differs from its props is not modelled.
- `nrows` and `ncols` are natural numbers. Fractional or negative props, which the source's loops would still accept, are not modelled.
- A game session with a restart entry point is not modelled. The source has no restart: once the game is won it only shows the win message.

## Findings

| source | as written | input that shows it | evidently intended | confidence | as-written member | corrected member |
|---|---|---|---|---|---|---|
| src/Board.js:81 | the cell at row i, column j is given the string `${j}-${i}`, but flipCellsAround decodes it as [y, x], so the flip is centred on row j, column i | board of 2 rows and 3 columns with only row 1, column 2 lit, click on row 0, column 2: only row 1, column 0 toggles and the clicked cell stays unlit; the same cells toggle on any board | the string `${i}-${j}` (src/Cell.js:13-14 calls coords "the y and x coordinates"), so that a click flips around the clicked cell | high; not executed | Click.ClickCell (Click.ClickCellCounterexample, Click.ClickedCellToggledIff) | Click.ClickCellIntended (Click.ClickCellIntendedCentred) |
