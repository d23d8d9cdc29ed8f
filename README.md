# Knight's-move numbering puzzle, modelled in Dafny

`GridGame` in `main.py` is a one-player puzzle on a board of 10 rows and
5 columns, with 60-pixel cells and a 60-pixel text strip under the board. The
first click may go on any cell. Every later click must land on an empty cell
one chess knight's move from the previous click. Each accepted click writes
the next number (1, 2, 3, …) into its cell. The game is over when no empty
cell is a knight's move from the last click. Pressing R resets the board. At
the end, the game shows how many moves were made. It also shows a "maximum
possible" number, worked out once per reset with Warnsdorff's greedy rule.
The greedy tour always moves to the neighbour with the fewest onward moves.
The estimate is the longest such tour over every start cell.

This project models that game logic and proves what it promises. It has
three modules:

- `Knight` (`knight.dfy`) holds positions, the knight-displacement test and
  the estimator's eight-entry offset table. It also has the neighbour filter
  (`get_valid_neighbors`), as pure functions with their properties.
- `Warnsdorff` (`warnsdorff.dfy`) holds the estimator (`calculate_max_moves`
  with its nested `warnsdorff_tour`).
  - A pure specification: `Tour` is the greedy tour from a start cell, and
    `MaxTourLength` is the longest one over the grid.
  - The source's loops as methods proved against that specification:
    `WarnsdorffTour`, `ScanRow` and `CalculateMaxMoves`.
  - Lemmas that the tour ends, is an open knight's path, follows Warnsdorff's
    rule at every step, and has a length in `[1, rows * cols]`.
- `NumbersGame` (`grid_game.dfy`) holds the class `GridGame`.
  - Its board is an `array2<int>`, and its fields are the counter, the last
    click, the game-over flag and the estimate.
  - A ghost field `moves` records the accepted clicks. The class invariant
    `Valid` ties the board, counter, last click and flag to that history.
  - The methods are `ResetGame`, `HasValidMoves`, `ApplyClick` (the body of
    the mouse-click handler) and `MouseDown` (pixel to cell, then the click).
    The pure parts are the functions `IsValidMove` and `GetCellPosition`.

The estimator is written for any `rows` × `cols`, as the source's nested
functions are: they read the grid size and nothing else. The class calls it
with its own 10 × 5. Python's `//` rounds down, and so does Dafny's `/` for
the positive divisor 60. Python integers are unbounded, like Dafny's `int`,
so no wrap-around is modelled.

Three methods exist because the proofs needed the split. Each is a
contiguous piece of a source function:
- `ScanRow` is the inner loop of `calculate_max_moves`.
- `ClearBoard` is the field assignments of `reset_game`, once the estimate
  has been computed.
- `RecordClick` is the three writes of an accepted click.

Three details of the code that the model keeps:
- The docstring of `is_valid_move` (main.py:96-99) says a move must land on
  an empty cell and that the first move can be anywhere. The code's first
  branch (main.py:108-109) returns true before the first click without
  reading the cell, so it does not check that the cell is empty. After a
  reset every cell is empty anyway.
- `is_valid_move` does not check bounds. The click handler checks them
  first (main.py:158-161), so `IsValidMove` requires an on-board cell, and
  `ApplyClick` rejects off-board cells.
- Ties in Warnsdorff's rule go to the first minimum, because Python's `min`
  returns the first minimum (main.py:63). `NextCell` picks the first minimum
  of the list `ValidNeighbors` returns, and that list keeps the offset
  table's order by `KeepOpen`'s definition.

## Model

| member | source | states |
|---|---|---|
| Knight.KnightTargets | main.py:43-47 | the offset table has eight distinct entries, and a cell is among them exactly when it is a knight's move from the given cell |
| Knight.KeepOpen | main.py:48-50 | the filter keeps a candidate exactly when it is on the grid and not visited; it never lengthens the list and keeps entries distinct |
| Knight.ValidNeighbors | main.py:42-50 | `get_valid_neighbors` returns at most 8 distinct cells, and a cell is among them exactly when it is on the grid, unvisited and a knight's move away |
| Knight.SnocPath | main.py:163-165 | appending a fresh on-grid cell a knight's move after the last keeps a sequence an open knight's path |
| Warnsdorff.ArgMin | main.py:62-63 | the index Python's `min` picks: its key is no larger than any other key and strictly smaller than every key before it (first minimum) |
| Warnsdorff.NextCellIsWarnsdorffChoice | main.py:61-63 | the chosen neighbour is an open neighbour of least onward degree, and no neighbour of equal degree comes before it in table order |
| Warnsdorff.WarnsdorffTour | main.py:52-67 | the `while True` loop terminates (measure: unvisited cells) and returns the length of the greedy tour `Tour`, which lies in `[1, rows * cols]` |
| Warnsdorff.TourLengthBounds | main.py:53-67 | every greedy tour has at least its start cell and at most every cell of the grid |
| Warnsdorff.TourIsOpenKnightPath | main.py:53-65 | the tour starts at the start cell; its cells are on the grid and distinct, and consecutive cells are a knight's move apart |
| Warnsdorff.TourFollowsWarnsdorff | main.py:56-65 | every step of the tour is a Warnsdorff choice given the cells visited before it, and the tour stops only when its last cell has no unvisited on-grid knight neighbour |
| Warnsdorff.ScanRow | main.py:72-74 | the inner loop returns the longest greedy tour from the cells of one row |
| Warnsdorff.CalculateMaxMoves | main.py:69-77 | the nested scan returns `MaxTourLength(rows, cols)`, which depends on the dimensions only; on a non-empty grid it lies in `[1, rows * cols]` |
| Warnsdorff.MaxTourLengthIsMax | main.py:69-77 | the estimate is the longest greedy tour: no start cell gives a longer one, and some start cell gives exactly it |
| Warnsdorff.MaxTourLengthBounds | main.py:69-77 | any maximum of the tour lengths is at least 1 and at most `rows * cols` |
| Warnsdorff.OneByTwoGridEstimate | main.py:42-77 | on a 1 × 2 grid no cell has a knight neighbour, so the estimate is 1 |
| NumbersGame.GridGame.IsValidMove | main.py:93-113 | before the first click every on-board cell is valid; afterwards a cell with equal row and column distance (such as (0,0), (1,1) or (2,2)) and an occupied cell are both rejected |
| NumbersGame.GridGame.ValidMoveMatchesOffsetTable | main.py:110-113 | after the first click a cell is valid exactly when it is empty and among the offset-table targets of the last click, so the validator and the estimator agree on knight moves |
| NumbersGame.GridGame.HasValidMoves | main.py:115-134 | the scan with early return answers true exactly when some on-board cell is a valid move |
| NumbersGame.GridGame.FirstClickAnywhere | main.py:108-109 | before the first click every cell is valid, a move is left (`has_valid_moves` is true) and the game is not over |
| NumbersGame.GridGame.ValidMovesAreOpenNeighbors | main.py:126-134 | after the first click the valid moves are exactly the estimator's open neighbours of the last click, with the clicked cells as visited; the game is over exactly when that list is empty |
| NumbersGame.GridGame.ResetGame | main.py:24-34 | a reset leaves a fresh all-zero board, counter 1, no last click, game not over, an empty click history and the estimate `MaxTourLength(rows, cols)`, and re-establishes the invariant |
| NumbersGame.GridGame.ClearBoard | main.py:26-31 | the field assignments of a reset, with the estimate passed in |
| NumbersGame.GridGame.constructor | main.py:7-22 | a new game is in the state a reset leaves: the invariant holds, the board is all zero, the counter is 1, there is no last click and the game is not over |
| NumbersGame.GridGame.ApplyClick | main.py:156-172 | a click is accepted exactly when the game is not over, the cell is on the board and the move is valid; an accepted click writes the old counter into that one cell, adds 1 to the counter, records the cell as the last click and leaves every other cell alone, and afterwards the game is over exactly when no move is left; a rejected click changes nothing |
| NumbersGame.GridGame.RecordClick | main.py:163-165 | the writes of an accepted click keep the numbering invariant and change only the clicked cell |
| NumbersGame.GridGame.ClickIsFresh | main.py:110-113 | a valid move goes to a cell not clicked before, a knight's move after the last click |
| NumbersGame.GridGame.MouseDown | main.py:156-172 | a click at a pixel is the click body applied to the cell under it: it is accepted exactly when the game is not over and that cell is on the board and a valid move; then the cell gets the old counter, the counter adds 1, the cell becomes the last click, every other cell is unchanged and the game is over exactly when no move is left; a click in the text strip below the board is rejected, and a rejected click changes nothing |
| NumbersGame.GridGame.GetCellPosition | main.py:79-91 | the row and column are the pixel coordinates divided by the cell size, rounded down: the pixel lies inside the returned cell |
| NumbersGame.GridGame.PixelOfCell | main.py:88-91 | every pixel of a drawn cell maps back to that cell |
| NumbersGame.GridGame.TextStripMapsPastLastRow | main.py:89 | a pixel in the 60-pixel strip under the board maps to row 10, which is off the board |
| NumbersGame.GridGame.NumberingIsContiguous | main.py:163-164 | after k accepted clicks (counter k + 1) the numbers on the board are exactly 1 to k, each in one cell only |
| NumbersGame.GridGame.ClickIndex | main.py:163 | a numbered cell is the cell of the click whose number it holds |
| NumbersGame.ClickScenario | main.py:156-165 | on a fresh board, clicking (0,0) is accepted; then (1,1) is rejected, leaving counter 2 and 1 in (0,0); then (2,1) is accepted |

## Left out

- pygame is left out because it is user interface: window set-up (main.py:10, 16-17), event polling (main.py:148-155), drawing, the green highlight of candidate cells, fonts and the status text (main.py:174-222), and `pygame.quit`. The highlight repeats the knight test of `is_valid_move` and only affects rendering.
- The R-key handler (main.py:152-155) is left out as event polling. It only calls `reset_game`, modelled as `ResetGame`.
- The end-of-game text with `counter - 1` moves is left out because it is rendering.
- `loguru` logging is left out because it has no effect on state.
- The raw mouse position from `pygame.mouse.get_pos` is left out: `MouseDown` takes the pixel as parameters.
- The `__main__` entry point and the `run` loop around the handlers are left out, because they are I/O sequencing.
- NumbersGame.GridGame.constructor: does not restate that the estimate equals `MaxTourLength(10, 5)`. `ResetGame`, which the constructor calls, states it. Carrying that fact further with the board's concrete dimensions makes the verifier unfold the whole estimate.
- Knight.KeepOpen: the contract says which candidates are kept, not that they keep the table's order. The order is in the definition, and `Warnsdorff.ArgMin` and `TourFollowsWarnsdorff` use it for the first-minimum tie-break.
