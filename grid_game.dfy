/**
 * The numbering puzzle itself: a 10-row, 5-column board of counters that
 * the player fills by clicking cells one knight's move apart, each click
 * writing the next number, until no knight's move to an empty cell is left.
 */
module NumbersGame {
  import opened Knight
  import opened Warnsdorff

  datatype Option<T> = None | Some(value: T)

  class GridGame {
    /** Side of a square cell, in pixels. */
    const cellSize: nat := 60
    /** Number of columns (the board's width in cells). */
    const cols: nat := 5
    /** Number of rows (the board's height in cells). */
    const rows: nat := 10
    const width: nat := cellSize * cols
    /** The board plus a 60-pixel strip below it for the status text. */
    const height: nat := cellSize * rows + 60

    /** `grid[r, c]` is the number written in cell `(r, c)`, 0 while it is empty. */
    var grid: array2<int>
    /** The number the next accepted click writes. */
    var counter: int
    var lastClicked: Option<Pos>
    var gameOver: bool
    /** The Warnsdorff estimate shown when the game is over. */
    var maxPossibleMoves: int
    /** The accepted clicks so far, oldest first. */
    ghost var moves: seq<Pos>

    ghost predicate Shaped()
      reads this`grid
    {
      grid.Length0 == rows && grid.Length1 == cols
    }

    /**
     * The board a sequence of accepted clicks leaves: the clicks form an
     * open knight's path, the i-th click's cell holds i + 1 and every other
     * cell holds 0, the counter is one past the number of clicks, and the
     * last click is remembered.
     */
    ghost predicate Numbered()
      reads this`grid, this`counter, this`lastClicked, this`moves, grid
    {
      Shaped()
      && counter == |moves| + 1
      && IsOpenKnightPath(rows, cols, moves)
      && (forall i :: 0 <= i < |moves| ==> grid[moves[i].0, moves[i].1] == i + 1)
      && (forall r, c :: 0 <= r < rows && 0 <= c < cols && (r, c) !in moves ==> grid[r, c] == 0)
      && lastClicked == (if moves == [] then None else Some(moves[|moves| - 1]))
    }

    /** The game's invariant: a numbered board, and the game over exactly when no move is left. */
    ghost predicate Valid()
      reads this, grid
    {
      Numbered() && gameOver == !CanMove()
    }

    /**
     * Whether clicking the on-board cell `(row, col)` is a legal move: any
     * cell before the first click, afterwards an empty cell a knight's move
     * from the last one clicked.
     */
    function IsValidMove(row: int, col: int): (ok: bool)
      requires Shaped() && InBounds(rows, cols, (row, col))
      reads this`grid, this`lastClicked, grid
      ensures lastClicked.None? ==> ok
      ensures lastClicked.Some? && Abs(row - lastClicked.value.0) == Abs(col - lastClicked.value.1) ==> !ok
      ensures grid[row, col] != 0 && lastClicked.Some? ==> !ok
    {
      match lastClicked
      case None => true
      case Some(last) =>
        var rowDiff, colDiff := Abs(row - last.0), Abs(col - last.1);
        ((rowDiff == 2 && colDiff == 1) || (rowDiff == 1 && colDiff == 2)) && grid[row, col] == 0
    }

    /**
     * After the first click the validator's displacement test accepts
     * exactly the cells of the estimator's offset table around the last
     * click, when they are empty.
     */
    lemma ValidMoveMatchesOffsetTable(row: int, col: int)
      requires Shaped() && InBounds(rows, cols, (row, col)) && lastClicked.Some?
      ensures IsValidMove(row, col) <==> (row, col) in KnightTargets(lastClicked.value) && grid[row, col] == 0
    {
      assert IsValidMove(row, col) <==> IsKnightStep(lastClicked.value, (row, col)) && grid[row, col] == 0;
    }

    /** Some cell of the board is a legal next move. */
    ghost predicate CanMove()
      reads this`grid, this`lastClicked, grid
    {
      Shaped() && exists r, c :: 0 <= r < rows && 0 <= c < cols && IsValidMove(r, c)
    }

    /** Scans the board for a legal next move, stopping at the first one found. */
    method HasValidMoves() returns (found: bool)
      requires Shaped()
      ensures found <==> CanMove()
    {
      if lastClicked == None {
        assert IsValidMove(0, 0);
        return true;
      }
      var (lastRow, lastCol) := lastClicked.value;
      for i := 0 to rows
        invariant forall r, c :: 0 <= r < i && 0 <= c < cols ==> !IsValidMove(r, c)
      {
        for j := 0 to cols
          invariant forall c :: 0 <= c < j ==> !IsValidMove(i, c)
        {
          if grid[i, j] == 0 {
            var rowDiff, colDiff := Abs(i - lastRow), Abs(j - lastCol);
            if (rowDiff == 2 && colDiff == 1) || (rowDiff == 1 && colDiff == 2) {
              assert IsValidMove(i, j);
              return true;
            }
          }
        }
      }
      return false;
    }

    /**
     * Starts a new game: an empty board, the counter at 1, no last click,
     * the game not over, and the estimate recomputed.
     */
    method ResetGame()
      modifies this
      ensures Valid() && fresh(grid)
      ensures forall r, c :: 0 <= r < rows && 0 <= c < cols ==> grid[r, c] == 0
      ensures counter == 1 && lastClicked == None && !gameOver && moves == []
      ensures maxPossibleMoves == MaxTourLength(rows, cols)
    {
      var estimate := CalculateMaxMoves(rows, cols);
      ClearBoard(estimate);
    }

    /**
     * The assignments of a reset, with the estimate already computed: every
     * cell empty, the counter at 1, no last click, the game not over.
     */
    method ClearBoard(estimate: int)
      modifies this
      ensures Valid() && fresh(grid)
      ensures forall r, c :: 0 <= r < rows && 0 <= c < cols ==> grid[r, c] == 0
      ensures counter == 1 && lastClicked == None && !gameOver && moves == []
      ensures maxPossibleMoves == estimate
    {
      grid := new int[rows, cols]((_, _) => 0);
      counter := 1;
      lastClicked := None;
      gameOver := false;
      moves := [];
      maxPossibleMoves := estimate;
      assert IsValidMove(0, 0);
    }

    constructor ()
      ensures Valid() && fresh(grid)
      ensures forall r, c :: 0 <= r < rows && 0 <= c < cols ==> grid[r, c] == 0
      ensures counter == 1 && lastClicked == None && !gameOver && moves == []
    {
      grid := new int[0, 0];
      new;
      ResetGame();
    }

    /**
     * The cell under pixel `(x, y)`: row `y` and column `x` divided by the
     * cell size, rounded down.
     */
    function GetCellPosition(x: int, y: int): (p: Pos)
      ensures p.0 * cellSize <= y < p.0 * cellSize + cellSize
      ensures p.1 * cellSize <= x < p.1 * cellSize + cellSize
    {
      (y / cellSize, x / cellSize)
    }

    /** Inside the drawn board, a pixel maps to the cell drawn there. */
    lemma PixelOfCell(r: int, c: int, dx: int, dy: int)
      requires 0 <= dx < cellSize && 0 <= dy < cellSize
      ensures GetCellPosition(c * cellSize + dx, r * cellSize + dy) == (r, c)
    {
      var p := GetCellPosition(c * cellSize + dx, r * cellSize + dy);
      assert p.0 * cellSize <= r * cellSize + dy < p.0 * cellSize + cellSize;
      assert p.1 * cellSize <= c * cellSize + dx < p.1 * cellSize + cellSize;
    }

    /** A pixel of the status strip below the board maps to the row past the last one. */
    lemma TextStripMapsPastLastRow(x: int, y: int)
      requires rows * cellSize <= y < height
      ensures GetCellPosition(x, y).0 == rows
      ensures !InBounds(rows, cols, GetCellPosition(x, y))
    {
    }

    /**
     * The body of a mouse click on the board cell `(row, col)`: ignored once
     * the game is over, off the board, or when the move is not legal;
     * otherwise the cell gets the counter, the counter advances, the cell
     * becomes the last click, and the game ends if no move is left.
     */
    method ApplyClick(row: int, col: int) returns (accepted: bool)
      requires Valid()
      modifies this, grid
      ensures Valid() && grid == old(grid)
      ensures accepted == old(!gameOver && InBounds(rows, cols, (row, col)) && IsValidMove(row, col))
      ensures accepted ==>
        grid[row, col] == old(counter) && counter == old(counter) + 1
        && lastClicked == Some((row, col)) && moves == old(moves) + [(row, col)]
        && maxPossibleMoves == old(maxPossibleMoves)
      ensures accepted ==> forall r, c :: 0 <= r < rows && 0 <= c < cols && (r, c) != (row, col) ==>
        grid[r, c] == old(grid[r, c])
      ensures accepted ==> (gameOver <==> !CanMove())
      ensures !accepted ==> unchanged(this) && unchanged(grid)
    {
      if gameOver || !(0 <= row < rows && 0 <= col < cols && IsValidMove(row, col)) {
        return false;
      }
      RecordClick(row, col);
      var more := HasValidMoves();
      if !more {
        gameOver := true;
      }
      return true;
    }

    /** The writes of an accepted click: the cell gets the counter, the counter advances, the cell becomes the last click. */
    method RecordClick(row: int, col: int)
      requires Numbered() && InBounds(rows, cols, (row, col)) && IsValidMove(row, col)
      modifies this`counter, this`lastClicked, this`moves, grid
      ensures Numbered()
      ensures grid[row, col] == old(counter) && counter == old(counter) + 1
      ensures lastClicked == Some((row, col)) && moves == old(moves) + [(row, col)]
      ensures forall r, c :: 0 <= r < rows && 0 <= c < cols && (r, c) != (row, col) ==>
        grid[r, c] == old(grid[r, c])
    {
      ClickIsFresh(row, col);
      grid[row, col] := counter;
      counter := counter + 1;
      lastClicked := Some((row, col));
      SnocPath(rows, cols, moves, (row, col));
      moves := moves + [(row, col)];
    }

    /** A legal move goes to a cell not clicked yet, a knight's move after the last click. */
    lemma ClickIsFresh(row: int, col: int)
      requires Numbered() && InBounds(rows, cols, (row, col)) && IsValidMove(row, col)
      ensures (row, col) !in moves
      ensures moves != [] ==> IsKnightStep(moves[|moves| - 1], (row, col))
    {
    }

    /** A mouse click at pixel `(x, y)`: the click body applied to the cell under it. */
    method MouseDown(x: int, y: int) returns (accepted: bool)
      requires Valid()
      modifies this, grid
      ensures Valid() && grid == old(grid)
      ensures var (row, col) := GetCellPosition(x, y);
        accepted == old(!gameOver && InBounds(rows, cols, (row, col)) && IsValidMove(row, col))
      ensures var (row, col) := GetCellPosition(x, y);
        accepted ==>
          grid[row, col] == old(counter) && counter == old(counter) + 1
          && lastClicked == Some((row, col)) && moves == old(moves) + [(row, col)]
          && maxPossibleMoves == old(maxPossibleMoves)
      ensures var (row, col) := GetCellPosition(x, y);
        accepted ==> forall r, c :: 0 <= r < rows && 0 <= c < cols && (r, c) != (row, col) ==>
          grid[r, c] == old(grid[r, c])
      ensures accepted ==> (gameOver <==> !CanMove())
      ensures rows * cellSize <= y ==> !accepted
      ensures !accepted ==> unchanged(this) && unchanged(grid)
    {
      var (row, col) := GetCellPosition(x, y);
      accepted := ApplyClick(row, col);
    }

    /** The numbers written on the board. */
    ghost function Numbers(): set<int>
      requires Shaped()
      reads this`grid, grid
    {
      set r, c | 0 <= r < rows && 0 <= c < cols && grid[r, c] != 0 :: grid[r, c]
    }

    /**
     * After `k` accepted clicks (`counter == k + 1`) the numbers on the
     * board are exactly 1 to `k`, each written in one cell only.
     */
    lemma NumberingIsContiguous()
      requires Valid()
      ensures forall n :: n in Numbers() <==> 1 <= n < counter
      ensures forall r, c, r', c' ::
        (0 <= r < rows && 0 <= c < cols && 0 <= r' < rows && 0 <= c' < cols
         && grid[r, c] != 0 && grid[r, c] == grid[r', c']) ==> (r, c) == (r', c')
    {
      forall n ensures n in Numbers() <==> 1 <= n < counter {
        if n in Numbers() {
          var r, c :| 0 <= r < rows && 0 <= c < cols && grid[r, c] != 0 && grid[r, c] == n;
          var i := ClickIndex(r, c);
        }
        if 1 <= n < counter {
          var p := moves[n - 1];
          assert grid[p.0, p.1] == n;
        }
      }
      forall r, c, r', c' |
        0 <= r < rows && 0 <= c < cols && 0 <= r' < rows && 0 <= c' < cols
        && grid[r, c] != 0 && grid[r, c] == grid[r', c']
        ensures (r, c) == (r', c')
      {
        var i := ClickIndex(r, c);
        var j := ClickIndex(r', c');
      }
    }

    /** A numbered cell is the cell of the click whose number it holds. */
    lemma ClickIndex(r: int, c: int) returns (i: nat)
      requires Valid() && 0 <= r < rows && 0 <= c < cols && grid[r, c] != 0
      ensures i < |moves| && moves[i] == (r, c) && grid[r, c] == i + 1
    {
      i :| 0 <= i < |moves| && moves[i] == (r, c);
    }

    /**
     * After the first click the legal moves are the estimator's neighbors
     * of the last click with the clicked cells as visited, so the game is
     * over exactly when the estimator's tour would stop there.
     */
    lemma ValidMovesAreOpenNeighbors()
      requires Valid() && moves != []
      ensures var last := moves[|moves| - 1];
        forall r, c :: 0 <= r < rows && 0 <= c < cols ==>
          (IsValidMove(r, c) <==> (r, c) in ValidNeighbors(rows, cols, last, Elems(moves)))
      ensures gameOver <==> ValidNeighbors(rows, cols, moves[|moves| - 1], Elems(moves)) == []
    {
      var last := moves[|moves| - 1];
      var ns := ValidNeighbors(rows, cols, last, Elems(moves));
      forall r, c | 0 <= r < rows && 0 <= c < cols
        ensures IsValidMove(r, c) <==> (r, c) in ns
      {
        if (r, c) in moves {
          var i :| 0 <= i < |moves| && moves[i] == (r, c);
          assert grid[r, c] == i + 1;
        }
      }
      if ns != [] {
        assert ns[0] in ns;
        assert IsValidMove(ns[0].0, ns[0].1);
      }
    }

    /** Before the first click every cell is a legal move, so a move is left. */
    lemma FirstClickAnywhere()
      requires Valid() && lastClicked == None
      ensures forall r, c :: 0 <= r < rows && 0 <= c < cols ==> IsValidMove(r, c)
      ensures CanMove() && !gameOver
    {
      assert IsValidMove(0, 0);
    }
  }

  /**
   * A short game: the first click may go anywhere, a diagonal step is
   * refused and leaves the board as it was, a knight's move is accepted.
   */
  method ClickScenario() returns (first: bool, diagonal: bool, knight: bool, counter: int, corner: int)
    ensures first && !diagonal && knight
    ensures counter == 3 && corner == 1
  {
    var game := new GridGame();
    first := game.ApplyClick(0, 0);
    assert game.lastClicked == Some((0, 0)) && game.grid[2, 1] == 0;
    diagonal := game.ApplyClick(1, 1);
    assert game.grid[0, 0] == 1 && game.counter == 2 && game.grid[2, 1] == 0;
    assert game.IsValidMove(2, 1);
    knight := game.ApplyClick(2, 1);
    counter, corner := game.counter, game.grid[0, 0];
  }
}
