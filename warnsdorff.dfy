/**
 * The Warnsdorff estimator behind the displayed "maximum possible" number:
 * from a start cell, repeatedly move to the unvisited knight neighbor with the
 * fewest unvisited knight neighbors of its own (the first such neighbor in
 * offset-table order on ties) until no move is left; the estimate is the
 * longest such greedy tour over all start cells.
 */
module Warnsdorff {
  import opened Knight

  /** Number of onward moves from `p`: its unvisited on-grid knight neighbors. */
  function Degree(rows: int, cols: int, p: Pos, visited: set<Pos>): nat {
    |ValidNeighbors(rows, cols, p, visited)|
  }

  /** The degree of each cell, as the key the greedy step minimises. */
  function DegreeKey(rows: int, cols: int, visited: set<Pos>): Pos -> nat {
    p => Degree(rows, cols, p, visited)
  }

  /**
   * Index of the element that Python's `min` returns for `ns` and `key`:
   * one with the smallest key, the first one in list order when several tie.
   */
  function ArgMin(ns: seq<Pos>, key: Pos -> nat): (k: nat)
    requires ns != []
    ensures k < |ns|
    ensures forall j :: 0 <= j < |ns| ==> key(ns[k]) <= key(ns[j])
    ensures forall j :: 0 <= j < k ==> key(ns[k]) < key(ns[j])
    decreases |ns|
  {
    if |ns| == 1 then 0
    else
      var init := ns[..|ns| - 1];
      var k := ArgMin(init, key);
      assert forall j :: 0 <= j < |init| ==> init[j] == ns[j];
      if key(ns[|ns| - 1]) < key(ns[k]) then |ns| - 1 else k
  }

  /** The neighbor Warnsdorff's rule moves to: the first one of least degree. */
  function NextCell(rows: int, cols: int, ns: seq<Pos>, visited: set<Pos>): Pos
    requires ns != []
  {
    ns[ArgMin(ns, DegreeKey(rows, cols, visited))]
  }

  /**
   * `next` is a move Warnsdorff's rule allows from `pos`: an unvisited
   * neighbor of least degree, and no neighbor of the same degree comes
   * before it in offset-table order.
   */
  ghost predicate IsWarnsdorffChoice(rows: int, cols: int, pos: Pos, visited: set<Pos>, next: Pos) {
    var ns := ValidNeighbors(rows, cols, pos, visited);
    next in ns
    && forall j :: 0 <= j < |ns| ==>
         Degree(rows, cols, next, visited) <= Degree(rows, cols, ns[j], visited)
         && (Degree(rows, cols, ns[j], visited) == Degree(rows, cols, next, visited) ==> next in ns[..j + 1])
  }

  /** Every cell of a `rows` x `cols` grid. */
  function AllCells(rows: nat, cols: nat): set<Pos> {
    set r, c | 0 <= r < rows && 0 <= c < cols :: (r, c)
  }

  function RowCells(r: int, cols: nat): set<Pos> {
    set c | 0 <= c < cols :: (r, c)
  }

  /**
   * The cells the greedy tour visits after `pos`, given the cells already
   * `visited`, in the order it visits them.
   */
  function TourFrom(rows: nat, cols: nat, visited: set<Pos>, pos: Pos): seq<Pos>
    requires visited <= AllCells(rows, cols)
    decreases |AllCells(rows, cols) - visited|
  {
    var ns := ValidNeighbors(rows, cols, pos, visited);
    if ns == [] then []
    else
      var next := NextCell(rows, cols, ns, visited);
      Shrinks(rows, cols, visited, next);
      [next] + TourFrom(rows, cols, visited + {next}, next)
  }

  /** The whole greedy tour from `start`, start cell included. */
  function Tour(rows: nat, cols: nat, start: Pos): seq<Pos>
    requires InBounds(rows, cols, start)
  {
    assert start in AllCells(rows, cols);
    [start] + TourFrom(rows, cols, {start}, start)
  }

  function Max(a: nat, b: nat): nat {
    if a >= b then a else b
  }

  /** The length of the greedy tour from each cell of the grid (0 off the grid). */
  function TourLengths(rows: nat, cols: nat): Pos -> nat {
    p => if InBounds(rows, cols, p) then |Tour(rows, cols, p)| else 0
  }

  /** The largest `len` over the first `j` cells of row `r`, 0 when `j` is 0. */
  function RowMax(len: Pos -> nat, r: int, j: nat): nat {
    if j == 0 then 0 else Max(RowMax(len, r, j - 1), len((r, j - 1)))
  }

  /** The largest `len` over the cells of the first `i` rows, 0 when `i` is 0. */
  function GridMax(len: Pos -> nat, cols: nat, i: nat): nat {
    if i == 0 then 0 else Max(GridMax(len, cols, i - 1), RowMax(len, i - 1, cols))
  }

  /** The estimate: the longest greedy tour over every start cell of the grid. */
  function MaxTourLength(rows: nat, cols: nat): nat {
    GridMax(TourLengths(rows, cols), cols, rows)
  }

  /**
   * `m` is the largest value of `len` over the cells of a `rows` x `cols`
   * grid: no cell gives more, and some cell gives exactly `m`.
   */
  ghost predicate IsMaxOver(len: Pos -> nat, rows: nat, cols: nat, m: int) {
    (forall r, c :: 0 <= r < rows && 0 <= c < cols ==> len((r, c)) <= m)
    && (exists r, c :: 0 <= r < rows && 0 <= c < cols && len((r, c)) == m)
  }

  /** Visiting one more on-grid cell shrinks the set of cells still unvisited. */
  lemma Shrinks(rows: nat, cols: nat, visited: set<Pos>, next: Pos)
    requires visited <= AllCells(rows, cols) && InBounds(rows, cols, next) && next !in visited
    ensures visited + {next} <= AllCells(rows, cols)
    ensures |AllCells(rows, cols) - (visited + {next})| < |AllCells(rows, cols) - visited|
  {
    var all := AllCells(rows, cols);
    InAllCells(rows, cols, next);
    assert all - visited == (all - (visited + {next})) + {next};
  }

  lemma InAllCells(rows: nat, cols: nat, p: Pos)
    ensures p in AllCells(rows, cols) <==> InBounds(rows, cols, p)
  {
    if InBounds(rows, cols, p) {
      assert p == (p.0, p.1);
    }
  }

  lemma InRowCells(r: int, cols: nat, p: Pos)
    ensures p in RowCells(r, cols) <==> p.0 == r && 0 <= p.1 < cols
  {
    if p.0 == r && 0 <= p.1 < cols {
      assert p == (r, p.1);
    }
  }

  lemma {:induction false} RowCellsCard(r: int, cols: nat)
    ensures |RowCells(r, cols)| == cols
  {
    if cols > 0 {
      RowCellsCard(r, cols - 1);
      assert RowCells(r, cols) == RowCells(r, cols - 1) + {(r, cols - 1)};
    } else {
      assert RowCells(r, cols) == {};
    }
  }

  /** A `rows` x `cols` grid has `rows * cols` cells. */
  lemma {:induction false} AllCellsCard(rows: nat, cols: nat)
    ensures |AllCells(rows, cols)| == rows * cols
  {
    if rows > 0 {
      AllCellsSplit(rows, cols);
      AllCellsCard(rows - 1, cols);
      RowCellsCard(rows - 1, cols);
      assert (rows - 1) * cols + cols == rows * cols;
    } else {
      assert AllCells(rows, cols) == {};
    }
  }

  /** The cells of `rows` rows are those of the first `rows - 1` rows and, apart from them, those of the last row. */
  lemma AllCellsSplit(rows: nat, cols: nat)
    requires rows > 0
    ensures AllCells(rows, cols) == AllCells(rows - 1, cols) + RowCells(rows - 1, cols)
    ensures AllCells(rows - 1, cols) * RowCells(rows - 1, cols) == {}
  {
    var upper, last := AllCells(rows - 1, cols), RowCells(rows - 1, cols);
    forall p ensures p in AllCells(rows, cols) <==> p in upper + last
               ensures !(p in upper && p in last) {
      InAllCells(rows, cols, p);
      InAllCells(rows - 1, cols, p);
      InRowCells(rows - 1, cols, p);
    }
  }

  lemma SubsetCard(a: set<Pos>, b: set<Pos>)
    requires a <= b
    ensures |a| <= |b|
  {
    assert b == a + (b - a);
  }

  /** The cells visited so far plus the cells still to come never exceed the grid. */
  lemma {:induction false} TourFromBound(rows: nat, cols: nat, visited: set<Pos>, pos: Pos)
    requires visited <= AllCells(rows, cols)
    ensures |visited| + |TourFrom(rows, cols, visited, pos)| <= rows * cols
    decreases |AllCells(rows, cols) - visited|
  {
    var ns := ValidNeighbors(rows, cols, pos, visited);
    if ns == [] {
      SubsetCard(visited, AllCells(rows, cols));
      AllCellsCard(rows, cols);
    } else {
      var next := NextCell(rows, cols, ns, visited);
      Shrinks(rows, cols, visited, next);
      TourFromBound(rows, cols, visited + {next}, next);
    }
  }

  /** A greedy tour has at least its start cell and at most every cell of the grid. */
  lemma TourLengthBounds(rows: nat, cols: nat, start: Pos)
    requires InBounds(rows, cols, start)
    ensures 1 <= |Tour(rows, cols, start)| <= rows * cols
  {
    assert start in AllCells(rows, cols);
    TourFromBound(rows, cols, {start}, start);
  }

  lemma {:induction false} TourFromPath(rows: nat, cols: nat, visited: set<Pos>, pos: Pos)
    requires visited <= AllCells(rows, cols) && pos in visited && InBounds(rows, cols, pos)
    ensures IsOpenKnightPath(rows, cols, [pos] + TourFrom(rows, cols, visited, pos))
    ensures forall q :: q in TourFrom(rows, cols, visited, pos) ==> q !in visited
    decreases |AllCells(rows, cols) - visited|
  {
    var ns := ValidNeighbors(rows, cols, pos, visited);
    if ns != [] {
      var next := NextCell(rows, cols, ns, visited);
      Shrinks(rows, cols, visited, next);
      TourFromPath(rows, cols, visited + {next}, next);
      var rest := TourFrom(rows, cols, visited + {next}, next);
      assert TourFrom(rows, cols, visited, pos) == [next] + rest;
      ConsPath(rows, cols, pos, [next] + rest);
    }
  }

  /**
   * The greedy tour is an open knight's path from its start cell: on the grid,
   * no cell twice, consecutive cells a knight's move apart.
   */
  lemma TourIsOpenKnightPath(rows: nat, cols: nat, start: Pos)
    requires InBounds(rows, cols, start)
    ensures Tour(rows, cols, start)[0] == start
    ensures IsOpenKnightPath(rows, cols, Tour(rows, cols, start))
  {
    assert start in AllCells(rows, cols);
    TourFromPath(rows, cols, {start}, start);
  }

  /** The neighbor `NextCell` picks is a Warnsdorff choice. */
  lemma NextCellIsWarnsdorffChoice(rows: int, cols: int, pos: Pos, visited: set<Pos>)
    requires ValidNeighbors(rows, cols, pos, visited) != []
    ensures var ns := ValidNeighbors(rows, cols, pos, visited);
      IsWarnsdorffChoice(rows, cols, pos, visited, NextCell(rows, cols, ns, visited))
  {
    var ns := ValidNeighbors(rows, cols, pos, visited);
    var key := DegreeKey(rows, cols, visited);
    var k := ArgMin(ns, key);
    forall j | 0 <= j < |ns|
      ensures Degree(rows, cols, ns[k], visited) <= Degree(rows, cols, ns[j], visited)
      ensures Degree(rows, cols, ns[j], visited) == Degree(rows, cols, ns[k], visited) ==> ns[k] in ns[..j + 1]
    {
      assert key(ns[k]) <= key(ns[j]);
      if Degree(rows, cols, ns[j], visited) == Degree(rows, cols, ns[k], visited) {
        assert !(j < k);
        assert ns[..j + 1][k] == ns[k];
      }
    }
  }

  /** Step `i` of the tour after `pos` is a Warnsdorff choice given the cells visited before it. */
  lemma {:induction false} TourFromStep(rows: nat, cols: nat, visited: set<Pos>, pos: Pos, i: nat)
    requires visited <= AllCells(rows, cols)
    requires i < |TourFrom(rows, cols, visited, pos)|
    ensures var t := TourFrom(rows, cols, visited, pos);
      IsWarnsdorffChoice(rows, cols, ([pos] + t)[i], visited + Elems(t[..i]), t[i])
    decreases i
  {
    var ns := ValidNeighbors(rows, cols, pos, visited);
    var next := NextCell(rows, cols, ns, visited);
    Shrinks(rows, cols, visited, next);
    var rest := TourFrom(rows, cols, visited + {next}, next);
    assert TourFrom(rows, cols, visited, pos) == [next] + rest;
    if i == 0 {
      NextCellIsWarnsdorffChoice(rows, cols, pos, visited);
      NoneSeenYet(visited, [next] + rest);
    } else {
      TourFromStep(rows, cols, visited + {next}, next, i - 1);
      ShiftStep(rows, cols, visited, pos, next, rest, i);
    }
  }

  /** Re-indexes step `i - 1` of the tour after `next` as step `i` of the tour after `pos`. */
  lemma ShiftStep(rows: nat, cols: nat, visited: set<Pos>, pos: Pos, next: Pos, rest: seq<Pos>, i: nat)
    requires 0 < i <= |rest|
    requires IsWarnsdorffChoice(rows, cols, ([next] + rest)[i - 1], visited + {next} + Elems(rest[..i - 1]), rest[i - 1])
    ensures var t := [next] + rest;
      IsWarnsdorffChoice(rows, cols, ([pos] + t)[i], visited + Elems(t[..i]), t[i])
  {
    var t := [next] + rest;
    PrefixCons(next, rest, i);
    ElemsCons(next, rest[..i - 1]);
    var a, b, c := ([pos] + t)[i], visited + Elems(t[..i]), t[i];
    assert a == ([next] + rest)[i - 1];
    assert b == visited + {next} + Elems(rest[..i - 1]);
    assert c == rest[i - 1];
  }

  /** The tour after `pos` ends at a cell with no unvisited on-grid knight neighbor. */
  lemma {:induction false} TourFromEnd(rows: nat, cols: nat, visited: set<Pos>, pos: Pos)
    requires visited <= AllCells(rows, cols)
    ensures var t := TourFrom(rows, cols, visited, pos);
      ValidNeighbors(rows, cols, ([pos] + t)[|t|], visited + Elems(t)) == []
    decreases |AllCells(rows, cols) - visited|
  {
    var ns := ValidNeighbors(rows, cols, pos, visited);
    if ns == [] {
      NoneSeenYet(visited, []);
    } else {
      var next := NextCell(rows, cols, ns, visited);
      Shrinks(rows, cols, visited, next);
      TourFromEnd(rows, cols, visited + {next}, next);
      ShiftEnd(rows, cols, visited, pos, next, TourFrom(rows, cols, visited + {next}, next));
    }
  }

  /** Re-reads the end of the tour after `next` as the end of the tour after `pos`. */
  lemma ShiftEnd(rows: nat, cols: nat, visited: set<Pos>, pos: Pos, next: Pos, rest: seq<Pos>)
    requires ValidNeighbors(rows, cols, ([next] + rest)[|rest|], visited + {next} + Elems(rest)) == []
    ensures var t := [next] + rest;
      ValidNeighbors(rows, cols, ([pos] + t)[|t|], visited + Elems(t)) == []
  {
    var t := [next] + rest;
    ElemsCons(next, rest);
    assert visited + Elems(t) == visited + {next} + Elems(rest);
    assert ([pos] + t)[|t|] == ([next] + rest)[|rest|];
  }

  /**
   * Every step of the greedy tour is a Warnsdorff choice given the cells
   * visited before it, and the tour stops only when its last cell has no
   * unvisited on-grid knight neighbor left.
   */
  lemma TourFollowsWarnsdorff(rows: nat, cols: nat, start: Pos)
    requires InBounds(rows, cols, start)
    ensures var tour := Tour(rows, cols, start);
      (forall i :: 0 < i < |tour| ==> IsWarnsdorffChoice(rows, cols, tour[i - 1], Elems(tour[..i]), tour[i]))
      && ValidNeighbors(rows, cols, tour[|tour| - 1], Elems(tour)) == []
  {
    InAllCells(rows, cols, start);
    var t := TourFrom(rows, cols, {start}, start);
    var tour := Tour(rows, cols, start);
    assert tour == [start] + t;
    forall i | 0 < i < |tour|
      ensures IsWarnsdorffChoice(rows, cols, tour[i - 1], Elems(tour[..i]), tour[i])
    {
      TourFromStep(rows, cols, {start}, start, i - 1);
      PrefixCons(start, t, i);
      ElemsCons(start, t[..i - 1]);
    }
    TourFromEnd(rows, cols, {start}, start);
    ElemsCons(start, t);
  }

  /** The greedy tour from `start`, as the source runs it: a visited set and a current cell. */
  method WarnsdorffTour(rows: nat, cols: nat, start: Pos) returns (n: nat)
    requires InBounds(rows, cols, start)
    ensures n == |Tour(rows, cols, start)|
    ensures 1 <= n <= rows * cols
  {
    assert start in AllCells(rows, cols);
    var visited := {start};
    var pos := start;
    while true
      invariant visited <= AllCells(rows, cols)
      invariant |visited| + |TourFrom(rows, cols, visited, pos)| == |Tour(rows, cols, start)|
      decreases |AllCells(rows, cols) - visited|
    {
      var neighbors := ValidNeighbors(rows, cols, pos, visited);
      if neighbors == [] {
        break;
      }
      var nextPos := NextCell(rows, cols, neighbors, visited);
      Shrinks(rows, cols, visited, nextPos);
      visited := visited + {nextPos};
      pos := nextPos;
    }
    n := |visited|;
    TourLengthBounds(rows, cols, start);
  }

  /** The estimate as the source computes it: a scan of every start cell, keeping the maximum. */
  method CalculateMaxMoves(rows: nat, cols: nat) returns (maxMoves: nat)
    ensures maxMoves == MaxTourLength(rows, cols)
    ensures rows > 0 && cols > 0 ==> 1 <= maxMoves <= rows * cols
  {
    maxMoves := 0;
    for i := 0 to rows
      invariant maxMoves == GridMax(TourLengths(rows, cols), cols, i)
    {
      var rowMoves := ScanRow(rows, cols, i);
      maxMoves := Max(maxMoves, rowMoves);
    }
    if rows > 0 && cols > 0 {
      MaxTourLengthIsMax(rows, cols);
      MaxTourLengthBounds(rows, cols, maxMoves);
    }
  }

  /** The inner scan of the estimator: the longest greedy tour from a cell of row `i`. */
  method ScanRow(rows: nat, cols: nat, i: nat) returns (maxMoves: nat)
    requires i < rows
    ensures maxMoves == RowMax(TourLengths(rows, cols), i, cols)
  {
    maxMoves := 0;
    for j := 0 to cols
      invariant maxMoves == RowMax(TourLengths(rows, cols), i, j)
    {
      var moves := WarnsdorffTour(rows, cols, (i, j));
      maxMoves := Max(maxMoves, moves);
    }
  }

  lemma {:induction false} RowMaxIsMax(len: Pos -> nat, r: int, j: nat) returns (best: int)
    ensures forall c :: 0 <= c < j ==> len((r, c)) <= RowMax(len, r, j)
    ensures j > 0 ==> 0 <= best < j && len((r, best)) == RowMax(len, r, j)
  {
    best := 0;
    if j > 0 {
      var b := RowMaxIsMax(len, r, j - 1);
      best := if j == 1 || len((r, j - 1)) > RowMax(len, r, j - 1) then j - 1 else b;
    }
  }

  lemma {:induction false} GridMaxIsMax(len: Pos -> nat, cols: nat, i: nat)
    requires i > 0 && cols > 0
    ensures IsMaxOver(len, i, cols, GridMax(len, cols, i))
  {
    var c := RowMaxIsMax(len, i - 1, cols);
    if i > 1 {
      GridMaxIsMax(len, cols, i - 1);
    }
  }

  /**
   * The estimate is the longest greedy tour: no start cell gives a longer
   * one, and some start cell gives exactly it.
   */
  lemma MaxTourLengthIsMax(rows: nat, cols: nat)
    requires rows > 0 && cols > 0
    ensures IsMaxOver(TourLengths(rows, cols), rows, cols, MaxTourLength(rows, cols))
  {
    GridMaxIsMax(TourLengths(rows, cols), cols, rows);
  }

  /** A maximum tour length is a tour length: at least 1, at most the number of cells. */
  lemma MaxTourLengthBounds(rows: nat, cols: nat, m: int)
    requires IsMaxOver(TourLengths(rows, cols), rows, cols, m)
    ensures 1 <= m <= rows * cols
  {
    var r, c :| 0 <= r < rows && 0 <= c < cols && TourLengths(rows, cols)((r, c)) == m;
    TourLengthBounds(rows, cols, (r, c));
  }

  /** A knight on a one-row grid has nowhere to go: every knight's move changes the row. */
  lemma OneRowNoNeighbors(cols: nat, p: Pos, visited: set<Pos>)
    requires p.0 == 0
    ensures ValidNeighbors(1, cols, p, visited) == []
  {
    KeepOffGrid(1, cols, visited, KnightTargets(p));
  }

  /** On a 1 x 2 grid no two cells are a knight's move apart, so every tour, and the estimate, is 1. */
  lemma OneByTwoGridEstimate()
    ensures MaxTourLength(1, 2) == 1
  {
    var len := TourLengths(1, 2);
    forall c | 0 <= c < 2 ensures len((0, c)) == 1 {
      var p := (0, c);
      InAllCells(1, 2, p);
      OneRowNoNeighbors(2, p, {p});
    }
    assert RowMax(len, 0, 2) == 1;
  }
}
