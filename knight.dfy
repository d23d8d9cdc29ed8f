/**
 * Knight-move geometry of the numbering puzzle: positions on a `rows` x `cols`
 * grid, the knight-displacement predicate used by the move validator, and the
 * fixed eight-entry offset table with the neighbor filter used by the
 * Warnsdorff estimator.
 */
module Knight {

  /** A grid position `(row, col)`. */
  type Pos = (int, int)

  function Abs(x: int): nat {
    if x < 0 then -x else x
  }

  predicate InBounds(rows: int, cols: int, p: Pos) {
    0 <= p.0 < rows && 0 <= p.1 < cols
  }

  /** The displacement from `p` to `q` is a chess knight's move: (|drow|, |dcol|) is (2, 1) or (1, 2). */
  predicate IsKnightStep(p: Pos, q: Pos) {
    var rowDiff, colDiff := Abs(q.0 - p.0), Abs(q.1 - p.1);
    (rowDiff == 2 && colDiff == 1) || (rowDiff == 1 && colDiff == 2)
  }

  predicate Distinct(s: seq<Pos>) {
    forall i, j :: 0 <= i < j < |s| ==> s[i] != s[j]
  }

  /** The cells of `s`, as a set. */
  function Elems(s: seq<Pos>): set<Pos> {
    set x | x in s
  }

  /**
   * A path a knight can walk: each of its cells lies on the grid, no cell twice, and
   * every two consecutive cells a knight's move apart.
   */
  ghost predicate IsOpenKnightPath(rows: int, cols: int, path: seq<Pos>) {
    Distinct(path)
    && (forall i :: 0 <= i < |path| ==> InBounds(rows, cols, path[i]))
    && (forall i, j :: 0 <= i < j < |path| && j == i + 1 ==> IsKnightStep(path[i], path[j]))
  }

  /**
   * The eight knight targets of `p`, in the order of the estimator's offset
   * table. The table lists exactly the cells at knight displacement, each once.
   */
  function KnightTargets(p: Pos): (ms: seq<Pos>)
    ensures |ms| == 8 && Distinct(ms)
    ensures forall q :: q in ms <==> IsKnightStep(p, q)
  {
    var (row, col) := p;
    [(row + 2, col + 1), (row + 2, col - 1), (row - 2, col + 1), (row - 2, col - 1),
     (row + 1, col + 2), (row + 1, col - 2), (row - 1, col + 2), (row - 1, col - 2)]
  }

  /** The entries of `cands` that lie on the grid and are not in `visited`, in their original order. */
  function KeepOpen(rows: int, cols: int, visited: set<Pos>, cands: seq<Pos>): (ns: seq<Pos>)
    ensures |ns| <= |cands|
    ensures forall q :: q in ns <==> q in cands && InBounds(rows, cols, q) && q !in visited
    ensures Distinct(cands) ==> Distinct(ns)
  {
    if cands == [] then []
    else
      var rest := KeepOpen(rows, cols, visited, cands[1..]);
      assert forall q :: q in cands <==> q == cands[0] || q in cands[1..];
      if InBounds(rows, cols, cands[0]) && cands[0] !in visited then [cands[0]] + rest else rest
  }

  /** Filtering a list of off-grid cells leaves nothing. */
  lemma {:induction false} KeepOffGrid(rows: int, cols: int, visited: set<Pos>, cands: seq<Pos>)
    requires forall q :: q in cands ==> !InBounds(rows, cols, q)
    ensures KeepOpen(rows, cols, visited, cands) == []
  {
    if cands != [] {
      assert cands[0] in cands;
      KeepOffGrid(rows, cols, visited, cands[1..]);
    }
  }

  /**
   * The unvisited on-grid knight neighbors of `pos`, in offset-table order:
   * the cells the estimator may move to next.
   */
  function ValidNeighbors(rows: int, cols: int, pos: Pos, visited: set<Pos>): (ns: seq<Pos>)
    ensures |ns| <= 8 && Distinct(ns)
    ensures forall q :: q in ns <==> InBounds(rows, cols, q) && q !in visited && IsKnightStep(pos, q)
  {
    KeepOpen(rows, cols, visited, KnightTargets(pos))
  }

  /** Prepending a fresh first cell one knight's move before the path keeps it an open knight path. */
  lemma ConsPath(rows: int, cols: int, p: Pos, path: seq<Pos>)
    requires IsOpenKnightPath(rows, cols, path) && InBounds(rows, cols, p) && p !in path
    requires path != [] ==> IsKnightStep(p, path[0])
    ensures IsOpenKnightPath(rows, cols, [p] + path)
  {
    var s := [p] + path;
    forall i, j | 0 <= i < j < |s| ensures s[i] != s[j] {
      if i == 0 {
        assert s[j] == path[j - 1];
      } else {
        assert s[i] == path[i - 1] && s[j] == path[j - 1];
      }
    }
    forall i | 0 < i < |s| ensures IsKnightStep(s[i - 1], s[i]) {
      if i > 1 {
        assert s[i - 1] == path[i - 2] && s[i] == path[i - 1];
      }
    }
  }

  /** Appending a fresh cell one knight's move after the last keeps it an open knight path. */
  lemma SnocPath(rows: int, cols: int, path: seq<Pos>, p: Pos)
    requires IsOpenKnightPath(rows, cols, path) && InBounds(rows, cols, p) && p !in path
    requires path != [] ==> IsKnightStep(path[|path| - 1], p)
    ensures IsOpenKnightPath(rows, cols, path + [p])
  {
    var s := path + [p];
    forall i, j | 0 <= i < j < |s| ensures s[i] != s[j] {
      assert s[i] == path[i];
      if j < |path| {
        assert s[j] == path[j];
      }
    }
  }

  lemma PrefixCons(p: Pos, s: seq<Pos>, i: nat)
    requires 0 < i <= |s| + 1
    ensures ([p] + s)[..i] == [p] + s[..i - 1]
  {
  }

  lemma NoneSeenYet(visited: set<Pos>, t: seq<Pos>)
    ensures visited + Elems(t[..0]) == visited
  {
    assert t[..0] == [];
  }

  lemma ElemsCons(p: Pos, s: seq<Pos>)
    ensures Elems([p] + s) == {p} + Elems(s)
  {
    assert forall x :: x in [p] + s <==> x == p || x in s;
  }
}
