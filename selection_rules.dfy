/**
 * The selection rules of the board: which cells touch, when a path may grow
 * by one cell, and how a path is read off the grid.
 */
module SelectionRules {

  /**
   * A grid position. The rules file calls it `Coordinate {r, c}` and the
   * puzzle data `GridCell {row, col}`; both are this one value type, and two
   * cells are the same cell exactly when row and column agree.
   */
  datatype Cell = Cell(row: int, col: int)

  /** A grid is a list of rows, each a list of cell texts (normally one letter). */
  type Grid = seq<seq<string>>

  function Abs(x: int): nat {
    if x < 0 then -x else x
  }

  function Max(a: int, b: int): int {
    if a < b then b else a
  }

  function Min(a: int, b: int): int {
    if a < b then a else b
  }

  /**
   * Eight-way adjacency: the larger of the row and column distances is
   * exactly 1. Equivalently, two different cells at most one step apart on
   * each axis.
   */
  predicate IsAdjacent(p1: Cell, p2: Cell)
    ensures IsAdjacent(p1, p2) <==>
      p1 != p2 && -1 <= p1.row - p2.row <= 1 && -1 <= p1.col - p2.col <= 1
  {
    Max(Abs(p1.row - p2.row), Abs(p1.col - p2.col)) == 1
  }

  lemma AdjacentSymmetric(a: Cell, b: Cell)
    ensures IsAdjacent(a, b) == IsAdjacent(b, a)
  {
  }

  lemma AdjacentIrreflexive(a: Cell)
    ensures !IsAdjacent(a, a)
  {
  }

  /** The eight cells around `a`. */
  function Ring(a: Cell): seq<Cell> {
    [Cell(a.row - 1, a.col - 1), Cell(a.row - 1, a.col), Cell(a.row - 1, a.col + 1),
     Cell(a.row, a.col - 1),                              Cell(a.row, a.col + 1),
     Cell(a.row + 1, a.col - 1), Cell(a.row + 1, a.col), Cell(a.row + 1, a.col + 1)]
  }

  /** Every cell adjacent to `a` is one of the eight cells of its ring, and those eight are different cells. */
  lemma AtMostEightNeighbours(a: Cell, b: Cell)
    ensures IsAdjacent(a, b) <==> b in Ring(a)
    ensures |Ring(a)| == 8 && Distinct(Ring(a))
  {
  }

  /** No element (here mostly: no cell) occurs twice. */
  predicate Distinct<T(==)>(p: seq<T>) {
    forall i, j :: 0 <= i < j < |p| ==> p[i] != p[j]
  }

  /** Each cell is adjacent to the one before it. */
  predicate Linked(p: seq<Cell>) {
    forall i :: 0 <= i < |p| - 1 ==> IsAdjacent(p[i], p[i + 1])
  }

  /** A legal selection: no repeated cell, and each cell adjacent to the one before it. */
  predicate IsPath(p: seq<Cell>) {
    Distinct(p) && Linked(p)
  }

  /** No repeats in a non-empty list: the head is not in the tail, and the tail has no repeats. */
  lemma DistinctCons<T>(s: seq<T>)
    requires s != []
    ensures Distinct(s) <==> s[0] !in s[1..] && Distinct(s[1..])
  {
    var t := s[1..];
    if s[0] !in t && Distinct(t) {
      forall i, j | 0 <= i < j < |s| ensures s[i] != s[j] {
        assert s[j] == t[j - 1];
        if i > 0 {
          assert s[i] == t[i - 1];
        }
      }
    }
    if Distinct(s) {
      forall i, j | 0 <= i < j < |t| ensures t[i] != t[j] {
        assert t[i] == s[i + 1] && t[j] == s[j + 1];
      }
    }
  }

  /**
   * A list has at most as many different elements as entries, and exactly
   * as many when none repeats.
   */
  lemma {:induction false} DistinctIffNoCollapse<T>(s: seq<T>)
    ensures |set c | c in s| <= |s|
    ensures Distinct(s) <==> |set c | c in s| == |s|
  {
    if s != [] {
      var t := s[1..];
      DistinctIffNoCollapse(t);
      DistinctCons(s);
      var cells, tailCells := set c | c in s, set c | c in t;
      assert cells == {s[0]} + tailCells by {
        assert s == [s[0]] + t;
      }
      if s[0] in t {
        assert cells == tailCells;
      } else {
        assert s[0] !in tailCells;
        assert |cells| == |tailCells| + 1;
      }
    }
  }

  /** The two halves of a list without repeats have no repeats and no element in common. */
  lemma DistinctSplit<T>(a: seq<T>, b: seq<T>)
    requires Distinct(a + b)
    ensures Distinct(a) && Distinct(b)
    ensures forall x :: x in a ==> x !in b
  {
    forall i, j | 0 <= i < j < |a| ensures a[i] != a[j] {
      assert a[i] == (a + b)[i] && a[j] == (a + b)[j];
    }
    forall i, j | 0 <= i < j < |b| ensures b[i] != b[j] {
      assert b[i] == (a + b)[|a| + i] && b[j] == (a + b)[|a| + j];
    }
    forall x | x in a ensures x !in b {
      var i :| 0 <= i < |a| && a[i] == x;
      forall j | 0 <= j < |b| ensures b[j] != x {
        assert (a + b)[i] == x && (a + b)[|a| + j] == b[j];
      }
    }
  }

  /**
   * May `next` be appended to `currentPath`? Any cell may start an empty
   * path; otherwise `next` must touch the last cell and must not be used yet.
   */
  predicate IsValidNextStep(currentPath: seq<Cell>, next: Cell)
    ensures currentPath == [] ==> IsValidNextStep(currentPath, next)
    ensures currentPath != [] && IsValidNextStep(currentPath, next) ==>
      IsAdjacent(currentPath[|currentPath| - 1], next) && next !in currentPath
    ensures currentPath != [] && IsAdjacent(currentPath[|currentPath| - 1], next) && next !in currentPath ==>
      IsValidNextStep(currentPath, next)
  {
    if |currentPath| == 0 then true
    else
      var last := currentPath[|currentPath| - 1];
      if !IsAdjacent(last, next) then false
      else
        var isUsed := exists k :: 0 <= k < |currentPath| && currentPath[k].row == next.row && currentPath[k].col == next.col;
        !isUsed
  }

  /**
   * The step rule and the path invariant agree: on a non-empty legal path,
   * `next` is a valid next step exactly when the extended path is still legal.
   */
  lemma {:induction false} ValidNextStepKeepsPath(path: seq<Cell>, next: Cell)
    requires IsPath(path)
    ensures IsValidNextStep(path, next) ==> IsPath(path + [next])
    ensures path != [] && IsPath(path + [next]) ==> IsValidNextStep(path, next)
  {
    var q := path + [next];
    if IsValidNextStep(path, next) {
      forall i, j | 0 <= i < j < |q| ensures q[i] != q[j] {
        if j == |path| && path != [] {
          assert q[i] in path;
        }
      }
      forall i | 0 <= i < |q| - 1 ensures IsAdjacent(q[i], q[i + 1]) {
        if i < |path| - 1 {
          assert q[i] == path[i] && q[i + 1] == path[i + 1];
        }
      }
    }
    if path != [] && IsPath(q) {
      assert q[|path| - 1] == path[|path| - 1] && q[|path|] == next;
      forall k | 0 <= k < |path| ensures path[k] != next {
        assert q[k] == path[k] && q[k] != q[|path|];
      }
    }
  }

  /**
   * The letters along a path, concatenated. A row outside the grid is an
   * error in the source (it throws), so callers must keep rows in range; a
   * column outside its row reads `undefined`, which `join` turns into ''.
   */
  function GetWordFromPath(grid: Grid, path: seq<Cell>): (word: string)
    requires forall k :: 0 <= k < |path| ==> 0 <= path[k].row < |grid|
    ensures (forall k :: 0 <= k < |path| ==> 0 <= path[k].col < |grid[path[k].row]| && |grid[path[k].row][path[k].col]| == 1)
      ==> |word| == |path| && forall k :: 0 <= k < |path| ==> word[k] == grid[path[k].row][path[k].col][0]
  {
    if path == [] then ""
    else
      var p := path[0];
      var letter := if 0 <= p.col < |grid[p.row]| then grid[p.row][p.col] else "";
      letter + GetWordFromPath(grid, path[1..])
  }
}
