/**
 * The word-path solver: a depth-first search over the grid for a legal path
 * that spells a word, marking the cells of the path being built in one
 * shared `visited` set and unmarking them on the way back.
 */
module PathSolver {
  import opened Nullable
  import opened AsciiText
  import opened SelectionRules
  import opened Puzzle

  /** `grid.length` */
  function Rows(grid: Grid): nat {
    |grid|
  }

  /** `grid[0]?.length ?? 0`: the width is read off the first row. */
  function Cols(grid: Grid): nat {
    if |grid| == 0 then 0 else |grid[0]|
  }

  /** The cell lies in the rectangle the search scans. */
  predicate InScan(grid: Grid, c: Cell) {
    0 <= c.row < Rows(grid) && 0 <= c.col < Cols(grid)
  }

  /** `grid[row]?.[col] === ch`: the cell exists and its text is exactly that one letter. */
  predicate HoldsLetter(grid: Grid, c: Cell, ch: char) {
    0 <= c.row < |grid| && 0 <= c.col < |grid[c.row]| && grid[c.row][c.col] == [ch]
  }

  /**
   * `s` finishes spelling `target` from letter `index` on: one cell per
   * remaining letter, each in the scanned rectangle, holding its letter and
   * not in `visited`, the whole forming a legal path.
   */
  predicate Completes(grid: Grid, target: string, index: nat, visited: set<Cell>, s: seq<Cell>) {
    && index + |s| == |target|
    && IsPath(s)
    && forall k :: 0 <= k < |s| ==> InScan(grid, s[k]) && s[k] !in visited && HoldsLetter(grid, s[k], target[index + k])
  }

  /** `p` is a legal path of the grid that spells `target`. */
  predicate Spells(grid: Grid, target: string, p: seq<Cell>) {
    Completes(grid, target, 0, {}, p)
  }

  /**
   * The solver and the reader agree: a path spells `target` exactly when it
   * is a legal path of one-letter cells inside the scanned rectangle that
   * reads back as `target`.
   */
  lemma SpellsIffReadsBack(grid: Grid, target: string, p: seq<Cell>)
    ensures Spells(grid, target, p) <==>
      && IsPath(p)
      && (forall k :: 0 <= k < |p| ==> InScan(grid, p[k]) && IsLetterCell(grid, p[k]))
      && ToWordFromPath(p, grid) == target
  {
    if Spells(grid, target, p) {
      forall k | 0 <= k < |p| ensures IsLetterCell(grid, p[k]) && Letter(grid, p[k]) == target[k] {
        assert HoldsLetter(grid, p[k], target[k]);
      }
      SpellsPointwise(p, grid, target);
    }
    if IsPath(p) && (forall k :: 0 <= k < |p| ==> InScan(grid, p[k]) && IsLetterCell(grid, p[k])) && ToWordFromPath(p, grid) == target {
      ToWordFromPathLetters(p, grid);
      forall k | 0 <= k < |p| ensures HoldsLetter(grid, p[k], target[k]) {
        assert grid[p[k].row][p[k].col] == [Letter(grid, p[k])];
      }
    }
  }

  /** The order in which the search tries cells: by row, then by column. */
  predicate RowMajorBefore(a: Cell, b: Cell) {
    a.row < b.row || (a.row == b.row && a.col < b.col)
  }

  /** `p` comes no later than `q` in the dictionary order that row-major order induces on paths. */
  predicate LexNoLater(p: seq<Cell>, q: seq<Cell>)
    decreases |p|
  {
    p == [] || (q != [] && (RowMajorBefore(p[0], q[0]) || (p[0] == q[0] && LexNoLater(p[1..], q[1..]))))
  }

  /** Two paths of one length that each come no later than the other are the same path. */
  lemma {:induction false} LexNoLaterAntisymmetric(p: seq<Cell>, q: seq<Cell>)
    requires |p| == |q| && LexNoLater(p, q) && LexNoLater(q, p)
    ensures p == q
  {
    if p != [] {
      LexNoLaterAntisymmetric(p[1..], q[1..]);
      assert p == [p[0]] + p[1..] && q == [q[0]] + q[1..];
    }
  }

  /** `p` spells `target` and comes no later than any other path that does. */
  ghost predicate FirstSpelling(grid: Grid, target: string, p: seq<Cell>) {
    Spells(grid, target, p) && forall q :: Spells(grid, target, q) ==> LexNoLater(p, q)
  }

  /**
   * There is at most one first spelling, so the solver's answer, which is
   * the first spelling whenever it is not None, is a function of the grid
   * and the word.
   */
  lemma FirstSpellingUnique(grid: Grid, target: string, p: seq<Cell>, q: seq<Cell>)
    requires FirstSpelling(grid, target, p) && FirstSpelling(grid, target, q)
    ensures p == q
  {
    LexNoLaterAntisymmetric(p, q);
  }

  /** A letter of the word that no cell holds leaves the word without a path. */
  lemma MissingLetterNoPath(grid: Grid, target: string, k: nat)
    requires k < |target|
    requires forall c: Cell :: !HoldsLetter(grid, c, target[k])
    ensures forall p :: !Spells(grid, target, p)
  {
    forall p: seq<Cell> | |p| == |target| ensures !Spells(grid, target, p) {
      assert !HoldsLetter(grid, p[k], target[k]);
    }
  }

  /** Dropping the first cell of a completion leaves a completion of the next letters, which avoids that cell too. */
  lemma CompletesTail(grid: Grid, target: string, index: nat, visited: set<Cell>, t: seq<Cell>)
    requires Completes(grid, target, index, visited, t) && |t| >= 2
    ensures Completes(grid, target, index + 1, visited + {t[0]}, t[1..])
    ensures IsAdjacent(t[0], t[1])
  {
    var u := t[1..];
    DistinctCons(t);
    forall k | 0 <= k < |u| - 1 ensures IsAdjacent(u[k], u[k + 1]) {
      assert u[k] == t[k + 1] && u[k + 1] == t[k + 2];
    }
    forall k | 0 <= k < |u|
      ensures InScan(grid, u[k]) && u[k] !in visited + {t[0]} && HoldsLetter(grid, u[k], target[index + 1 + k])
    {
      assert u[k] == t[k + 1];
    }
  }

  /** A cell that holds the current letter, is free and touches a completion of the next letters completes the word. */
  lemma CompletesCons(grid: Grid, target: string, index: nat, visited: set<Cell>, c: Cell, s: seq<Cell>)
    requires Completes(grid, target, index + 1, visited + {c}, s) && s != []
    requires IsAdjacent(c, s[0]) && InScan(grid, c) && c !in visited && HoldsLetter(grid, c, target[index])
    ensures Completes(grid, target, index, visited, [c] + s)
  {
    var t := [c] + s;
    assert t[1..] == s;
    assert c !in s;
    DistinctCons(t);
    forall k | 0 <= k < |t| - 1 ensures IsAdjacent(t[k], t[k + 1]) {
      if k > 0 {
        assert t[k] == s[k - 1] && t[k + 1] == s[k];
      }
    }
    forall k | 0 <= k < |t| ensures InScan(grid, t[k]) && t[k] !in visited && HoldsLetter(grid, t[k], target[index + k]) {
      if k > 0 {
        assert t[k] == s[k - 1];
      }
    }
  }

  /** No continuation of letter `index` through a neighbour of `c` starts above row `r`. */
  ghost predicate NoneAbove(grid: Grid, target: string, index: nat, visited: set<Cell>, c: Cell, r: int) {
    forall s: seq<Cell> :: Completes(grid, target, index + 1, visited, s) && s != [] && IsAdjacent(c, s[0]) ==> r <= s[0].row
  }

  /** No continuation of letter `index` through a neighbour of `c` starts at a cell tried before `n`. */
  ghost predicate NoneBefore(grid: Grid, target: string, index: nat, visited: set<Cell>, c: Cell, n: Cell) {
    forall s: seq<Cell> :: Completes(grid, target, index + 1, visited, s) && s != [] && IsAdjacent(c, s[0]) ==> !RowMajorBefore(s[0], n)
  }

  /** Rows above the one before `c` hold no neighbour of `c`. */
  lemma FirstRow(grid: Grid, target: string, index: nat, visited: set<Cell>, c: Cell)
    requires index + 1 < |target|
    ensures NoneAbove(grid, target, index, visited, c, Max(0, c.row - 1))
  {
    forall s: seq<Cell> | Completes(grid, target, index + 1, visited, s) && s != [] && IsAdjacent(c, s[0])
      ensures Max(0, c.row - 1) <= s[0].row
    {
      assert InScan(grid, s[0]);
    }
  }

  /** Columns left of the one before `c` hold no neighbour of `c`. */
  lemma FirstColumn(grid: Grid, target: string, index: nat, visited: set<Cell>, c: Cell, r: int)
    requires index + 1 < |target|
    requires NoneAbove(grid, target, index, visited, c, r)
    ensures NoneBefore(grid, target, index, visited, c, Cell(r, Max(0, c.col - 1)))
  {
    forall s: seq<Cell> | Completes(grid, target, index + 1, visited, s) && s != [] && IsAdjacent(c, s[0])
      ensures !RowMajorBefore(s[0], Cell(r, Max(0, c.col - 1)))
    {
      assert InScan(grid, s[0]);
    }
  }

  /** A cell that is no neighbour of `c`, or starts no continuation, can be passed over. */
  lemma NextColumn(grid: Grid, target: string, index: nat, visited: set<Cell>, c: Cell, n: Cell)
    requires NoneBefore(grid, target, index, visited, c, n)
    requires !IsAdjacent(c, n) || forall s: seq<Cell> :: Completes(grid, target, index + 1, visited, s) && s != [] ==> s[0] != n
    ensures NoneBefore(grid, target, index, visited, c, Cell(n.row, n.col + 1))
  {
  }

  /** Once the columns of row `r` are exhausted, a continuation through a neighbour of `c` starts below row `r`. */
  lemma NextRow(grid: Grid, target: string, index: nat, visited: set<Cell>, c: Cell, r: int, col: int)
    requires index + 1 < |target|
    requires col > Min(Cols(grid) - 1, c.col + 1)
    requires NoneAbove(grid, target, index, visited, c, r)
    requires NoneBefore(grid, target, index, visited, c, Cell(r, col))
    ensures NoneAbove(grid, target, index, visited, c, r + 1)
  {
    forall s: seq<Cell> | Completes(grid, target, index + 1, visited, s) && s != [] && IsAdjacent(c, s[0]) ensures r + 1 <= s[0].row {
      assert InScan(grid, s[0]);
    }
  }

  /** Once the rows around `c` are exhausted without a continuation, no completion starts at `c`. */
  lemma NeighboursExhausted(grid: Grid, target: string, index: nat, visited: set<Cell>, c: Cell, r: int)
    requires index + 1 < |target|
    requires r > Min(Rows(grid) - 1, c.row + 1)
    requires NoneAbove(grid, target, index, visited + {c}, c, r)
    ensures forall t: seq<Cell> :: Completes(grid, target, index, visited, t) ==> t[0] != c
  {
    forall t: seq<Cell> | Completes(grid, target, index, visited, t) ensures t[0] != c {
      if t[0] == c {
        CompletesTail(grid, target, index, visited, t);
      }
    }
  }

  /**
   * The ordering step of the search: if `rest` is the first completion
   * starting at neighbour `n`, and no completion starts at a neighbour tried
   * before `n`, then `[c] + rest` is the first completion starting at `c`.
   */
  lemma FirstThroughNeighbour(grid: Grid, target: string, index: nat, visited: set<Cell>, c: Cell, n: Cell, rest: seq<Cell>)
    requires index + 1 < |target|
    requires Completes(grid, target, index + 1, visited + {c}, rest) && rest[0] == n
    requires forall s: seq<Cell> :: Completes(grid, target, index + 1, visited + {c}, s) && s[0] == n ==> LexNoLater(rest, s)
    requires NoneBefore(grid, target, index, visited + {c}, c, n)
    ensures forall t: seq<Cell> :: Completes(grid, target, index, visited, t) && t[0] == c ==> LexNoLater([c] + rest, t)
  {
    forall t: seq<Cell> | Completes(grid, target, index, visited, t) && t[0] == c ensures LexNoLater([c] + rest, t) {
      CompletesTail(grid, target, index, visited, t);
      var u := t[1..];
      assert ([c] + rest)[1..] == rest;
      if u[0] != n {
        assert RowMajorBefore(n, u[0]);
      }
      assert LexNoLater(rest, u);
    }
  }

  /** The success step of the search: the completion found through neighbour `n` extends to the first completion through `c`. */
  lemma FoundThroughNeighbour(grid: Grid, target: string, index: nat, visited: set<Cell>, c: Cell, n: Cell, f: seq<Cell>)
    requires index + 1 < |target| == |f|
    requires f[index] == c && f[index + 1] == n
    requires InScan(grid, c) && c !in visited && HoldsLetter(grid, c, target[index]) && IsAdjacent(c, n)
    requires Completes(grid, target, index + 1, visited + {c}, f[index + 1..])
    requires forall s: seq<Cell> :: Completes(grid, target, index + 1, visited + {c}, s) && s[0] == n ==> LexNoLater(f[index + 1..], s)
    requires NoneBefore(grid, target, index, visited + {c}, c, n)
    ensures Completes(grid, target, index, visited, f[index..])
    ensures forall t: seq<Cell> :: Completes(grid, target, index, visited, t) && t[0] == c ==> LexNoLater(f[index..], t)
  {
    var rest := f[index + 1..];
    assert f[index..] == [c] + rest;
    FirstThroughNeighbour(grid, target, index, visited, c, n, rest);
    CompletesCons(grid, target, index, visited, c, rest);
  }

  /** The search state: the grid, the upper-cased word, and the shared set of cells on the current path. */
  class PathSearch {
    const grid: Grid
    const target: string
    const rows: nat := Rows(grid)
    const cols: nat := Cols(grid)
    var visited: set<Cell>

    constructor (grid: Grid, target: string)
      ensures this.grid == grid && this.target == target
      ensures rows == Rows(grid) && cols == Cols(grid)
      ensures visited == {}
    {
      this.grid := grid;
      this.target := target;
      visited := {};
    }

    /**
     * Try to finish the word through cell (row, col) as its letter `index`,
     * `path` being the cells chosen for the letters before it. Returns the
     * whole path on success, and leaves `visited` as it found it either way.
     * On success the path is the first such completion in row-major
     * dictionary order; on failure there is none.
     */
    method Search(row: int, col: int, index: nat, path: seq<Cell>) returns (found: Option<seq<Cell>>)
      requires index == |path| < |target|
      requires InScan(grid, Cell(row, col))
      modifies this
      decreases |target| - index
      ensures visited == old(visited)
      ensures found.Some? ==>
        && |found.value| == |target| && found.value[..index] == path && found.value[index] == Cell(row, col)
        && Completes(grid, target, index, visited, found.value[index..])
      ensures found.None? ==> forall s :: Completes(grid, target, index, visited, s) ==> s[0] != Cell(row, col)
      ensures found.Some? ==> forall s :: Completes(grid, target, index, visited, s) && s[0] == Cell(row, col) ==>
        LexNoLater(found.value[index..], s)
    {
      var cell := Cell(row, col);
      if !HoldsLetter(grid, cell, target[index]) {
        return None;
      }
      if cell in visited {
        return None;
      }
      var nextPath := path + [cell];
      if index == |target| - 1 {
        assert nextPath[index..] == [cell];
        return Some(nextPath);
      }
      visited := visited + {cell};
      var nextRow := Max(0, row - 1);
      FirstRow(grid, target, index, visited, cell);
      while nextRow <= Min(rows - 1, row + 1)
        invariant visited == old(visited) + {cell}
        invariant Max(0, row - 1) <= nextRow
        invariant NoneAbove(grid, target, index, visited, cell, nextRow)
      {
        var nextCol := Max(0, col - 1);
        FirstColumn(grid, target, index, visited, cell, nextRow);
        while nextCol <= Min(cols - 1, col + 1)
          invariant visited == old(visited) + {cell}
          invariant Max(0, col - 1) <= nextCol
          invariant NoneAbove(grid, target, index, visited, cell, nextRow)
          invariant NoneBefore(grid, target, index, visited, cell, Cell(nextRow, nextCol))
        {
          var next := Cell(nextRow, nextCol);
          if IsAdjacent(cell, next) {
            var found := Search(nextRow, nextCol, index + 1, nextPath);
            if found.Some? {
              assert found.value[index] == nextPath[index];
              FoundThroughNeighbour(grid, target, index, old(visited), cell, next, found.value);
              visited := visited - {cell};
              return found;
            }
          }
          NextColumn(grid, target, index, visited, cell, next);
          nextCol := nextCol + 1;
        }
        NextRow(grid, target, index, visited, cell, nextRow, nextCol);
        nextRow := nextRow + 1;
      }
      NeighboursExhausted(grid, target, index, old(visited), cell, nextRow);
      visited := visited - {cell};
      return None;
    }
  }

  /**
   * Find a path that spells `word` (upper-cased) in the grid, or None.
   * Only the scanned rectangle is searched: `grid.length` rows by the width
   * of the first row. The result is sound (a legal path inside that
   * rectangle that spells the word), complete (None only for the empty
   * word or when no such path exists) and deterministic: it is the first
   * solution in the dictionary
   * order induced by row-major cell order, the order in which start cells
   * and neighbours are tried.
   */
  method SolveWordPath(grid: Grid, word: string) returns (result: Option<seq<Cell>>)
    ensures word == "" ==> result == None
    ensures result.Some? ==> Spells(grid, ToUpper(word), result.value)
    ensures word != "" && result == None ==> forall p :: !Spells(grid, ToUpper(word), p)
    ensures result.Some? ==> forall p: seq<Cell> :: Spells(grid, ToUpper(word), p) ==> LexNoLater(result.value, p)
  {
    if word == "" {
      return None;
    }
    var target := ToUpper(word);
    var search := new PathSearch(grid, target);
    var row := 0;
    while row < search.rows
      invariant search.visited == {}
      invariant forall p: seq<Cell> :: Spells(grid, target, p) ==> row <= p[0].row
    {
      var col := 0;
      while col < search.cols
        invariant search.visited == {}
        invariant forall p: seq<Cell> :: Spells(grid, target, p) ==> row <= p[0].row
        invariant forall p: seq<Cell> :: Spells(grid, target, p) ==> !RowMajorBefore(p[0], Cell(row, col))
      {
        var found := search.Search(row, col, 0, []);
        if found.Some? {
          assert found.value[0..] == found.value;
          forall p | Spells(grid, target, p) ensures LexNoLater(found.value, p) {
            if p[0] != Cell(row, col) {
              assert RowMajorBefore(Cell(row, col), p[0]);
            }
          }
          return found;
        }
        col := col + 1;
      }
      row := row + 1;
    }
    return None;
  }

  /** A checked theme entry of a board-sized, upper-case grid is a path the solver accepts for its word. */
  lemma CheckedEntrySpells(grid: Grid, e: ThemeEntry)
    requires |grid| == GRID_ROWS && |grid[0]| == GRID_COLUMNS
    requires forall r, c :: 0 <= r < GRID_ROWS && 0 <= c < GRID_COLUMNS ==>
      IsLetterCell(grid, Cell(r, c)) && !IsLower(Letter(grid, Cell(r, c)))
    requires SolutionChecks(grid, e) && Distinct(e.solution)
    ensures Spells(grid, ToUpper(e.word), e.solution)
  {
    forall k | 0 <= k < |e.word| ensures !IsLower(e.word[k]) {
      var c := e.solution[k];
      assert OnBoard(c);
    }
    ToUpperKeepsUpper(e.word);
    forall k | 0 <= k < |e.solution| ensures InScan(grid, e.solution[k]) && HoldsLetter(grid, e.solution[k], e.word[k]) {
      assert grid[e.solution[k].row][e.solution[k].col] == [Letter(grid, e.solution[k])];
    }
  }

  /**
   * Every theme word of the built-in puzzle has a path the solver accepts:
   * its hand-written solution. So the solver never returns None for them.
   */
  lemma StaticThemeWordsSolvable()
    ensures forall i :: 0 <= i < |STATIC_PUZZLE.themeEntries| ==>
      Spells(STATIC_PUZZLE.grid, ToUpper(STATIC_PUZZLE.themeEntries[i].word), STATIC_PUZZLE.themeEntries[i].solution)
  {
    var e, g := STATIC_PUZZLE.themeEntries, STATIC_PUZZLE.grid;
    StaticGridShape();
    StaticGridUpper();
    StaticSolutionsChecked();
    StaticSolutionsLegal();
    forall i | 0 <= i < |e| ensures Spells(g, ToUpper(e[i].word), e[i].solution) {
      CheckedEntrySpells(g, e[i]);
    }
  }
}
