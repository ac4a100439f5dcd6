/**
 * The puzzle data: its shape, the one built-in puzzle with its theme entries
 * and hand-written solution paths, and the lenient word reader.
 */
module Puzzle {
  import opened SelectionRules
  import opened AsciiText

  /** A theme answer and the path that spells it. */
  datatype ThemeEntry = ThemeEntry(word: string, solution: seq<Cell>)

  datatype Puzzle = Puzzle(theme: string, grid: Grid, themeEntries: seq<ThemeEntry>)

  const GRID_COLUMNS: nat := 6
  const GRID_ROWS: nat := 8

  const STATIC_PUZZLE: Puzzle := Puzzle(
    "Things I Love About You",
    [ ["S", "N", "O", "T", "T", "S"],
      ["M", "C", "A", "J", "E", "N"],
      ["A", "R", "I", "U", "T", "O"],
      ["I", "R", "N", "S", "H", "H"],
      ["N", "T", "G", "T", "O", "U"],
      ["D", "E", "P", "S", "L", "G"],
      ["D", "N", "E", "E", "U", "H"],
      ["E", "N", "T", "X", "F", "T"] ],
    [ ThemeEntry("SMART",
        [Cell(0, 0), Cell(1, 0), Cell(2, 0), Cell(3, 1), Cell(4, 1)]),
      ThemeEntry("CARING",
        [Cell(1, 1), Cell(1, 2), Cell(2, 1), Cell(2, 2), Cell(3, 2), Cell(4, 2)]),
      ThemeEntry("HONEST",
        [Cell(3, 5), Cell(2, 5), Cell(1, 5), Cell(1, 4), Cell(0, 5), Cell(0, 4)]),
      ThemeEntry("THOUGHTFUL",
        [Cell(2, 4), Cell(3, 4), Cell(4, 4), Cell(4, 5), Cell(5, 5), Cell(6, 5), Cell(7, 5), Cell(7, 4),
         Cell(6, 4), Cell(5, 4)]),
      ThemeEntry("INDEPENDENT",
        [Cell(3, 0), Cell(4, 0), Cell(5, 0), Cell(5, 1), Cell(5, 2), Cell(6, 2), Cell(6, 1), Cell(6, 0),
         Cell(7, 0), Cell(7, 1), Cell(7, 2)]),
      ThemeEntry("NOTJUSTSEX",
        [Cell(0, 1), Cell(0, 2), Cell(0, 3), Cell(1, 3), Cell(2, 3), Cell(3, 3), Cell(4, 3), Cell(5, 3),
         Cell(6, 3), Cell(7, 3)]) ])

  /** The cell's text when the cell exists (`grid[row]?.[col] ?? ''`), and '' otherwise. */
  function CellText(grid: Grid, c: Cell): string {
    if 0 <= c.row < |grid| && 0 <= c.col < |grid[c.row]| then grid[c.row][c.col] else ""
  }

  /** The cell exists and holds exactly one letter. */
  predicate IsLetterCell(grid: Grid, c: Cell) {
    0 <= c.row < |grid| && 0 <= c.col < |grid[c.row]| && |grid[c.row][c.col]| == 1
  }

  /** The letter of a one-letter cell. */
  function Letter(grid: Grid, c: Cell): char
    requires IsLetterCell(grid, c)
  {
    grid[c.row][c.col][0]
  }

  /**
   * The word a path spells, read leniently: the texts of its cells in path
   * order, a cell outside the grid contributing ''. It never fails.
   */
  function ToWordFromPath(path: seq<Cell>, grid: Grid): (word: string)
    ensures (forall i, j :: 0 <= i < |grid| && 0 <= j < |grid[i]| ==> |grid[i][j]| <= 1) ==> |word| <= |path|
  {
    if path == [] then "" else CellText(grid, path[0]) + ToWordFromPath(path[1..], grid)
  }

  /** Appending a cell appends its text. */
  lemma {:induction false} ToWordFromPathAppend(path: seq<Cell>, c: Cell, grid: Grid)
    ensures ToWordFromPath(path + [c], grid) == ToWordFromPath(path, grid) + CellText(grid, c)
  {
    if path != [] {
      assert (path + [c])[1..] == path[1..] + [c];
      ToWordFromPathAppend(path[1..], c, grid);
    }
  }

  /**
   * On a path of one-letter cells the word has one letter per cell, and the
   * i-th letter is the letter of the i-th cell.
   */
  lemma {:induction false} ToWordFromPathLetters(path: seq<Cell>, grid: Grid)
    requires forall k :: 0 <= k < |path| ==> IsLetterCell(grid, path[k])
    ensures |ToWordFromPath(path, grid)| == |path|
    ensures forall k :: 0 <= k < |path| ==> ToWordFromPath(path, grid)[k] == Letter(grid, path[k])
  {
    if path != [] {
      ToWordFromPathLetters(path[1..], grid);
      var w := ToWordFromPath(path, grid);
      assert w == grid[path[0].row][path[0].col] + ToWordFromPath(path[1..], grid);
      forall k | 0 <= k < |path| ensures w[k] == Letter(grid, path[k]) {
        if k > 0 {
          assert path[1..][k - 1] == path[k];
        }
      }
    }
  }

  /**
   * The strict reader of the rules file and the lenient reader agree
   * whenever the strict one is defined (every row in range).
   */
  lemma {:induction false} GetWordAgreesWithToWord(grid: Grid, path: seq<Cell>)
    requires forall k :: 0 <= k < |path| ==> 0 <= path[k].row < |grid|
    ensures GetWordFromPath(grid, path) == ToWordFromPath(path, grid)
  {
    if path != [] {
      GetWordAgreesWithToWord(grid, path[1..]);
    }
  }

  /** Spelling a word letter by letter is spelling it. */
  lemma SpellsPointwise(path: seq<Cell>, grid: Grid, word: string)
    requires |path| == |word|
    requires forall k :: 0 <= k < |path| ==> IsLetterCell(grid, path[k]) && Letter(grid, path[k]) == word[k]
    ensures ToWordFromPath(path, grid) == word
  {
    ToWordFromPathLetters(path, grid);
  }

  /** The cell lies on the board of the built-in puzzle. */
  predicate OnBoard(c: Cell) {
    0 <= c.row < GRID_ROWS && 0 <= c.col < GRID_COLUMNS
  }

  /** The built-in grid has `GRID_ROWS` rows of `GRID_COLUMNS` one-letter cells. */
  lemma StaticGridShape()
    ensures |STATIC_PUZZLE.grid| == GRID_ROWS
    ensures forall r :: 0 <= r < GRID_ROWS ==> |STATIC_PUZZLE.grid[r]| == GRID_COLUMNS
    ensures forall r, c :: 0 <= r < GRID_ROWS && 0 <= c < GRID_COLUMNS ==> IsLetterCell(STATIC_PUZZLE.grid, Cell(r, c))
  {
  }

  /** Every letter of the built-in grid is upper case. */
  lemma StaticGridUpper()
    ensures forall r, c :: 0 <= r < GRID_ROWS && 0 <= c < GRID_COLUMNS ==>
      IsLetterCell(STATIC_PUZZLE.grid, Cell(r, c)) && !IsLower(Letter(STATIC_PUZZLE.grid, Cell(r, c)))
  {
    var g := STATIC_PUZZLE.grid;
    forall r, c | 0 <= r < GRID_ROWS && 0 <= c < GRID_COLUMNS ensures IsLetterCell(g, Cell(r, c)) && !IsLower(Letter(g, Cell(r, c))) { }
  }

  /**
   * What each theme entry of the built-in puzzle is checked for, one entry
   * at a time: cell by cell, its solution holds the letters of its word
   * (so it spells the word, `SpellsPointwise`), each cell touches the one
   * before it, and every cell is on the board. That no cell repeats is
   * checked for all solutions together, in `StaticSolutionsPartition`.
   */
  predicate SolutionChecks(grid: Grid, e: ThemeEntry) {
    && |e.solution| == |e.word|
    && Linked(e.solution)
    && forall k :: 0 <= k < |e.solution| ==>
         OnBoard(e.solution[k]) && IsLetterCell(grid, e.solution[k]) && Letter(grid, e.solution[k]) == e.word[k]
  }

  lemma SmartSolutionChecks()
    ensures STATIC_PUZZLE.themeEntries[0].word == "SMART"
    ensures SolutionChecks(STATIC_PUZZLE.grid, STATIC_PUZZLE.themeEntries[0])
  {
    var e, g := STATIC_PUZZLE.themeEntries[0], STATIC_PUZZLE.grid;
    forall i | 0 <= i < |e.solution| - 1 ensures IsAdjacent(e.solution[i], e.solution[i + 1]) { }
    forall i | 0 <= i < |e.solution| ensures OnBoard(e.solution[i]) && IsLetterCell(g, e.solution[i]) && Letter(g, e.solution[i]) == e.word[i] { }
  }

  lemma CaringSolutionChecks()
    ensures STATIC_PUZZLE.themeEntries[1].word == "CARING"
    ensures SolutionChecks(STATIC_PUZZLE.grid, STATIC_PUZZLE.themeEntries[1])
  {
    var e, g := STATIC_PUZZLE.themeEntries[1], STATIC_PUZZLE.grid;
    forall i | 0 <= i < |e.solution| - 1 ensures IsAdjacent(e.solution[i], e.solution[i + 1]) { }
    forall i | 0 <= i < |e.solution| ensures OnBoard(e.solution[i]) && IsLetterCell(g, e.solution[i]) && Letter(g, e.solution[i]) == e.word[i] { }
  }

  lemma HonestSolutionChecks()
    ensures STATIC_PUZZLE.themeEntries[2].word == "HONEST"
    ensures SolutionChecks(STATIC_PUZZLE.grid, STATIC_PUZZLE.themeEntries[2])
  {
    var e, g := STATIC_PUZZLE.themeEntries[2], STATIC_PUZZLE.grid;
    forall i | 0 <= i < |e.solution| - 1 ensures IsAdjacent(e.solution[i], e.solution[i + 1]) { }
    forall i | 0 <= i < |e.solution| ensures OnBoard(e.solution[i]) && IsLetterCell(g, e.solution[i]) && Letter(g, e.solution[i]) == e.word[i] { }
  }

  lemma ThoughtfulSolutionChecks()
    ensures STATIC_PUZZLE.themeEntries[3].word == "THOUGHTFUL"
    ensures SolutionChecks(STATIC_PUZZLE.grid, STATIC_PUZZLE.themeEntries[3])
  {
    var e, g := STATIC_PUZZLE.themeEntries[3], STATIC_PUZZLE.grid;
    forall i | 0 <= i < |e.solution| - 1 ensures IsAdjacent(e.solution[i], e.solution[i + 1]) { }
    forall i | 0 <= i < |e.solution| ensures OnBoard(e.solution[i]) && IsLetterCell(g, e.solution[i]) && Letter(g, e.solution[i]) == e.word[i] { }
  }

  lemma IndependentSolutionChecks()
    ensures STATIC_PUZZLE.themeEntries[4].word == "INDEPENDENT"
    ensures SolutionChecks(STATIC_PUZZLE.grid, STATIC_PUZZLE.themeEntries[4])
  {
    var e, g := STATIC_PUZZLE.themeEntries[4], STATIC_PUZZLE.grid;
    forall i | 0 <= i < |e.solution| - 1 ensures IsAdjacent(e.solution[i], e.solution[i + 1]) { }
    forall i | 0 <= i < |e.solution| ensures OnBoard(e.solution[i]) && IsLetterCell(g, e.solution[i]) && Letter(g, e.solution[i]) == e.word[i] { }
  }

  lemma NotJustSexSolutionChecks()
    ensures STATIC_PUZZLE.themeEntries[5].word == "NOTJUSTSEX"
    ensures SolutionChecks(STATIC_PUZZLE.grid, STATIC_PUZZLE.themeEntries[5])
  {
    var e, g := STATIC_PUZZLE.themeEntries[5], STATIC_PUZZLE.grid;
    forall i | 0 <= i < |e.solution| - 1 ensures IsAdjacent(e.solution[i], e.solution[i + 1]) { }
    forall i | 0 <= i < |e.solution| ensures OnBoard(e.solution[i]) && IsLetterCell(g, e.solution[i]) && Letter(g, e.solution[i]) == e.word[i] { }
  }

  /** Every theme entry of the built-in puzzle passes `SolutionChecks`. */
  lemma StaticSolutionsChecked()
    ensures |STATIC_PUZZLE.themeEntries| == 6
    ensures forall i :: 0 <= i < |STATIC_PUZZLE.themeEntries| ==> SolutionChecks(STATIC_PUZZLE.grid, STATIC_PUZZLE.themeEntries[i])
  {
    SmartSolutionChecks();
    CaringSolutionChecks();
    HonestSolutionChecks();
    ThoughtfulSolutionChecks();
    IndependentSolutionChecks();
    NotJustSexSolutionChecks();
  }

  /** The solutions of the entries laid end to end. */
  function SolutionCells(entries: seq<ThemeEntry>): seq<Cell> {
    if entries == [] then [] else entries[0].solution + SolutionCells(entries[1..])
  }

  /** The board's cells in row-major order. */
  function BoardCells(): seq<Cell> {
    seq(GRID_ROWS * GRID_COLUMNS, i requires 0 <= i < GRID_ROWS * GRID_COLUMNS => Cell(i / GRID_COLUMNS, i % GRID_COLUMNS))
  }

  lemma BoardCellsExact()
    ensures |BoardCells()| == GRID_ROWS * GRID_COLUMNS
    ensures Distinct(BoardCells())
    ensures forall c :: c in BoardCells() <==> OnBoard(c)
  {
    var b := BoardCells();
    forall c | OnBoard(c) ensures c in b {
      assert b[c.row * GRID_COLUMNS + c.col] == c;
    }
  }

  /** The solutions of the built-in puzzle, laid end to end, in the order the entries are listed. */
  lemma StaticSolutionCellsUnfold()
    ensures var e := STATIC_PUZZLE.themeEntries;
      SolutionCells(e) == e[0].solution + e[1].solution + e[2].solution + e[3].solution + e[4].solution + e[5].solution
  {
    var e := STATIC_PUZZLE.themeEntries;
    assert SolutionCells(e[5..]) == e[5].solution;
    assert SolutionCells(e[4..]) == e[4].solution + SolutionCells(e[5..]);
  }

  /** Every cell listed by the solutions is on the board, and every board cell is listed. */
  lemma StaticSolutionCellsOnBoard()
    ensures forall c :: c in SolutionCells(STATIC_PUZZLE.themeEntries) <==> OnBoard(c)
  {
    var e := STATIC_PUZZLE.themeEntries;
    var all := SolutionCells(e);
    StaticSolutionCellsUnfold();
    StaticSolutionsChecked();
    forall c | c in all ensures OnBoard(c) {
      var k :| 0 <= k < |all| && all[k] == c;
      if k < 27 {
        assert c in e[0].solution || c in e[1].solution || c in e[2].solution || c in e[3].solution;
      } else {
        assert c in e[4].solution || c in e[5].solution;
      }
    }
    forall c | OnBoard(c) ensures c in all { }
  }

  /**
   * The six solutions partition the board: laid end to end they list each
   * of the 48 cells exactly once, so no two solutions share a cell and
   * together they cover the grid.
   */
  lemma StaticSolutionsPartition()
    ensures |SolutionCells(STATIC_PUZZLE.themeEntries)| == GRID_ROWS * GRID_COLUMNS
    ensures Distinct(SolutionCells(STATIC_PUZZLE.themeEntries))
    ensures forall c :: c in SolutionCells(STATIC_PUZZLE.themeEntries) <==> OnBoard(c)
  {
    var all := SolutionCells(STATIC_PUZZLE.themeEntries);
    StaticSolutionCellsUnfold();
    StaticSolutionCellsOnBoard();
    BoardCellsExact();
    var board := BoardCells();
    assert (set c | c in all) == (set c | c in board);
    DistinctIffNoCollapse(board);
    DistinctIffNoCollapse(all);
  }

  lemma {:induction false} SolutionCellsContain(entries: seq<ThemeEntry>, j: nat, x: Cell)
    requires j < |entries| && x in entries[j].solution
    ensures x in SolutionCells(entries)
  {
    if j > 0 {
      SolutionCellsContain(entries[1..], j - 1, x);
    }
  }

  /**
   * When the solutions laid end to end repeat no cell, each solution
   * repeats no cell and no two solutions share a cell.
   */
  lemma {:induction false} DistinctSolutionsApart(entries: seq<ThemeEntry>)
    requires Distinct(SolutionCells(entries))
    ensures forall i :: 0 <= i < |entries| ==> Distinct(entries[i].solution)
    ensures forall i, j, x :: 0 <= i < j < |entries| && x in entries[i].solution ==> x !in entries[j].solution
  {
    if entries != [] {
      var rest := entries[1..];
      DistinctSplit(entries[0].solution, SolutionCells(rest));
      DistinctSolutionsApart(rest);
      forall i, j, x | 0 <= i < j < |entries| && x in entries[i].solution ensures x !in entries[j].solution {
        if i == 0 {
          if x in entries[j].solution {
            SolutionCellsContain(rest, j - 1, x);
          }
        } else {
          assert entries[i] == rest[i - 1] && entries[j] == rest[j - 1];
        }
      }
      forall i | 0 <= i < |entries| ensures Distinct(entries[i].solution) {
        if i > 0 {
          assert entries[i] == rest[i - 1];
        }
      }
    }
  }

  /** Each hand-written solution spells its entry's word. */
  lemma StaticSolutionsSpell()
    ensures forall i :: 0 <= i < |STATIC_PUZZLE.themeEntries| ==>
      ToWordFromPath(STATIC_PUZZLE.themeEntries[i].solution, STATIC_PUZZLE.grid) == STATIC_PUZZLE.themeEntries[i].word
  {
    var e, g := STATIC_PUZZLE.themeEntries, STATIC_PUZZLE.grid;
    StaticSolutionsChecked();
    forall i | 0 <= i < |e| ensures ToWordFromPath(e[i].solution, g) == e[i].word {
      SpellsPointwise(e[i].solution, g, e[i].word);
    }
  }

  /**
   * Each hand-written solution is a legal selection on the board, and no
   * two solutions share a cell.
   */
  lemma StaticSolutionsLegal()
    ensures forall i :: 0 <= i < |STATIC_PUZZLE.themeEntries| ==> IsPath(STATIC_PUZZLE.themeEntries[i].solution)
    ensures forall i, k :: 0 <= i < |STATIC_PUZZLE.themeEntries| && 0 <= k < |STATIC_PUZZLE.themeEntries[i].solution| ==>
      OnBoard(STATIC_PUZZLE.themeEntries[i].solution[k])
    ensures forall i, j, x :: 0 <= i < j < |STATIC_PUZZLE.themeEntries| && x in STATIC_PUZZLE.themeEntries[i].solution ==>
      x !in STATIC_PUZZLE.themeEntries[j].solution
  {
    StaticSolutionsChecked();
    StaticSolutionsPartition();
    DistinctSolutionsApart(STATIC_PUZZLE.themeEntries);
  }
}
