# Love Strands: selection rules, word-path solver and game controller

Love Strands is a single-puzzle word-search game. The player drags across an
8 × 6 grid of letters. Each step goes to one of the eight neighbouring cells,
and no cell may be used twice. The letters under the trail are read as a word.
A theme word is recorded as found. A different word that the dictionary
accepts earns a point. Every three points buy a hint. The hint goes to the
first theme word, in list order, that has not been found yet and for which
the solver found a path, and it lights up that solver path.

This project models the engine of that game in Dafny:

- `selection_rules.dfy` (module `SelectionRules`): the cell type, king-move
  adjacency, the rule for extending a trail by one cell (`IsValidNextStep`),
  and the strict letter reader `GetWordFromPath`. It also defines what a legal
  path is (`IsPath`: no repeated cell, each cell adjacent to the one before).
- `puzzle.dfy` (module `Puzzle`): the lenient reader `ToWordFromPath`, the
  grid constants and the built-in puzzle `STATIC_PUZZLE`, with the same grid
  and the same six theme entries as `app/lib/puzzle.ts`. The lemmas check
  those entries: each hand-written solution spells its word and is a legal
  path on the board, and together the six solutions cover all 48 cells
  exactly once.
- `solve_word_path.dfy` (module `PathSolver`): the depth-first solver. The
  class `PathSearch` holds the shared mutable `visited` set. Its recursive
  method `Search` has the neighbour loops of `solveWordPath.ts`, and
  `SolveWordPath` has its loops over start cells. Both are proved against
  `Spells`, a predicate that says what it means for a path to spell a word.
  The result is sound. It is None only for the empty word or when no legal
  path inside the scanned rectangle (`grid.length` rows by the first row's
  width) spells the word; on a grid with a longer later row, cells beyond the
  first row's width are never visited. `visited` is
  restored on every return. The result is the first solution in the
  row-major order in which cells are tried, so it is determined by the grid
  and the word.
- `strands_game.dfy` (module `StrandsGame`): the controller as a class
  `Game`. It has the fields `isSelecting`, `selectedPath`, `foundWords`,
  `foundWordPaths`, `points`, `hintedWord` and `toast`. Each handler is one
  atomic method. The dictionary's verdict is a `bool` parameter. The effect of
  resolving a selection is the pure function `Resolved`, so that
  `ResolveSelection` and `FinishSelection` share one description. Four
  lemmas give its outcome case by case. The object invariant `Valid` says
  five things: a selection is in progress exactly when the trail is
  non-empty; the trail is a legal path; found words are distinct theme
  words, each spelled by its recorded trail; a hinted word is a theme word
  with a path in the table; the path table is the solver's.
- `ascii_text.dfy` and `nullable.dfy`: upper-casing of ASCII text, and an
  `Option` type standing for TypeScript's `null` results.

Modelling decisions where the source is not self-consistent:

- `isAdjacent` is declared over points with fields `r` and `c`. The solver
  and the controller call it with cells whose fields are `row` and `col`.
  Taken literally, the differences would be `NaN` and no two cells would ever
  be adjacent. The model uses one cell type, `Cell(row, col)`, with the
  arithmetic of `app/lib/selectionRules.ts:7-10`.
- The controller imports `isSameCell`, `cellKey` and `keyFromCell`, which are
  not defined in `app/lib/selectionRules.ts`. `isSameCell` is modelled as
  equality of cells. A key (`row-col` in `app/lib/solveWordPath.ts:19`) is
  modelled as the cell itself, so every set of keys is a `set<Cell>`.
- The controller reads `themeWords` from the puzzle, but the `Puzzle` type
  has only `theme`, `grid` and `themeEntries`. The theme words are taken to
  be the `word` fields of `themeEntries`, upper-cased
  (`NormalizedThemeWords`).
- Grid cells are strings, as in the source. A cell holding anything but one
  letter never matches a letter in the solver. Such a cell contributes its
  whole text to the lenient reader.

Where the usual Strands rules and the code disagree, the model follows the code:

- A selection counts as a theme word when it reads as that word. It does not
  have to follow the hand-written solution cell for cell.
- The minimum word length is fixed at three.
- A non-theme dictionary word scores every time it is resolved
  (`ResolvedDictionaryWordRepeats`).
- Dragging back onto the previous cell does not shorten the trail.
- There is no spangram.
- Finding the hinted word does not clear `hintedWord`. Only the lit cells
  disappear (`HintedKeys`).

## Model

| member | source | states |
|---|---|---|
| AsciiText.UpperChar | app/lib/solveWordPath.ts:9 | a lower-case ASCII letter becomes its capital (code point minus 32); every other character is kept; the result is never lower case |
| AsciiText.ToUpper | app/components/StrandsGame.tsx:55 | upper-casing (used by `StrandsGame.NormalizedThemeWords` for the theme words) keeps the length, maps each character by `UpperChar`, and leaves no lower-case letter |
| AsciiText.ToUpperIdempotent | app/components/StrandsGame.tsx:209 | upper-casing an already upper-cased word changes nothing, so normalised theme words compare equal to upper-cased selections |
| SelectionRules.IsAdjacent | app/lib/selectionRules.ts:6-11 | two cells are adjacent iff they differ and neither coordinate differs by more than one (Chebyshev distance exactly 1) |
| SelectionRules.AdjacentSymmetric | app/lib/selectionRules.ts:6-11 | adjacency is symmetric |
| SelectionRules.AdjacentIrreflexive | app/lib/selectionRules.ts:9-10 | no cell is adjacent to itself |
| SelectionRules.AtMostEightNeighbours | app/lib/selectionRules.ts:7-10 | the cells adjacent to a cell are exactly the eight distinct cells of its ring |
| SelectionRules.IsValidNextStep | app/lib/selectionRules.ts:13-33 | any cell may start an empty path; on a non-empty path a cell is accepted exactly when it touches the last cell and is not on the path |
| SelectionRules.ValidNextStepKeepsPath | app/lib/selectionRules.ts:13-33 | on a legal path, a valid next step keeps the path legal; on a non-empty legal path, any extension that stays legal is a valid next step |
| SelectionRules.GetWordFromPath | app/lib/selectionRules.ts:35-37 | over one-letter cells the word has one letter per cell, letter i being the text of cell i |
| Puzzle.ToWordFromPath | app/lib/puzzle.ts:112-114 | the lenient reader never fails, and over cells of at most one letter the word is no longer than the path |
| Puzzle.ToWordFromPathAppend | app/lib/puzzle.ts:113 | extending the path by a cell appends that cell's text (the empty text when the cell is outside the grid) |
| Puzzle.ToWordFromPathLetters | app/lib/puzzle.ts:113 | over one-letter cells the word has the path's length and letter i is the letter of cell i |
| Puzzle.GetWordAgreesWithToWord | app/lib/puzzle.ts:112-114 | whenever the strict reader is defined (rows in range) it reads the same word as the lenient reader |
| Puzzle.SpellsPointwise | app/lib/puzzle.ts:113 | a path whose cells hold the word's letters in order reads as the word |
| Puzzle.StaticGridShape | app/lib/puzzle.ts:15-29 | the built-in grid has `GRID_ROWS` (8) rows of `GRID_COLUMNS` (6) one-letter cells |
| Puzzle.StaticGridUpper | app/lib/puzzle.ts:20-29 | every letter of the built-in grid is upper case |
| Puzzle.SmartSolutionChecks | app/lib/puzzle.ts:31-40 | the SMART solution stays on the board, holds S-M-A-R-T in order and steps between adjacent cells |
| Puzzle.CaringSolutionChecks | app/lib/puzzle.ts:41-51 | the same for CARING |
| Puzzle.HonestSolutionChecks | app/lib/puzzle.ts:52-62 | the same for HONEST |
| Puzzle.ThoughtfulSolutionChecks | app/lib/puzzle.ts:63-77 | the same for THOUGHTFUL |
| Puzzle.IndependentSolutionChecks | app/lib/puzzle.ts:78-93 | the same for INDEPENDENT |
| Puzzle.NotJustSexSolutionChecks | app/lib/puzzle.ts:94-108 | the same for NOTJUSTSEX |
| Puzzle.StaticSolutionsChecked | app/lib/puzzle.ts:30-109 | the puzzle has six theme entries and each passes those checks |
| Puzzle.BoardCellsExact | app/lib/puzzle.ts:15-16 | the row-major list of board cells has 48 distinct cells and holds exactly the cells on the board |
| Puzzle.StaticSolutionCellsOnBoard | app/lib/puzzle.ts:30-109 | a cell occurs in some solution iff it is on the board |
| Puzzle.StaticSolutionsPartition | app/lib/puzzle.ts:30-109 | the six solutions laid end to end have 48 cells, none repeated, covering the whole board |
| Puzzle.DistinctSolutionsApart | app/lib/puzzle.ts:30-109 | when the solutions laid end to end repeat no cell, each solution repeats none and no two share a cell |
| Puzzle.StaticSolutionsSpell | app/lib/puzzle.ts:30-114 | each hand-written solution reads as its entry's word |
| Puzzle.StaticSolutionsLegal | app/lib/puzzle.ts:30-109 | each hand-written solution is a legal path on the board, and no two solutions share a cell |
| PathSolver.SpellsIffReadsBack | app/lib/solveWordPath.ts:14-27 | the solver's notion of spelling a word agrees with the reader: a legal path of one-letter cells in the scanned rectangle spells the target iff it reads back as the target |
| PathSolver.FirstSpellingUnique | app/lib/solveWordPath.ts:31-55 | at most one path is the first spelling in row-major order, so the solver's result is a function of grid and word |
| PathSolver.MissingLetterNoPath | app/lib/solveWordPath.ts:15-17 | a letter of the word that no cell holds leaves the word with no path |
| PathSolver.PathSearch.constructor | app/lib/solveWordPath.ts:9-12 | the search starts with rows and columns read off the grid (width from the first row) and an empty `visited` set |
| PathSolver.PathSearch.Search | app/lib/solveWordPath.ts:14-47 | `visited` is restored on every return; a found path extends the given prefix through the given cell and finishes the word with free, in-range cells holding the right letters, forming a legal path; it is the first such completion in row-major order; None means no completion starts at that cell |
| PathSolver.SolveWordPath | app/lib/solveWordPath.ts:4-59 | the empty word gives None; a result spells the upper-cased word along a legal path inside the scanned rectangle (`grid.length` rows by the first row's width); None for a non-empty word means no such path exists; a result is the first such path in row-major order |
| PathSolver.CheckedEntrySpells | app/lib/solveWordPath.ts:4-59 | a checked theme entry of a board-sized upper-case grid is a path the solver accepts for its word |
| PathSolver.StaticThemeWordsSolvable | app/lib/puzzle.ts:30-109 | every theme word of the built-in puzzle has a solver-accepted path (its own solution), so the solver never returns None for it |
| StrandsGame.Resolved | app/components/StrandsGame.tsx:204-230 | resolving a selection, whose word is `SelectionWord` (the lenient reading, upper-cased), adds at most one point and only on a dictionary yes; it either keeps the toast or raises the error message; a newly found word is the upper-cased selection, a theme word not found before, appended to the list |
| StrandsGame.ResolvedEmptySelection | app/components/StrandsGame.tsx:205-207 | an empty selection leaves the found words, paths, points and toast unchanged |
| StrandsGame.ResolvedShortWord | app/components/StrandsGame.tsx:209-213 | a non-empty selection reading as fewer than three letters raises the error toast and changes nothing else |
| StrandsGame.ResolvedThemeWord | app/components/StrandsGame.tsx:215-221 | a theme word of three or more letters not found before is appended to the found words, with its selection appended to the found paths; a theme word found before changes nothing; points and toast are untouched whatever the dictionary says |
| StrandsGame.ResolvedOtherWord | app/components/StrandsGame.tsx:223-229 | any other word of three or more letters adds exactly one point on a dictionary yes and raises the error toast on a no, changing nothing else |
| StrandsGame.ResolvedKeepsProgress | app/components/StrandsGame.tsx:215-221 | resolving keeps found words distinct, in step with their paths, theme words of at least three letters, each spelled by its non-empty recorded selection |
| StrandsGame.ResolvedThemeWordOnce | app/components/StrandsGame.tsx:215-221 | resolving a theme-word selection a second time changes nothing, whatever the dictionary says |
| StrandsGame.ResolvedDictionaryWordRepeats | app/components/StrandsGame.tsx:223-227 | a non-theme word of three or more letters that the dictionary accepts scores a point each time it is resolved and is never recorded as found |
| StrandsGame.FoundWordsBounded | app/components/StrandsGame.tsx:215-221 | no more words can be found than there are different theme words |
| StrandsGame.NextHintWord | app/components/StrandsGame.tsx:252 | the hint goes to the first theme word, in list order, that is not found and has a path; None exactly when there is no such word |
| StrandsGame.HintAvailableUntilAllFound | app/components/StrandsGame.tsx:252-255 | when every theme word has a path, a hint is available exactly until every theme word is found |
| StrandsGame.BuildThemeWordPaths | app/components/StrandsGame.tsx:57-63 | the table holds exactly the non-empty theme words that some path spells, each with the first such path in row-major order |
| StrandsGame.Game.constructor | app/components/StrandsGame.tsx:54-76 | a new game has upper-cased theme words and the solver's path table; nothing is selected or found; there are no points, hint or toast; the invariant holds |
| StrandsGame.Game.BeginSelection | app/components/StrandsGame.tsx:170-174 | pressing a cell dismisses the toast and starts a one-cell selection, leaving the score state alone |
| StrandsGame.Game.ExtendSelection | app/components/StrandsGame.tsx:176-202 | outside a selection nothing changes; during one the cell is appended exactly when `IsValidNextStep` accepts it, so the trail stays a legal path |
| StrandsGame.Game.ClearSelection | app/components/StrandsGame.tsx:232-235 | the trail is emptied and selection ends; nothing else changes |
| StrandsGame.Game.ResolveSelection | app/components/StrandsGame.tsx:204-230 | the found words, paths, points and toast become `Resolved` of their old values; the selection and hint are untouched; the invariant is kept |
| StrandsGame.Game.FinishSelection | app/components/StrandsGame.tsx:237-245 | outside a selection nothing changes; otherwise the selection is cleared and the trail it held is resolved; recorded trails stay legal paths |
| StrandsGame.Game.UseHint | app/components/StrandsGame.tsx:247-259 | with fewer than three points or no hintable word nothing changes; otherwise the hinted word becomes `NextHintWord` and the points drop by exactly three |
| StrandsGame.Game.HintChargeLevel | app/components/StrandsGame.tsx:261-263 | the meter shows the points capped at three and is full exactly when a hint can be used (`CanUseHint`, points at least three) |
| StrandsGame.Game.SelectedKeys | app/components/StrandsGame.tsx:133-136 | the selected keys are the trail's cells, as many as the trail has cells when no cell repeats |
| StrandsGame.Game.FoundKeys | app/components/StrandsGame.tsx:138-146 | the found keys are exactly the cells of the recorded selections |
| StrandsGame.Game.HintedKeys | app/components/StrandsGame.tsx:148-164 | no cells are lit without a hinted word, once it is found, or when it has no path; otherwise exactly its path's cells are lit, one per letter |
| StrandsGame.NewStaticGame | app/components/StrandsGame.tsx:54-63 | on the built-in puzzle every theme word has an entry in the path table |

## Left out

- The dictionary request (`validateEnglishWord`) and the `/api/validate-word` route are network I/O, and the route answers at random. The answer is a `bool` parameter of `ResolveSelection` and `FinishSelection`. A failed request or a non-OK response counts as `false`.
- The resize effect that measures cell centres is browser geometry over floating point and is not modelled. So are the trail overlay, the letter-grid rendering, `registerCellRef`, the layout and the page.
- The toast's 1.3-second timer is a clock and is not modelled. `toast` is set and cleared only by the handlers.
- `hintChargePercent` is a floating-point percentage and is left out. The capped level it is computed from is `HintChargeLevel`.
- React state batching, stale closures and the `await` inside `finishSelection` are not modelled. Each handler is one atomic step, and the dictionary's answer arrives within it.
- One release can call `finishSelection` twice: the cell button's pointer-up handler (`app/components/LetterGrid.tsx:61`) and the grid stage's (`app/components/StrandsGame.tsx:284-286`). With stale closures both calls can see a selection in progress and resolve it twice. The model applies the calls one after the other, so the second is a no-op.
- `app/lib/puzzles.ts` is unused data and is not part of this model.
- The theme label and theme title are display text with no logic, and are not modelled.
- `selectedWord` is `ToWordFromPath` applied to the selection, so it has no member of its own.
- AsciiText.ToUpper: only 'a'..'z' are upper-cased. Unicode case mapping (for example 'ß' to "SS", which changes the length) is not modelled.
- SelectionRules.GetWordFromPath: a row outside the grid throws in the source. The model requires rows to be in range rather than modelling the exception.
- StrandsGame.Resolved: the three-letter minimum counts characters, while JavaScript counts UTF-16 code units. The two differ only outside the Basic Multilingual Plane.
- Cell coordinates are unbounded integers. Non-integer or non-finite JavaScript numbers are not modelled.
