/**
 * The game screen's state machine: dragging a trail of letters, resolving
 * it into a found theme word, a dictionary point or an error toast, and
 * spending points on hints. Rendering, pointer events and timers are not
 * part of this module; the dictionary's answer arrives as a parameter.
 */
module StrandsGame {
  import opened Nullable
  import opened AsciiText
  import opened SelectionRules
  import opened Puzzle
  import opened PathSolver

  /** Points one hint costs. */
  const HINT_COST: nat := 3
  /** The text of the error toast. */
  const INVALID_WORD_MESSAGE: string := "That word is not valid."
  /** Shorter selections are refused without asking the dictionary. */
  const MIN_WORD_LENGTH: nat := 3

  /** A found theme word with the selection that found it. */
  datatype FoundWordPath = FoundWordPath(word: string, path: seq<Cell>)

  /** The part of the game state that resolving a selection can change. */
  datatype Progress = Progress(foundWords: seq<string>, foundWordPaths: seq<FoundWordPath>, points: nat, toast: Option<string>)

  /** The theme words as the game compares them: each entry's word, upper-cased. */
  function NormalizedThemeWords(entries: seq<ThemeEntry>): seq<string> {
    seq(|entries|, i requires 0 <= i < |entries| => ToUpper(entries[i].word))
  }

  /** The word a selection reads as, upper-cased. */
  function SelectionWord(grid: Grid, path: seq<Cell>): string {
    ToUpper(ToWordFromPath(path, grid))
  }

  /**
   * Resolving a finished selection: an empty selection changes nothing; a
   * word shorter than three letters raises the error toast; a theme word is
   * recorded, with the selection that spelled it, unless it was found
   * before; any other word scores a point when the dictionary accepts it
   * and raises the error toast otherwise.
   */
  function Resolved(themeWords: seq<string>, grid: Grid, p: Progress, path: seq<Cell>, dictionaryValid: bool): (r: Progress)
    ensures r.points == p.points || (r.points == p.points + 1 && dictionaryValid)
    ensures r.toast == p.toast || r.toast == Some(INVALID_WORD_MESSAGE)
    ensures r.foundWords == p.foundWords || r.foundWords == p.foundWords + [SelectionWord(grid, path)]
    ensures r.foundWords != p.foundWords ==> SelectionWord(grid, path) in themeWords && SelectionWord(grid, path) !in p.foundWords
  {
    if path == [] then p
    else
      var word := SelectionWord(grid, path);
      if |word| < MIN_WORD_LENGTH then p.(toast := Some(INVALID_WORD_MESSAGE))
      else if word in themeWords then
        if word in p.foundWords then p
        else p.(foundWords := p.foundWords + [word], foundWordPaths := p.foundWordPaths + [FoundWordPath(word, path)])
      else if dictionaryValid then p.(points := p.points + 1)
      else p.(toast := Some(INVALID_WORD_MESSAGE))
  }

  /**
   * What the found-word bookkeeping promises: the two lists run in step;
   * no word is found twice; each found word is a theme word of at least
   * three letters, spelled by the non-empty selection recorded with it.
   */
  predicate ProgressOK(themeWords: seq<string>, grid: Grid, p: Progress) {
    && |p.foundWords| == |p.foundWordPaths|
    && Distinct(p.foundWords)
    && forall i :: 0 <= i < |p.foundWords| ==>
         && p.foundWordPaths[i].word == p.foundWords[i]
         && p.foundWords[i] in themeWords
         && |p.foundWords[i]| >= MIN_WORD_LENGTH
         && p.foundWordPaths[i].path != []
         && SelectionWord(grid, p.foundWordPaths[i].path) == p.foundWords[i]
  }

  /** An empty selection changes nothing. */
  lemma ResolvedEmptySelection(themeWords: seq<string>, grid: Grid, p: Progress, dictionaryValid: bool)
    ensures Resolved(themeWords, grid, p, [], dictionaryValid) == p
  {
  }

  /** A selection reading as fewer than three letters only raises the error toast. */
  lemma ResolvedShortWord(themeWords: seq<string>, grid: Grid, p: Progress, path: seq<Cell>, dictionaryValid: bool)
    requires path != [] && |SelectionWord(grid, path)| < MIN_WORD_LENGTH
    ensures Resolved(themeWords, grid, p, path, dictionaryValid) == p.(toast := Some(INVALID_WORD_MESSAGE))
  {
  }

  /**
   * A theme word of three or more letters is recorded, together with the
   * selection that spelled it, when it was not found before; otherwise
   * nothing changes. The dictionary is not consulted.
   */
  lemma ResolvedThemeWord(themeWords: seq<string>, grid: Grid, p: Progress, path: seq<Cell>, dictionaryValid: bool)
    requires path != [] && |SelectionWord(grid, path)| >= MIN_WORD_LENGTH && SelectionWord(grid, path) in themeWords
    ensures var w := SelectionWord(grid, path);
      Resolved(themeWords, grid, p, path, dictionaryValid) ==
        if w in p.foundWords then p
        else p.(foundWords := p.foundWords + [w], foundWordPaths := p.foundWordPaths + [FoundWordPath(w, path)])
  {
  }

  /**
   * Any other word of three or more letters scores one point when the
   * dictionary accepts it and raises the error toast when it does not.
   */
  lemma ResolvedOtherWord(themeWords: seq<string>, grid: Grid, p: Progress, path: seq<Cell>, dictionaryValid: bool)
    requires path != [] && |SelectionWord(grid, path)| >= MIN_WORD_LENGTH && SelectionWord(grid, path) !in themeWords
    ensures Resolved(themeWords, grid, p, path, dictionaryValid) ==
      if dictionaryValid then p.(points := p.points + 1) else p.(toast := Some(INVALID_WORD_MESSAGE))
  {
  }

  /** Resolving a selection keeps the found-word bookkeeping sound. */
  lemma ResolvedKeepsProgress(themeWords: seq<string>, grid: Grid, p: Progress, path: seq<Cell>, dictionaryValid: bool)
    requires ProgressOK(themeWords, grid, p)
    ensures ProgressOK(themeWords, grid, Resolved(themeWords, grid, p, path, dictionaryValid))
  {
    var r := Resolved(themeWords, grid, p, path, dictionaryValid);
    if r.foundWords != p.foundWords {
      var word := SelectionWord(grid, path);
      forall i, j | 0 <= i < j < |r.foundWords| ensures r.foundWords[i] != r.foundWords[j] {
        if j == |p.foundWords| {
          assert r.foundWords[i] in p.foundWords;
        } else {
          assert r.foundWords[i] == p.foundWords[i] && r.foundWords[j] == p.foundWords[j];
        }
      }
    }
  }

  /** A selection that reads as a theme word can be resolved again without effect: a theme word counts once. */
  lemma ResolvedThemeWordOnce(themeWords: seq<string>, grid: Grid, p: Progress, path: seq<Cell>, first: bool, second: bool)
    requires SelectionWord(grid, path) in themeWords
    ensures var once := Resolved(themeWords, grid, p, path, first);
      Resolved(themeWords, grid, once, path, second) == once
  {
  }

  /** A dictionary word that is not a theme word scores again every time it is resolved. */
  lemma ResolvedDictionaryWordRepeats(themeWords: seq<string>, grid: Grid, p: Progress, path: seq<Cell>)
    requires path != [] && |SelectionWord(grid, path)| >= MIN_WORD_LENGTH && SelectionWord(grid, path) !in themeWords
    ensures var once := Resolved(themeWords, grid, p, path, true);
      && once.points == p.points + 1
      && Resolved(themeWords, grid, once, path, true).points == p.points + 2
      && once.foundWords == p.foundWords
  {
  }

  /** No more words can be found than there are different theme words. */
  lemma FoundWordsBounded(themeWords: seq<string>, grid: Grid, p: Progress)
    requires ProgressOK(themeWords, grid, p)
    ensures |p.foundWords| <= |set w | w in themeWords|
  {
    DistinctIffNoCollapse(p.foundWords);
    var found, theme := set w | w in p.foundWords, set w | w in themeWords;
    assert found <= theme;
    assert |found| <= |theme| by {
      SubsetCardinality(found, theme);
    }
  }

  lemma SubsetCardinality<T>(a: set<T>, b: set<T>)
    requires a <= b
    ensures |a| <= |b|
  {
    assert b == a + (b - a);
  }

  /** A theme word the hint may point at: not found yet, and the solver found a path for it. */
  predicate Hintable(word: string, foundWords: seq<string>, paths: map<string, seq<Cell>>) {
    word !in foundWords && word in paths
  }

  /** The first hintable theme word, in theme-word order. */
  function NextHintWord(words: seq<string>, foundWords: seq<string>, paths: map<string, seq<Cell>>): (r: Option<string>)
    ensures r.Some? ==> r.value in words && Hintable(r.value, foundWords, paths)
    ensures r.None? <==> forall i :: 0 <= i < |words| ==> !Hintable(words[i], foundWords, paths)
    ensures r.Some? ==> exists i :: 0 <= i < |words| && words[i] == r.value && forall j :: 0 <= j < i ==> !Hintable(words[j], foundWords, paths)
  {
    if words == [] then None
    else if Hintable(words[0], foundWords, paths) then Some(words[0])
    else
      var rest := NextHintWord(words[1..], foundWords, paths);
      assert forall i :: 0 < i < |words| ==> words[i] == words[1..][i - 1];
      rest
  }

  /** When every theme word has a path, a hint is available exactly until every theme word is found. */
  lemma HintAvailableUntilAllFound(words: seq<string>, foundWords: seq<string>, paths: map<string, seq<Cell>>)
    requires forall w :: w in words ==> w in paths
    ensures NextHintWord(words, foundWords, paths).None? <==> forall w :: w in words ==> w in foundWords
  {
    if NextHintWord(words, foundWords, paths).None? {
      forall w | w in words ensures w in foundWords {
        var i :| 0 <= i < |words| && words[i] == w;
        assert !Hintable(words[i], foundWords, paths);
      }
    }
  }

  /**
   * The theme-word path table: it holds exactly the non-empty theme words
   * that some path spells, each with the first such path in row-major
   * order.
   */
  ghost predicate PathTable(grid: Grid, words: seq<string>, paths: map<string, seq<Cell>>) {
    && (forall w :: w in paths <==> w in words && w != "" && exists p :: Spells(grid, ToUpper(w), p))
    && (forall w :: w in paths ==> Spells(grid, ToUpper(w), paths[w]))
    && (forall w, p :: w in paths && Spells(grid, ToUpper(w), p) ==> LexNoLater(paths[w], p))
  }

  /** Builds the theme-word path table by running the solver on each theme word in turn. */
  method BuildThemeWordPaths(grid: Grid, words: seq<string>) returns (paths: map<string, seq<Cell>>)
    ensures PathTable(grid, words, paths)
  {
    paths := map[];
    var i := 0;
    while i < |words|
      invariant 0 <= i <= |words|
      invariant forall w :: w in paths <==> w in words[..i] && w != "" && exists p :: Spells(grid, ToUpper(w), p)
      invariant forall w :: w in paths ==> Spells(grid, ToUpper(w), paths[w])
      invariant forall w, p :: w in paths && Spells(grid, ToUpper(w), p) ==> LexNoLater(paths[w], p)
    {
      var path := SolveWordPath(grid, words[i]);
      if path.Some? {
        paths := paths[words[i] := path.value];
      }
      assert words[..i + 1] == words[..i] + [words[i]];
      i := i + 1;
    }
    assert words[..i] == words;
  }

  /** The game screen's state. */
  class Game {
    const grid: Grid
    const themeWords: seq<string>
    const themeWordPaths: map<string, seq<Cell>>
    var isSelecting: bool
    var selectedPath: seq<Cell>
    var foundWords: seq<string>
    var foundWordPaths: seq<FoundWordPath>
    var points: nat
    var hintedWord: Option<string>
    var toast: Option<string>

    function Snapshot(): Progress
      reads this
    {
      Progress(foundWords, foundWordPaths, points, toast)
    }

    /**
     * The state invariant: a selection is in progress exactly when the
     * selected trail is non-empty, and the trail is a legal path; the
     * found-word bookkeeping is sound; a hinted word is a theme word with a
     * path; the path table is the solver's.
     */
    ghost predicate Valid()
      reads this
    {
      && PathTable(grid, themeWords, themeWordPaths)
      && (isSelecting <==> selectedPath != [])
      && IsPath(selectedPath)
      && ProgressOK(themeWords, grid, Snapshot())
      && (hintedWord.Some? ==> hintedWord.value in themeWords && hintedWord.value in themeWordPaths)
    }

    /** Every recorded selection is a legal path. */
    ghost predicate FoundPathsLegal()
      reads this
    {
      forall i :: 0 <= i < |foundWordPaths| ==> IsPath(foundWordPaths[i].path)
    }

    /** A fresh game on `puzzle`: nothing selected, nothing found, no points, no hint, no toast. */
    constructor (puzzle: Puzzle)
      ensures grid == puzzle.grid && themeWords == NormalizedThemeWords(puzzle.themeEntries)
      ensures !isSelecting && selectedPath == [] && foundWords == [] && foundWordPaths == []
      ensures points == 0 && hintedWord == None && toast == None
      ensures Valid() && FoundPathsLegal()
    {
      var words := NormalizedThemeWords(puzzle.themeEntries);
      var paths := BuildThemeWordPaths(puzzle.grid, words);
      grid := puzzle.grid;
      themeWords := words;
      themeWordPaths := paths;
      isSelecting := false;
      selectedPath := [];
      foundWords := [];
      foundWordPaths := [];
      points := 0;
      hintedWord := None;
      toast := None;
    }

    /** Pressing a cell starts a new selection there and dismisses the toast. */
    method BeginSelection(row: int, col: int)
      requires Valid()
      modifies this
      ensures Valid()
      ensures isSelecting && selectedPath == [Cell(row, col)] && toast == None
      ensures foundWords == old(foundWords) && foundWordPaths == old(foundWordPaths)
      ensures points == old(points) && hintedWord == old(hintedWord)
    {
      toast := None;
      isSelecting := true;
      selectedPath := [Cell(row, col)];
    }

    /**
     * Dragging over a cell while selecting appends it when it is a valid
     * next step (it touches the last cell and is not on the trail yet);
     * otherwise, and when no selection is in progress, nothing changes.
     */
    method ExtendSelection(row: int, col: int)
      modifies this
      ensures old(Valid()) ==> Valid()
      ensures !old(isSelecting) ==> selectedPath == old(selectedPath)
      ensures old(isSelecting) ==>
        selectedPath == if IsValidNextStep(old(selectedPath), Cell(row, col)) then old(selectedPath) + [Cell(row, col)] else old(selectedPath)
      ensures isSelecting == old(isSelecting) && Snapshot() == old(Snapshot()) && hintedWord == old(hintedWord)
    {
      if !isSelecting {
        return;
      }
      if |selectedPath| == 0 {
        selectedPath := [Cell(row, col)];
        return;
      }
      var nextCell := Cell(row, col);
      var lastCell := selectedPath[|selectedPath| - 1];
      if lastCell == nextCell {
        return;
      }
      if nextCell in selectedPath {
        return;
      }
      if !IsAdjacent(lastCell, nextCell) {
        return;
      }
      ghost var before := selectedPath;
      selectedPath := selectedPath + [nextCell];
      if old(Valid()) {
        ValidNextStepKeepsPath(before, nextCell);
      }
    }

    /** Ends the selection, dropping the trail. */
    method ClearSelection()
      requires Valid()
      modifies this
      ensures Valid()
      ensures !isSelecting && selectedPath == []
      ensures Snapshot() == old(Snapshot()) && hintedWord == old(hintedWord)
    {
      selectedPath := [];
      isSelecting := false;
    }

    /** Resolves a finished selection against the theme words and, failing that, the dictionary's answer. */
    method ResolveSelection(path: seq<Cell>, dictionaryValid: bool)
      requires Valid()
      modifies this
      ensures Valid()
      ensures Snapshot() == Resolved(themeWords, grid, old(Snapshot()), path, dictionaryValid)
      ensures isSelecting == old(isSelecting) && selectedPath == old(selectedPath) && hintedWord == old(hintedWord)
      ensures old(FoundPathsLegal()) && IsPath(path) ==> FoundPathsLegal()
    {
      ResolvedKeepsProgress(themeWords, grid, Snapshot(), path, dictionaryValid);
      if |path| == 0 {
        return;
      }
      var word := ToUpper(ToWordFromPath(path, grid));
      if |word| < MIN_WORD_LENGTH {
        toast := Some(INVALID_WORD_MESSAGE);
        return;
      }
      if word in themeWords {
        if word !in foundWords {
          foundWords := foundWords + [word];
          foundWordPaths := foundWordPaths + [FoundWordPath(word, path)];
        }
        return;
      }
      if dictionaryValid {
        points := points + 1;
        return;
      }
      toast := Some(INVALID_WORD_MESSAGE);
    }

    /**
     * Releasing the pointer: when a selection is in progress it is cleared
     * and the trail it held is resolved; otherwise nothing happens.
     */
    method FinishSelection(dictionaryValid: bool)
      requires Valid()
      modifies this
      ensures Valid()
      ensures !old(isSelecting) ==> isSelecting == old(isSelecting) && selectedPath == old(selectedPath) && Snapshot() == old(Snapshot())
      ensures old(isSelecting) ==>
        !isSelecting && selectedPath == [] && Snapshot() == Resolved(themeWords, grid, old(Snapshot()), old(selectedPath), dictionaryValid)
      ensures hintedWord == old(hintedWord)
      ensures old(FoundPathsLegal()) ==> FoundPathsLegal()
    {
      if !isSelecting {
        return;
      }
      var snapshot := selectedPath;
      ClearSelection();
      ResolveSelection(snapshot, dictionaryValid);
    }

    /**
     * Spending points on a hint: with at least `HINT_COST` points and a
     * hintable theme word, the first such word becomes the hinted word and
     * the points drop by `HINT_COST`; otherwise nothing changes.
     */
    method UseHint()
      requires Valid()
      modifies this
      ensures Valid()
      ensures var next := NextHintWord(themeWords, old(foundWords), themeWordPaths);
        if old(points) < HINT_COST || next.None? then hintedWord == old(hintedWord) && points == old(points)
        else hintedWord == next && points == old(points) - HINT_COST
      ensures foundWords == old(foundWords) && foundWordPaths == old(foundWordPaths) && toast == old(toast)
      ensures isSelecting == old(isSelecting) && selectedPath == old(selectedPath)
    {
      if points < HINT_COST {
        return;
      }
      var nextHintWord := NextHintWord(themeWords, foundWords, themeWordPaths);
      if nextHintWord.None? {
        return;
      }
      hintedWord := nextHintWord;
      points := Max(0, points - HINT_COST);
    }

    predicate CanUseHint()
      reads this
    {
      points >= HINT_COST
    }

    /** How full the hint meter is: the points, capped at `HINT_COST`; it is full exactly when a hint can be bought. */
    function HintChargeLevel(): (level: nat)
      reads this
      ensures level <= HINT_COST
      ensures level == HINT_COST <==> CanUseHint()
      ensures level < HINT_COST ==> level == points
    {
      Min(points, HINT_COST)
    }

    /** The cells of the selection, as a set; as many as the trail has cells, since a legal trail repeats none. */
    function SelectedKeys(): (keys: set<Cell>)
      reads this
      ensures forall c :: c in keys <==> c in selectedPath
      ensures Distinct(selectedPath) ==> |keys| == |selectedPath|
    {
      DistinctIffNoCollapse(selectedPath);
      set c | c in selectedPath
    }

    /** Every cell of every recorded selection. */
    method FoundKeys() returns (keys: set<Cell>)
      ensures forall c :: c in keys <==> exists i :: 0 <= i < |foundWordPaths| && c in foundWordPaths[i].path
    {
      keys := {};
      var i := 0;
      while i < |foundWordPaths|
        invariant 0 <= i <= |foundWordPaths|
        invariant forall c :: c in keys <==> exists j :: 0 <= j < i && c in foundWordPaths[j].path
      {
        var path := foundWordPaths[i].path;
        var k := 0;
        while k < |path|
          invariant 0 <= k <= |path|
          invariant forall c :: c in keys <==> (exists j :: 0 <= j < i && c in foundWordPaths[j].path) || c in path[..k]
        {
          assert path[..k + 1] == path[..k] + [path[k]];
          keys := keys + {path[k]};
          k := k + 1;
        }
        assert path[..k] == path;
        i := i + 1;
      }
    }

    /**
     * The cells the hint lights up: none while there is no hinted word, once
     * it is found, or when it has no path; otherwise the cells of its path,
     * one per letter of the word.
     */
    method HintedKeys() returns (keys: set<Cell>)
      ensures hintedWord.None? || hintedWord.value in foundWords || hintedWord.value !in themeWordPaths ==> keys == {}
      ensures hintedWord.Some? && hintedWord.value !in foundWords && hintedWord.value in themeWordPaths ==>
        forall c :: c in keys <==> c in themeWordPaths[hintedWord.value]
      ensures Valid() && keys != {} ==> |keys| == |hintedWord.value|
    {
      keys := {};
      if hintedWord.None? || hintedWord.value in foundWords {
        return;
      }
      if hintedWord.value !in themeWordPaths {
        return;
      }
      var path := themeWordPaths[hintedWord.value];
      var k := 0;
      while k < |path|
        invariant 0 <= k <= |path|
        invariant keys == set c | c in path[..k]
      {
        assert path[..k + 1] == path[..k] + [path[k]];
        keys := keys + {path[k]};
        k := k + 1;
      }
      assert path[..k] == path;
      DistinctIffNoCollapse(path);
    }
  }

  /**
   * The game on the built-in puzzle: every theme word has a path in the
   * table, so hints stay available until every theme word is found.
   */
  method NewStaticGame() returns (game: Game)
    ensures fresh(game) && game.Valid() && game.grid == STATIC_PUZZLE.grid
    ensures forall w :: w in game.themeWords ==> w in game.themeWordPaths
  {
    game := new Game(STATIC_PUZZLE);
    StaticThemeWordsSolvable();
    var e := STATIC_PUZZLE.themeEntries;
    forall w | w in game.themeWords ensures w in game.themeWordPaths {
      var i :| 0 <= i < |e| && w == ToUpper(e[i].word);
      ToUpperIdempotent(e[i].word);
      assert Spells(game.grid, ToUpper(w), e[i].solution);
    }
  }
}
