/** The page controller of app.js: the difficulty selector, the score, the stored
    solution, and the `generateSudoku` and `checkSolution` handlers that tie the generator,
    the masker and the checker together. */
module Game {
  import opened Grids
  import opened Randomness
  import opened Generator
  import opened Masker
  import opened Checker

  /** The difficulty labels in selector order, as `getDifficulty` reads them off the level
      display. */
  const Levels: seq<string> := ["easy", "medium", "hard"]

  /** `nextItem`'s index step: one level on, from the last back to the first. */
  function NextLevel(l: int): (r: int)
    requires 0 <= l < |Levels|
    ensures 0 <= r < |Levels|
    ensures l + 1 < |Levels| ==> r == l + 1
    ensures l + 1 == |Levels| ==> r == 0
  {
    (l + 1) % |Levels|
  }

  /** `prevItem`'s index step, which undoes `nextItem`'s. */
  function PrevLevel(l: int): (r: int)
    requires 0 <= l < |Levels|
    ensures 0 <= r < |Levels| && NextLevel(r) == l
  {
    (l - 1 + |Levels|) % |Levels|
  }

  /** Stepping on then back, or back then on, returns to the same level, and three steps
      on go round the selector. */
  lemma LevelCycle(l: int)
    requires 0 <= l < |Levels|
    ensures PrevLevel(NextLevel(l)) == l && NextLevel(PrevLevel(l)) == l
    ensures NextLevel(NextLevel(NextLevel(l))) == l
  {
  }

  /** The levels clear 35, 45 and 55 cells. */
  lemma LevelCounts(l: int)
    requires 0 <= l < |Levels|
    ensures RemovalCount(Levels[l]) == 35 + 10 * l
  {
  }

  /** The page as `generateSudoku` renders a puzzle: 81 cells in row-major order, the
      non-empty ones read-only; an empty cell's text is "" and reads as 0. */
  function Render(puzzle: Grid): (inputs: seq<Input>)
    requires IsGrid(puzzle)
    ensures RowMajor(inputs) && OnBoard(inputs)
    ensures forall k :: 0 <= k < 81 ==>
      (inputs[k].readOnly <==> puzzle[k / 9][k % 9] != 0) &&
      inputs[k].value == Num(puzzle[k / 9][k % 9])
  {
    seq(81, k requires 0 <= k < 81 =>
      Input(k / 9, k % 9, puzzle[k / 9][k % 9] != 0, Num(puzzle[k / 9][k % 9])))
  }

  /** The page before the first puzzle, as `renderEmptyGrid` draws it: 81 empty read-only
      cells in row-major order. */
  function EmptyPage(): (inputs: seq<Input>)
    ensures RowMajor(inputs) && forall k :: 0 <= k < 81 ==> inputs[k].readOnly
  {
    seq(81, k => Input(k / 9, k % 9, true, Num(0)))
  }

  /** A freshly rendered puzzle with an empty cell fails the check against a complete
      Sudoku: the first editable cell reads 0, which is no digit. */
  lemma UntouchedPuzzleIsWrong(puzzle: Grid, solution: Grid)
    requires IsGrid(puzzle) && IsSudoku(solution) && Zeros(puzzle) > 0
    ensures Checkable(Render(puzzle), solution)
    ensures exists k :: 0 <= k < 81 && Wrong(Render(puzzle), solution, k)
  {
    var inputs := Render(puzzle);
    ZerosBound(puzzle);
    var r, c :| InRange(r, c) && puzzle[r][c] == 0;
    var k := 9 * r + c;
    assert k / 9 == r && k % 9 == c;
    assert Wrong(inputs, solution, k);
  }

  /** On the page before the first puzzle every cell is read-only, so nothing is wrong and a
      check counts as a win although there is no solution to compare with. */
  lemma EmptyPageIsRight(solution: Grid)
    ensures Checkable(EmptyPage(), solution)
    ensures forall k :: 0 <= k < 81 ==> !Wrong(EmptyPage(), solution, k)
  {
  }

  /** A page whose editable cells the player has filled with the solution's digits passes
      the check, and so does a page whose read-only cells disagree with it. */
  lemma SolvedPageIsRight(inputs: seq<Input>, solution: Grid)
    requires IsGrid(solution) && OnBoard(inputs)
    requires forall k :: 0 <= k < |inputs| && !inputs[k].readOnly ==>
      inputs[k].value == Num(solution[inputs[k].row][inputs[k].col])
    ensures Checkable(inputs, solution)
    ensures forall k :: 0 <= k < |inputs| ==> !Wrong(inputs, solution, k)
  {
  }

  /** The player's score. */
  datatype Score = Score(wins: nat, loss: nat)

  /** A result that may be missing. */
  datatype Option<T> = None | Some(value: T)

  /** The state of the page: the selected level (`currentLevel`), the score and the
      solution of the current puzzle (`correctSolution`). */
  class Game {
    var level: int
    var wins: nat
    var loss: nat
    var solution: Grid

    /** The selected level is one of the labels. */
    ghost predicate Valid()
      reads this
    {
      0 <= level < |Levels|
    }

    /** Page load: the first level, no solution yet, and the stored score, or 0 wins and
        0 losses when none is stored. */
    constructor (stored: Option<Score>)
      ensures Valid() && level == 0 && solution == []
      ensures stored.Some? ==> wins == stored.value.wins && loss == stored.value.loss
      ensures stored.None? ==> wins == 0 && loss == 0
    {
      level := 0;
      solution := [];
      match stored
      case Some(score) =>
        wins, loss := score.wins, score.loss;
      case None =>
        wins, loss := 0, 0;
    }

    /** The difficulty label of the selected level. */
    function Difficulty(): (d: string)
      requires Valid()
      reads this
      ensures d in Levels && RemovalCount(d) == 35 + 10 * level
    {
      Levels[level]
    }

    /** `nextItem`: selects the next level; nothing else changes. */
    method NextItem()
      requires Valid()
      modifies this
      ensures Valid() && level == NextLevel(old(level))
      ensures wins == old(wins) && loss == old(loss) && solution == old(solution)
    {
      level := (level + 1) % |Levels|;
    }

    /** `prevItem`: selects the previous level; nothing else changes. */
    method PrevItem()
      requires Valid()
      modifies this
      ensures Valid() && level == PrevLevel(old(level))
      ensures wins == old(wins) && loss == old(loss) && solution == old(solution)
    {
      level := (level - 1 + |Levels|) % |Levels|;
    }

    /** `resetScore`: the score goes back to 0 wins and 0 losses. */
    method ResetScore()
      requires Valid()
      modifies this
      ensures Valid() && wins == 0 && loss == 0
      ensures level == old(level) && solution == old(solution)
    {
      wins, loss := 0, 0;
    }

    /** `generateSudoku`: generates a full board, keeps a copy as the solution and masks the
        board at the selected difficulty. The solution is a complete valid Sudoku, the
        puzzle keeps some of its digits and clears exactly the level's count of cells, so
        the solution solves the puzzle. */
    method GenerateSudoku(rng: Random) returns (puzzle: array2<int>)
      requires Valid()
      modifies this, rng
      ensures Valid() && level == old(level) && wins == old(wins) && loss == old(loss)
      ensures fresh(puzzle) && puzzle.Length0 == 9 && puzzle.Length1 == 9
      ensures IsSudoku(solution) && Masks(Cells(puzzle), solution)
      ensures Zeros(Cells(puzzle)) == RemovalCount(Difficulty()) == 35 + 10 * level
      ensures IsSolution(solution, Cells(puzzle))
    {
      var board := GenerateFullSudoku(rng);
      solution := Cells(board);
      ZerosBound(solution);
      puzzle := MaskBoard(board, Levels[level], rng);
      FullBoardMasked(solution, Cells(puzzle), Levels[level]);
      LevelCounts(level);
      MaskedSolved(Cells(puzzle), solution);
    }

    /** `checkSolution`: scans the cells in page order, skipping read-only ones. At the
        first wrong cell it adds a loss and stops, answering that cell's index; when no cell
        is wrong it adds a win and answers None. */
    method CheckSolution(inputs: seq<Input>) returns (mismatch: Option<nat>)
      requires Valid() && Checkable(inputs, solution)
      modifies this
      ensures Valid() && level == old(level) && solution == old(solution)
      ensures mismatch.None? <==> forall k :: 0 <= k < |inputs| ==> !Wrong(inputs, solution, k)
      ensures mismatch.Some? ==>
        mismatch.value < |inputs| && Wrong(inputs, solution, mismatch.value) &&
        forall k :: 0 <= k < mismatch.value ==> !Wrong(inputs, solution, k)
      ensures mismatch.None? ==> wins == old(wins) + 1 && loss == old(loss)
      ensures mismatch.Some? ==> wins == old(wins) && loss == old(loss) + 1
    {
      for k := 0 to |inputs|
        invariant forall j :: 0 <= j < k ==> !Wrong(inputs, solution, j)
      {
        var input := inputs[k];
        if input.readOnly {
          continue;
        }
        var row, col := input.row, input.col;
        if input.value.NaN? || input.value.n != solution[row][col] {
          assert Wrong(inputs, solution, k);
          loss := loss + 1;
          return Some(k);
        }
      }
      wins := wins + 1;
      return None;
    }
  }

  /** A complete valid Sudoku solves every masking of it. */
  lemma MaskedSolved(puzzle: Grid, solution: Grid)
    requires IsGrid(puzzle) && IsSudoku(solution) && Masks(puzzle, solution)
    ensures IsSolution(solution, puzzle)
  {
  }
}
