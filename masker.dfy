/** The puzzle masker of app.js: `maskBoard` and its difficulty table. */
module Masker {
  import opened Grids
  import opened Randomness

  /** How many cells a difficulty clears: 35 for "easy", 45 for "medium" and 55 for any
      other label. Every count leaves cells of a full board to clear. */
  function RemovalCount(difficulty: string): (n: nat)
    ensures 0 < n < 81
  {
    if difficulty == "easy" then 35 else if difficulty == "medium" then 45 else 55
  }

  /** `maskBoard`: copies the board row by row, then draws random cells and clears each
      drawn cell that is not yet empty, until as many cells as the difficulty asks for have
      been cleared. The input is not modified; every cell of the result is empty or holds
      the input's digit; the result has exactly `RemovalCount(difficulty)` more empty cells.
      The source loops forever on a board with too few filled cells, hence the requirement. */
  method MaskBoard(board: array2<int>, difficulty: string, rng: Random) returns (clone: array2<int>)
    requires board.Length0 == 9 && board.Length1 == 9
    requires Zeros(Cells(board)) + RemovalCount(difficulty) <= 81
    modifies rng
    ensures fresh(clone) && clone.Length0 == 9 && clone.Length1 == 9
    ensures Cells(board) == old(Cells(board))
    ensures Masks(Cells(clone), Cells(board))
    ensures Zeros(Cells(clone)) == Zeros(Cells(board)) + RemovalCount(difficulty)
  {
    clone := new int[9, 9]((r, c) requires InRange(r, c) reads board => board[r, c]);
    ghost var s := Cells(board);
    GridEq(Cells(clone), s);
    var cellsToRemove := RemovalCount(difficulty);
    while cellsToRemove > 0
      invariant Masks(Cells(clone), s)
      invariant Zeros(Cells(clone)) + cellsToRemove == Zeros(s) + RemovalCount(difficulty)
      decreases cellsToRemove, rng.Remaining()
    {
      var row, col;
      if rng.Remaining() > 0 {
        row := rng.Below(9);
        col := rng.Below(9);
      } else {
        row, col := FilledCell(clone);
      }
      if clone[row, col] != 0 {
        ghost var before := Cells(clone);
        Write(clone, row, col, 0);
        ZerosPlace(before, row, col, 0);
        MasksClear(before, s, row, col);
        cellsToRemove := cellsToRemove - 1;
      }
    }
  }

  /** Some non-empty cell of a board that is not all empty. It stands in for the draws
      once the random stream is used up, so that the masking loop still ends. */
  method FilledCell(a: array2<int>) returns (row: int, col: int)
    requires a.Length0 == 9 && a.Length1 == 9 && Zeros(Cells(a)) < 81
    ensures InRange(row, col) && a[row, col] != 0
  {
    ZerosBound(Cells(a));
    row, col :| InRange(row, col) && a[row, col] != 0;
  }

  /** Clearing a cell of a masking keeps it a masking. */
  lemma MasksClear(m: Grid, s: Grid, row: int, col: int)
    requires IsGrid(m) && IsGrid(s) && InRange(row, col) && Masks(m, s)
    ensures Masks(Place(m, row, col, 0), s)
  {
  }

  /** A full board masked at a difficulty has exactly that difficulty's count of empty cells. */
  lemma FullBoardMasked(solution: Grid, masked: Grid, difficulty: string)
    requires IsGrid(solution) && IsGrid(masked) && Full(solution)
    requires Zeros(masked) == Zeros(solution) + RemovalCount(difficulty)
    ensures Zeros(masked) == RemovalCount(difficulty)
  {
    ZerosBound(solution);
  }
}
