/** The board generator of app.js: `isSafe`, `shuffle`, the backtracking `solve` and
    `generateFullSudoku`. */
module Generator {
  import opened Grids
  import opened Randomness

  /** `isSafe`: scans the row and the column of (row, col), then its 3×3 block, and answers
      whether num may go there, i.e. whether num appears in none of them. */
  method IsSafe(board: array2<int>, row: int, col: int, num: int) returns (safe: bool)
    requires board.Length0 == 9 && board.Length1 == 9 && InRange(row, col)
    ensures safe <==> Safe(Cells(board), row, col, num)
  {
    for i := 0 to 9
      invariant forall k :: 0 <= k < i ==> board[row, k] != num && board[k, col] != num
    {
      if board[row, i] == num || board[i, col] == num {
        assert Cells(board)[row][i] == num || Cells(board)[i][col] == num;
        return false;
      }
    }
    var startRow := row / 3 * 3;
    var startCol := col / 3 * 3;
    for i := 0 to 3
      invariant forall r, c :: startRow <= r < startRow + i && startCol <= c < startCol + 3 ==> board[r, c] != num
    {
      var r := startRow + i;
      for j := 0 to 3
        invariant forall r, c :: startRow <= r < startRow + i && startCol <= c < startCol + 3 ==> board[r, c] != num
        invariant forall c :: startCol <= c < startCol + j ==> board[r, c] != num
      {
        if board[r, startCol + j] == num {
          assert Cells(board)[r][startCol + j] == num;
          return false;
        }
      }
    }
    return true;
  }

  /** The Fisher–Yates pass of `shuffle` from index i down to 1 as a value: step i swaps
      s[i] with s[j], j the draw at pos reduced into [0, i]. */
  function FisherYates(s: seq<int>, i: int, stream: seq<nat>, pos: nat): (r: seq<int>)
    requires i < |s|
    ensures |r| == |s|
    ensures forall k :: i < k < |s| && 0 <= k ==> r[k] == s[k]
    decreases i
  {
    if i <= 0 then s
    else
      var j := Draw(stream, pos, i + 1);
      FisherYates(s[i := s[j]][j := s[i]], i - 1, stream, pos + 1)
  }

  /** Every Fisher–Yates pass is a permutation of its input, whatever the draws. */
  lemma {:induction false} FisherYatesPermutes(s: seq<int>, i: int, stream: seq<nat>, pos: nat)
    requires i < |s|
    ensures |FisherYates(s, i, stream, pos)| == |s|
    ensures multiset(FisherYates(s, i, stream, pos)) == multiset(s)
    decreases i
  {
    if i > 0 {
      var j := Draw(stream, pos, i + 1);
      var t := s[i := s[j]][j := s[i]];
      SwapPermutes(s, i, j);
      FisherYatesPermutes(t, i - 1, stream, pos + 1);
    }
  }

  /** Swapping two entries keeps the multiset of a sequence. */
  lemma SwapPermutes(s: seq<int>, i: int, j: int)
    requires 0 <= i < |s| && 0 <= j < |s|
    ensures multiset(s[i := s[j]][j := s[i]]) == multiset(s)
  {
  }

  /** `shuffle`: Fisher–Yates in place, from the last index down to 1, each step swapping
      with an index drawn from [0, i]. The result is the pass `FisherYates` over the draws
      the generator yields next, one draw per step; by `FisherYatesPermutes` it is a
      permutation of the input. */
  method Shuffle(arr: array<int>, rng: Random)
    modifies arr, rng
    ensures rng.stream == old(rng.stream)
    ensures arr[..] == FisherYates(old(arr[..]), arr.Length - 1, rng.stream, old(rng.pos))
    ensures rng.pos == old(rng.pos) + (if arr.Length > 0 then arr.Length - 1 else 0)
  {
    var i := arr.Length - 1;
    ghost var pos0 := rng.pos;
    ghost var a0 := arr[..];
    ghost var pass := FisherYates(a0, i, rng.stream, pos0);
    while i > 0
      invariant i < arr.Length && rng.stream == old(rng.stream)
      invariant (if arr.Length > 0 then 0 else -1) <= i
      invariant rng.pos + i == pos0 + arr.Length - 1
      invariant FisherYates(arr[..], i, rng.stream, rng.pos) == pass
    {
      var j := rng.Below(i + 1);
      Swap(arr, i, j);
      i := i - 1;
    }
  }

  /** `[arr[i], arr[j]] = [arr[j], arr[i]]`. */
  method Swap(arr: array<int>, i: int, j: int)
    requires 0 <= i < arr.Length && 0 <= j < arr.Length
    modifies arr
    ensures arr[..] == old(arr[..])[i := old(arr[j])][j := old(arr[i])]
  {
    arr[i], arr[j] := arr[j], arr[i];
  }

  /** The digits 1..9 in increasing order: the array `[1, 2, 3, 4, 5, 6, 7, 8, 9]`. */
  function AllDigits(): (s: seq<int>)
    ensures |s| == 9 && forall k :: 0 <= k < 9 ==> s[k] == k + 1
  {
    seq(9, i => i + 1)
  }

  /** A shuffle of the digits 1..9 holds only digits and holds each of them. */
  lemma ShuffledDigits(nums: seq<int>)
    requires multiset(nums) == multiset(AllDigits())
    ensures forall k :: 0 <= k < |nums| ==> 1 <= nums[k] <= 9
    ensures forall d :: 1 <= d <= 9 ==> d in nums
  {
    var all := AllDigits();
    forall k | 0 <= k < |nums|
      ensures 1 <= nums[k] <= 9
    {
      assert nums[k] in multiset(all);
    }
    forall d | 1 <= d <= 9
      ensures d in nums
    {
      assert all[d - 1] == d;
      assert d in multiset(all);
    }
  }

  /** Putting a safe digit into an empty cell of a consistent board keeps it consistent. */
  lemma SafePlacement(g: Grid, row: int, col: int, num: int)
    requires Consistent(g) && InRange(row, col)
    requires 1 <= num <= 9 && Safe(g, row, col, num)
    ensures Consistent(Place(g, row, col, num))
  {
    var h := Place(g, row, col, num);
    forall r1, c1, r2, c2 |
      InRange(r1, c1) && InRange(r2, c2) && Peers(r1, c1, r2, c2) && h[r1][c1] != 0
      ensures h[r1][c1] != h[r2][c2]
    {
      if r2 == row && c2 == col {
        assert InUnit(row, col, r1, c1);
      }
    }
  }

  /** A solution of a board with one more cell filled in is a solution of the board. */
  lemma SolutionOfPlaced(h: Grid, g: Grid, row: int, col: int, num: int)
    requires IsGrid(g) && InRange(row, col) && g[row][col] == 0
    requires IsSolution(h, Place(g, row, col, num))
    ensures IsSolution(h, g)
  {
  }

  /** The digit any solution puts into an empty cell is a safe one, and the solution also
      solves the board with that digit placed. */
  lemma CandidateValue(h: Grid, g: Grid, row: int, col: int)
    requires IsGrid(g) && InRange(row, col) && g[row][col] == 0
    ensures IsSolution(h, g) ==>
      1 <= h[row][col] <= 9 && Safe(g, row, col, h[row][col]) &&
      IsSolution(h, Place(g, row, col, h[row][col]))
  {
    if IsSolution(h, g) {
      var d := h[row][col];
      forall r, c | InRange(r, c) && InUnit(row, col, r, c)
        ensures g[r][c] != d
      {
        if g[r][c] == d {
          assert Peers(row, col, r, c);
        }
      }
    }
  }

  /** The digit d cannot complete (row, col): it is unsafe there, or placing it leaves a
      board without solution. */
  ghost predicate Rejected(g: Grid, row: int, col: int, d: int)
    requires IsGrid(g) && InRange(row, col)
  {
    !Safe(g, row, col, d) || Unsolvable(Place(g, row, col, d))
  }

  /** The candidates tried so far, and the current one, all fail. */
  lemma RejectedPrefix(g: Grid, row: int, col: int, nums: seq<int>, i: int)
    requires IsGrid(g) && InRange(row, col) && 0 <= i < |nums|
    requires forall k :: 0 <= k < i ==> Rejected(g, row, col, nums[k])
    requires Rejected(g, row, col, nums[i])
    ensures forall k :: 0 <= k < i + 1 ==> Rejected(g, row, col, nums[k])
  {
  }

  /** If no candidate digit leads to a solution, the board has none. */
  lemma NoCandidateWorks(g: Grid, row: int, col: int, nums: seq<int>)
    requires IsGrid(g) && InRange(row, col) && g[row][col] == 0
    requires forall d :: 1 <= d <= 9 ==> d in nums
    requires forall k :: 0 <= k < |nums| ==> Rejected(g, row, col, nums[k])
    ensures Unsolvable(g)
  {
    forall d | 1 <= d <= 9
      ensures Rejected(g, row, col, d)
    {
      assert d in nums;
      var k :| 0 <= k < |nums| && nums[k] == d;
    }
    forall h
      ensures !IsSolution(h, g)
    {
      CandidateValue(h, g, row, col);
      if IsGrid(h) && 1 <= h[row][col] <= 9 {
        assert Rejected(g, row, col, h[row][col]);
      }
    }
  }

  /** `solve`: finds the first empty cell in row-major order and fills it by `TryDigits`;
      a board without an empty cell is solved. It writes only cells that were empty, leaves
      the board as it was when it fails, fails only when the board has no solution at all,
      and on success leaves a full board that, if the board started consistent, is a
      solution of it. */
  method Solve(board: array2<int>, rng: Random) returns (ok: bool)
    requires board.Length0 == 9 && board.Length1 == 9
    modifies board, rng
    ensures ok ==> Full(Cells(board))
    ensures ok && old(Consistent(Cells(board))) ==> IsSolution(Cells(board), old(Cells(board)))
    ensures Extends(Cells(board), old(Cells(board)))
    ensures !ok ==> Cells(board) == old(Cells(board))
    ensures !ok ==> Unsolvable(old(Cells(board)))
    decreases Zeros(Cells(board)), 2
  {
    for row := 0 to 9
      invariant forall r, c :: 0 <= r < row && 0 <= c < 9 ==> board[r, c] != 0
    {
      for col := 0 to 9
        invariant forall r, c :: 0 <= r < row && 0 <= c < 9 ==> board[r, c] != 0
        invariant forall c :: 0 <= c < col ==> board[row, c] != 0
      {
        if board[row, col] == 0 {
          ok := TryDigits(board, rng, row, col);
          return;
        }
      }
    }
    ok := true;
    if Consistent(Cells(board)) {
      assert IsSolution(Cells(board), Cells(board));
    }
  }

  /** The body of `solve` at its first empty cell (row, col): shuffles the digits 1..9 and
      tries them in that order by `TryDigit`, stopping at the first that leads to a solution.
      When none does it reports failure. */
  method TryDigits(board: array2<int>, rng: Random, row: int, col: int) returns (ok: bool)
    requires board.Length0 == 9 && board.Length1 == 9
    requires InRange(row, col) && board[row, col] == 0
    modifies board, rng
    ensures ok ==> Full(Cells(board))
    ensures ok && old(Consistent(Cells(board))) ==> IsSolution(Cells(board), old(Cells(board)))
    ensures Extends(Cells(board), old(Cells(board)))
    ensures !ok ==> Cells(board) == old(Cells(board))
    ensures !ok ==> Unsolvable(old(Cells(board)))
    decreases Zeros(Cells(board)), 1
  {
    ghost var g := Cells(board);
    var nums := new int[9](i => i + 1);
    assert nums[..] == AllDigits();
    ghost var pos := rng.pos;
    Shuffle(nums, rng);
    var candidates := nums[..];
    FisherYatesPermutes(AllDigits(), 8, rng.stream, pos);
    ShuffledDigits(candidates);
    for i := 0 to 9
      invariant Cells(board) == g
      invariant forall k :: 0 <= k < i ==> Rejected(g, row, col, candidates[k])
    {
      ok := TryDigit(board, rng, row, col, candidates[i]);
      if ok {
        return;
      }
      RejectedPrefix(g, row, col, candidates, i);
    }
    NoCandidateWorks(g, row, col, candidates);
    return false;
  }

  /** One candidate of `solve`'s loop: if num is safe at the empty cell (row, col) it is
      placed and the rest of the board solved recursively; when that fails the cell is reset
      to 0. On failure the board is as before and num cannot complete the cell. */
  method TryDigit(board: array2<int>, rng: Random, row: int, col: int, num: int) returns (ok: bool)
    requires board.Length0 == 9 && board.Length1 == 9
    requires InRange(row, col) && board[row, col] == 0 && 1 <= num <= 9
    modifies board, rng
    ensures ok ==> Full(Cells(board))
    ensures ok && old(Consistent(Cells(board))) ==> IsSolution(Cells(board), old(Cells(board)))
    ensures Extends(Cells(board), old(Cells(board)))
    ensures !ok ==> Cells(board) == old(Cells(board))
    ensures !ok ==> Rejected(old(Cells(board)), row, col, num)
    decreases Zeros(Cells(board)), 0
  {
    ghost var g := Cells(board);
    var safe := IsSafe(board, row, col, num);
    if !safe {
      return false;
    }
    Write(board, row, col, num);
    ZerosPlace(g, row, col, num);
    ok := Solve(board, rng);
    if ok {
      if Consistent(g) {
        SafePlacement(g, row, col, num);
        SolutionOfPlaced(Cells(board), g, row, col, num);
      }
      return;
    }
    Write(board, row, col, 0);
    PlaceUndo(g, row, col, num);
  }

  /** The digit the witness board holds at (r, c): rows shifted by 3, then by 1 per band. */
  function Pattern(r: int, c: int): int {
    (3 * (r % 3) + r / 3 + c) % 9 + 1
  }

  /** A complete valid Sudoku, showing that the empty board can be solved. */
  function Witness(): (w: Grid)
    ensures IsSudoku(w)
  {
    var w := seq(9, r => seq(9, c => Pattern(r, c)));
    assert IsGrid(w);
    forall r1, c1, r2, c2 | InRange(r1, c1) && InRange(r2, c2) && Peers(r1, c1, r2, c2)
      ensures w[r1][c1] != w[r2][c2]
    {
      PatternDistinct(r1, c1, r2, c2);
    }
    w
  }

  /** Two naturals less than 9 apart and different leave different remainders by 9. */
  lemma ModDistinct(a: int, b: int)
    requires 0 <= a && 0 <= b && a != b && -9 < a - b < 9
    ensures a % 9 != b % 9
  {
    assert a == 9 * (a / 9) + a % 9 && b == 9 * (b / 9) + b % 9;
  }

  /** Peers of the witness board hold different digits. */
  lemma PatternDistinct(r1: int, c1: int, r2: int, c2: int)
    requires InRange(r1, c1) && InRange(r2, c2) && Peers(r1, c1, r2, c2)
    ensures Pattern(r1, c1) != Pattern(r2, c2)
  {
    var x1, x2 := 3 * (r1 % 3) + r1 / 3, 3 * (r2 % 3) + r2 / 3;
    assert r1 == 3 * (r1 / 3) + r1 % 3 && r2 == 3 * (r2 / 3) + r2 % 3;
    assert c1 == 3 * (c1 / 3) + c1 % 3 && c2 == 3 * (c2 / 3) + c2 % 3;
    ModDistinct(x1 + c1, x2 + c2);
  }

  /** The empty board has a solution. */
  lemma EmptySolvable(b: Grid)
    requires IsGrid(b) && forall r, c :: InRange(r, c) ==> b[r][c] == 0
    ensures !Unsolvable(b)
  {
    assert IsSolution(Witness(), b);
  }

  /** `generateFullSudoku`: solves an empty board. The search cannot fail, since the empty
      board has a solution, so the result is a complete valid Sudoku. */
  method GenerateFullSudoku(rng: Random) returns (board: array2<int>)
    modifies rng
    ensures fresh(board) && board.Length0 == 9 && board.Length1 == 9
    ensures IsSudoku(Cells(board))
  {
    board := new int[9, 9]((r, c) => 0);
    EmptySolvable(Cells(board));
    var ok := Solve(board, rng);
  }
}
