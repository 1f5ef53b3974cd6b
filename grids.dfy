/** The 9×9 Sudoku board as a value, and the rules every board is judged by.
    The source keeps a board as nine arrays of nine numbers, 0 meaning an empty cell;
    methods work on an `array2<int>` and state their effect through the value `Cells(a)`. */
module Grids {

  /** Nine rows of nine cell values, 0 meaning empty. */
  type Grid = seq<seq<int>>

  predicate IsGrid(g: Grid) {
    |g| == 9 && forall r :: 0 <= r < 9 ==> |g[r]| == 9
  }

  predicate InRange(r: int, c: int) {
    0 <= r < 9 && 0 <= c < 9
  }

  /** (r, c) lies in the row, the column or the 3×3 block of (row, col), (row, col) itself
      included; the block is the one whose top-left corner is (row / 3 * 3, col / 3 * 3). */
  predicate InUnit(row: int, col: int, r: int, c: int) {
    r == row || c == col || (r / 3 == row / 3 && c / 3 == col / 3)
  }

  /** Two different cells that share a row, a column or a block. */
  predicate Peers(r1: int, c1: int, r2: int, c2: int) {
    (r1 != r2 || c1 != c2) && InUnit(r1, c1, r2, c2)
  }

  /** No non-zero digit is repeated in any row, column or block. */
  ghost predicate NoDuplicates(g: Grid)
    requires IsGrid(g)
  {
    forall r1, c1, r2, c2 ::
      InRange(r1, c1) && InRange(r2, c2) && Peers(r1, c1, r2, c2) && g[r1][c1] != 0
      ==> g[r1][c1] != g[r2][c2]
  }

  /** Every cell is empty or a digit 1..9. */
  ghost predicate Digits(g: Grid)
    requires IsGrid(g)
  {
    forall r, c :: InRange(r, c) ==> 0 <= g[r][c] <= 9
  }

  /** No cell is empty. */
  ghost predicate Full(g: Grid)
    requires IsGrid(g)
  {
    forall r, c :: InRange(r, c) ==> g[r][c] != 0
  }

  /** A partially filled board that breaks no rule. */
  ghost predicate Consistent(g: Grid) {
    IsGrid(g) && Digits(g) && NoDuplicates(g)
  }

  /** A complete, valid Sudoku: every cell a digit 1..9, no digit repeated in a row,
      column or block. */
  ghost predicate IsSudoku(g: Grid) {
    IsGrid(g) && (forall r, c :: InRange(r, c) ==> 1 <= g[r][c] <= 9) && NoDuplicates(g)
  }

  /** g keeps every non-empty cell of b. */
  ghost predicate Extends(g: Grid, b: Grid)
    requires IsGrid(g) && IsGrid(b)
  {
    forall r, c :: InRange(r, c) && b[r][c] != 0 ==> g[r][c] == b[r][c]
  }

  /** g is a complete valid Sudoku that fills in the board b. */
  ghost predicate IsSolution(g: Grid, b: Grid) {
    IsSudoku(g) && IsGrid(b) && Extends(g, b)
  }

  /** No complete valid Sudoku fills in b. */
  ghost predicate Unsolvable(b: Grid) {
    forall g :: !IsSolution(g, b)
  }

  /** The digit num appears nowhere in the row, the column or the block of (row, col). */
  ghost predicate Safe(g: Grid, row: int, col: int, num: int)
    requires IsGrid(g)
  {
    forall r, c :: InRange(r, c) && InUnit(row, col, r, c) ==> g[r][c] != num
  }

  /** g with the cell (row, col) set to v. */
  function Place(g: Grid, row: int, col: int, v: int): Grid
    requires IsGrid(g) && InRange(row, col)
  {
    g[row := g[row][col := v]]
  }

  /** The value of a 9×9 array. */
  function Cells(a: array2<int>): (g: Grid)
    reads a
    requires a.Length0 == 9 && a.Length1 == 9
    ensures IsGrid(g)
    ensures forall r, c :: InRange(r, c) ==> g[r][c] == a[r, c]
  {
    seq(9, r requires 0 <= r < 9 reads a =>
      seq(9, c requires 0 <= c < 9 reads a => a[r, c]))
  }

  function IsZero(v: int): nat {
    if v == 0 then 1 else 0
  }

  /** Number of empty cells in a row. */
  function RowZeros(s: seq<int>): nat {
    if s == [] then 0 else IsZero(s[0]) + RowZeros(s[1..])
  }

  /** Number of empty cells on a board. */
  function Zeros(g: Grid): nat {
    if g == [] then 0 else RowZeros(g[0]) + Zeros(g[1..])
  }

  /** m is a masking of s: every cell of m is empty or holds the digit of s. */
  ghost predicate Masks(m: Grid, s: Grid)
    requires IsGrid(m) && IsGrid(s)
  {
    forall r, c :: InRange(r, c) ==> m[r][c] == 0 || m[r][c] == s[r][c]
  }

  /** `a[row][col] = v` on a 9×9 board, stated on its value. */
  method Write(a: array2<int>, row: int, col: int, v: int)
    requires a.Length0 == 9 && a.Length1 == 9 && InRange(row, col)
    modifies a
    ensures Cells(a) == Place(old(Cells(a)), row, col, v)
  {
    a[row, col] := v;
    GridEq(Cells(a), Place(old(Cells(a)), row, col, v));
  }

  /** Emptying a cell that was just filled restores the board. */
  lemma PlaceUndo(g: Grid, row: int, col: int, v: int)
    requires IsGrid(g) && InRange(row, col) && g[row][col] == 0
    ensures Place(Place(g, row, col, v), row, col, 0) == g
  {
    assert g[row][col := v][col := 0] == g[row];
  }

  /** Two grids that agree cell by cell are equal. */
  lemma GridEq(g: Grid, h: Grid)
    requires IsGrid(g) && IsGrid(h)
    requires forall r, c :: InRange(r, c) ==> g[r][c] == h[r][c]
    ensures g == h
  {
    forall r | 0 <= r < 9
      ensures g[r] == h[r]
    {
      assert forall c :: 0 <= c < 9 ==> g[r][c] == h[r][c];
    }
  }

  /** Setting one cell of a row changes its count of empty cells by what the cell
      was and what it becomes. */
  lemma {:induction false} RowZerosUpdate(s: seq<int>, c: int, v: int)
    requires 0 <= c < |s|
    ensures RowZeros(s[c := v]) == RowZeros(s) - IsZero(s[c]) + IsZero(v)
  {
    if c == 0 {
      assert s[c := v][1..] == s[1..];
    } else {
      assert s[c := v][1..] == s[1..][c - 1 := v];
      RowZerosUpdate(s[1..], c - 1, v);
    }
  }

  /** Setting one cell of a board changes its count of empty cells by what the cell
      was and what it becomes. */
  lemma {:induction false} ZerosPlace(g: Grid, row: int, col: int, v: int)
    requires IsGrid(g) && InRange(row, col)
    ensures Zeros(Place(g, row, col, v)) == Zeros(g) - IsZero(g[row][col]) + IsZero(v)
  {
    ZerosUpdate(g, row, col, v);
  }

  lemma {:induction false} ZerosUpdate(g: Grid, row: int, col: int, v: int)
    requires 0 <= row < |g| && 0 <= col < |g[row]|
    ensures Zeros(g[row := g[row][col := v]]) == Zeros(g) - IsZero(g[row][col]) + IsZero(v)
  {
    var h := g[row := g[row][col := v]];
    if row == 0 {
      assert h[1..] == g[1..];
      RowZerosUpdate(g[0], col, v);
    } else {
      assert h[1..] == g[1..][row - 1 := g[1..][row - 1][col := v]];
      ZerosUpdate(g[1..], row - 1, col, v);
    }
  }

  /** A row counts at most its length in empty cells, and exactly its length only
      when every cell is empty. */
  lemma {:induction false} RowZerosBound(s: seq<int>)
    ensures RowZeros(s) <= |s|
    ensures RowZeros(s) == |s| <==> forall i :: 0 <= i < |s| ==> s[i] == 0
    ensures RowZeros(s) == 0 <==> forall i :: 0 <= i < |s| ==> s[i] != 0
  {
    if s != [] {
      RowZerosBound(s[1..]);
      assert forall i :: 1 <= i < |s| ==> s[i] == s[1..][i - 1];
    }
  }

  lemma {:induction false} ZerosBoundFrom(g: Grid, k: nat)
    requires k <= |g| && forall r :: 0 <= r < |g| ==> |g[r]| == 9
    ensures Zeros(g[k..]) <= 9 * (|g| - k)
    ensures Zeros(g[k..]) == 9 * (|g| - k) <==> forall r, c :: k <= r < |g| && 0 <= c < 9 ==> g[r][c] == 0
    ensures Zeros(g[k..]) == 0 <==> forall r, c :: k <= r < |g| && 0 <= c < 9 ==> g[r][c] != 0
    decreases |g| - k
  {
    if k < |g| {
      assert g[k..][1..] == g[k + 1..];
      RowZerosBound(g[k]);
      ZerosBoundFrom(g, k + 1);
    }
  }

  /** A board has at most 81 empty cells; 81 only when every cell is empty, none
      exactly when it is full. */
  lemma ZerosBound(g: Grid)
    requires IsGrid(g)
    ensures Zeros(g) <= 81
    ensures Zeros(g) == 81 <==> forall r, c :: InRange(r, c) ==> g[r][c] == 0
    ensures Zeros(g) == 0 <==> Full(g)
  {
    assert g[0..] == g;
    ZerosBoundFrom(g, 0);
  }

  /** Row k of a board, as nine values. */
  function RowOf(g: Grid, k: int): (s: seq<int>)
    requires IsGrid(g) && 0 <= k < 9
    ensures |s| == 9 && forall i :: 0 <= i < 9 ==> s[i] == g[k][i]
  {
    g[k]
  }

  /** Column k of a board, top to bottom. */
  function ColumnOf(g: Grid, k: int): (s: seq<int>)
    requires IsGrid(g) && 0 <= k < 9
    ensures |s| == 9 && forall i :: 0 <= i < 9 ==> s[i] == g[i][k]
  {
    seq(9, i requires 0 <= i < 9 => g[i][k])
  }

  /** Block k of a board (blocks numbered row-major, cells row-major within the block). */
  function BlockOf(g: Grid, k: int): (s: seq<int>)
    requires IsGrid(g) && 0 <= k < 9
    ensures |s| == 9
    ensures forall i :: 0 <= i < 9 ==> s[i] == g[k / 3 * 3 + i / 3][k % 3 * 3 + i % 3]
  {
    seq(9, i requires 0 <= i < 9 => g[k / 3 * 3 + i / 3][k % 3 * 3 + i % 3])
  }

  predicate Distinct(s: seq<int>) {
    forall i, j :: 0 <= i < j < |s| ==> s[i] != s[j]
  }

  /** More distinct values than a set has members cannot all lie in it. */
  lemma {:induction false} Pigeonhole(s: seq<int>, S: set<int>)
    requires Distinct(s)
    ensures |s| > |S| ==> exists i :: 0 <= i < |s| && s[i] !in S
  {
    if s != [] && s[0] in S && |s| > |S| {
      var t := s[1..];
      assert Distinct(t) by {
        forall i, j | 0 <= i < j < |t|
          ensures t[i] != t[j]
        {
          assert t[i] == s[i + 1] && t[j] == s[j + 1];
        }
      }
      Pigeonhole(t, S - {s[0]});
      var i :| 0 <= i < |t| && t[i] !in S - {s[0]};
      assert s[i + 1] == t[i] && s[i + 1] != s[0];
    }
  }

  /** Nine distinct values among the digits 1..9 take every digit. */
  lemma NineDistinctDigits(s: seq<int>, d: int)
    requires |s| == 9 && Distinct(s) && forall i :: 0 <= i < 9 ==> 1 <= s[i] <= 9
    requires 1 <= d <= 9
    ensures d in s
  {
    var others := {1, 2, 3, 4, 5, 6, 7, 8, 9} - {d};
    assert |others| == 8;
    Pigeonhole(s, others);
    var i :| 0 <= i < 9 && s[i] !in others;
  }

  /** The units of a board without repeats hold distinct non-zero values. */
  lemma UnitsDistinct(g: Grid, k: int)
    requires IsSudoku(g) && 0 <= k < 9
    ensures Distinct(RowOf(g, k)) && Distinct(ColumnOf(g, k))
  {
    forall i, j | 0 <= i < j < 9
      ensures g[k][i] != g[k][j] && g[i][k] != g[j][k]
    {
      assert Peers(k, i, k, j) && Peers(i, k, j, k);
    }
  }

  lemma BlockDistinct(g: Grid, k: int)
    requires IsSudoku(g) && 0 <= k < 9
    ensures Distinct(BlockOf(g, k))
  {
    var block := BlockOf(g, k);
    forall i, j | 0 <= i < j < 9
      ensures block[i] != block[j]
    {
      var r1, c1 := k / 3 * 3 + i / 3, k % 3 * 3 + i % 3;
      var r2, c2 := k / 3 * 3 + j / 3, k % 3 * 3 + j % 3;
      assert InRange(r1, c1) && InRange(r2, c2);
      assert r1 / 3 == k / 3 && r2 / 3 == k / 3 && c1 / 3 == k % 3 && c2 / 3 == k % 3;
      assert r1 != r2 || c1 != c2;
      assert Peers(r1, c1, r2, c2);
    }
  }

  /** In a complete valid Sudoku every row, every column and every block holds each digit
      1..9 exactly once: each digit occurs, and no value repeats. */
  lemma EachDigitOnce(g: Grid, k: int, d: int)
    requires IsSudoku(g) && 0 <= k < 9 && 1 <= d <= 9
    ensures d in RowOf(g, k) && Distinct(RowOf(g, k))
    ensures d in ColumnOf(g, k) && Distinct(ColumnOf(g, k))
    ensures d in BlockOf(g, k) && Distinct(BlockOf(g, k))
  {
    UnitsDistinct(g, k);
    BlockDistinct(g, k);
    NineDistinctDigits(RowOf(g, k), d);
    NineDistinctDigits(ColumnOf(g, k), d);
    NineDistinctDigits(BlockOf(g, k), d);
  }
}
