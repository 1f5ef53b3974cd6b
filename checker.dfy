/** What app.js does with the player's entries: the conflict highlighting of
    `validateAllConflicts` and the mismatch rule of `checkSolution`. The page's cells are
    the inputs the grid was rendered with, in document order. */
module Checker {
  import opened Grids

  /** The result of `+input.value`: a number, or NaN when the text is not numeric. */
  datatype Number = Num(n: int) | NaN

  /** One cell of the page: its `data-row` / `data-col` attributes, whether it is
      read-only (a given digit) and the number its text reads as. */
  datatype Input = Input(row: int, col: int, readOnly: bool, value: Number)

  /** Every input's row and column lie on the board. */
  predicate OnBoard(inputs: seq<Input>) {
    forall k :: 0 <= k < |inputs| ==> InRange(inputs[k].row, inputs[k].col)
  }

  /** The inputs as the page renders them: 81 cells in row-major order. */
  predicate RowMajor(inputs: seq<Input>) {
    |inputs| == 81 && forall k :: 0 <= k < 81 ==> inputs[k].row == k / 9 && inputs[k].col == k % 9
  }

  /** The empty board. */
  function EmptyGrid(): (g: Grid)
    ensures IsGrid(g) && forall r, c :: InRange(r, c) ==> g[r][c] == 0
  {
    seq(9, r => seq(9, c => 0))
  }

  /** The board `validateAllConflicts` reads off the page: starting from all zeros, each
      input in turn writes its number to its own cell; an input reading NaN writes nothing. */
  function Board(inputs: seq<Input>): (g: Grid)
    requires OnBoard(inputs)
    ensures IsGrid(g)
    ensures forall r, c :: InRange(r, c) && g[r][c] != 0 ==>
      exists k :: 0 <= k < |inputs| && inputs[k].row == r && inputs[k].col == c &&
        inputs[k].value == Num(g[r][c])
  {
    if inputs == [] then EmptyGrid()
    else
      var last := inputs[|inputs| - 1];
      var g := Board(inputs[..|inputs| - 1]);
      if last.value.Num? then Place(g, last.row, last.col, last.value.n) else g
  }

  /** In a page rendered in row-major order each cell of the board holds its own input's
      number, or 0 when that input reads NaN. */
  lemma {:induction false} BoardOfRowMajor(inputs: seq<Input>)
    requires RowMajor(inputs)
    ensures OnBoard(inputs)
    ensures forall r, c :: InRange(r, c) ==>
      Board(inputs)[r][c] == (if inputs[9 * r + c].value.Num? then inputs[9 * r + c].value.n else 0)
  {
    BoardOfPrefix(inputs, 81);
    assert inputs[..81] == inputs;
  }

  lemma {:induction false} BoardOfPrefix(inputs: seq<Input>, k: nat)
    requires RowMajor(inputs) && k <= 81
    ensures OnBoard(inputs[..k])
    ensures forall r, c :: InRange(r, c) ==>
      Board(inputs[..k])[r][c] ==
        (if 9 * r + c < k && inputs[9 * r + c].value.Num? then inputs[9 * r + c].value.n else 0)
  {
    if k > 0 {
      BoardOfPrefix(inputs, k - 1);
      assert inputs[..k][..k - 1] == inputs[..k - 1];
      var last := inputs[k - 1];
      assert last.row == (k - 1) / 9 && last.col == (k - 1) % 9;
      forall r, c | InRange(r, c)
        ensures Board(inputs[..k])[r][c] ==
          (if 9 * r + c < k && inputs[9 * r + c].value.Num? then inputs[9 * r + c].value.n else 0)
      {
        if 9 * r + c == k - 1 {
          assert r == last.row && c == last.col;
        } else {
          assert r != last.row || c != last.col;
        }
      }
    }
  }

  /** The cell (row, col) holds a number that a peer in its row, column or block also holds. */
  ghost predicate Clashes(g: Grid, row: int, col: int)
    requires IsGrid(g) && InRange(row, col)
  {
    g[row][col] != 0 &&
    exists r, c :: InRange(r, c) && Peers(row, col, r, c) && g[r][c] == g[row][col]
  }

  /** With its own cell blanked, a non-empty cell's value turns up in its row, column or
      block exactly when the cell clashes. */
  lemma BlankedScan(g: Grid, row: int, col: int)
    requires IsGrid(g) && InRange(row, col) && g[row][col] != 0
    ensures !Safe(Place(g, row, col, 0), row, col, g[row][col]) <==> Clashes(g, row, col)
  {
    var h := Place(g, row, col, 0);
    var v := g[row][col];
    if !Safe(h, row, col, v) {
      var r, c :| InRange(r, c) && InUnit(row, col, r, c) && h[r][c] == v;
      assert Peers(row, col, r, c);
    }
    if Clashes(g, row, col) {
      var r, c :| InRange(r, c) && Peers(row, col, r, c) && g[r][c] == v;
      assert h[r][c] == v;
    }
  }

  /** Lines 142-154 for one cell: scans the row and the column of (row, col), then its
      block, for value, and reports whether any of them holds it, i.e. whether
      `markConflict` was called for the cell. */
  method ScanUnits(board: array2<int>, row: int, col: int, value: int) returns (hit: bool)
    requires board.Length0 == 9 && board.Length1 == 9 && InRange(row, col)
    ensures hit <==> !Safe(Cells(board), row, col, value)
  {
    hit := false;
    for i := 0 to 9
      invariant !hit <==> forall k :: 0 <= k < i ==> board[row, k] != value && board[k, col] != value
    {
      if board[row, i] == value {
        hit := true;
      }
      if board[i, col] == value {
        hit := true;
      }
    }
    ghost var lineHit := hit;
    var startRow := row / 3 * 3;
    var startCol := col / 3 * 3;
    for i := 0 to 3
      invariant hit <==> lineHit || exists r, c :: startRow <= r < startRow + i && startCol <= c < startCol + 3 && board[r, c] == value
    {
      var r := startRow + i;
      for j := 0 to 3
        invariant hit <==> (lineHit ||
          (exists r, c :: startRow <= r < startRow + i && startCol <= c < startCol + 3 && board[r, c] == value) ||
          (exists c :: startCol <= c < startCol + j && board[r, c] == value))
      {
        if board[r, startCol + j] == value {
          hit := true;
        }
      }
    }
    var g := Cells(board);
    if hit {
      if lineHit {
        var k :| 0 <= k < 9 && (board[row, k] == value || board[k, col] == value);
        assert g[row][k] == value || g[k][col] == value;
      } else {
        var r, c :| startRow <= r < startRow + 3 && startCol <= c < startCol + 3 && board[r, c] == value;
        assert g[r][c] == value;
      }
    } else {
      forall r, c | InRange(r, c) && InUnit(row, col, r, c)
        ensures g[r][c] != value
      {
        if r != row && c != col {
          assert startRow <= r < startRow + 3 && startCol <= c < startCol + 3;
        }
      }
    }
  }

  /** `validateAllConflicts`: builds the board from the page's cells, then for every cell
      holding a non-zero number blanks the cell, scans its row, column and block for the
      number, marks the cell on a hit and restores it. The partner cell of a hit is looked
      up by `getCell`, whose selector never matches (its `${` is escaped), so only the
      scanning cell itself is marked. The result is the set of indices of the marked cells:
      exactly the cells whose position clashes on the board, so by `MarkedPartner` the
      partner of a clash is marked when its own turn comes. */
  method ValidateAllConflicts(inputs: seq<Input>) returns (marked: set<int>)
    requires OnBoard(inputs)
    ensures forall k :: k in marked <==>
      0 <= k < |inputs| && Clashes(Board(inputs), inputs[k].row, inputs[k].col)
  {
    var board := new int[9, 9]((r, c) => 0);
    GridEq(Cells(board), EmptyGrid());
    for k := 0 to |inputs|
      invariant Cells(board) == Board(inputs[..k])
    {
      assert inputs[..k + 1][..k] == inputs[..k];
      var cell := inputs[k];
      if cell.value.Num? {
        Write(board, cell.row, cell.col, cell.value.n);
      }
    }
    assert inputs[..|inputs|] == inputs;
    ghost var g := Cells(board);
    marked := {};
    for k := 0 to |inputs|
      invariant Cells(board) == g
      invariant forall j :: j in marked <==> 0 <= j < k && Clashes(g, inputs[j].row, inputs[j].col)
    {
      var row, col := inputs[k].row, inputs[k].col;
      var value := board[row, col];
      ghost var before := marked;
      if value != 0 {
        Write(board, row, col, 0);
        var hit := ScanUnits(board, row, col, value);
        BlankedScan(g, row, col);
        if hit {
          marked := marked + {k};
        }
        Write(board, row, col, value);
        PlaceRestore(g, row, col);
      }
      MarkStep(g, inputs, k, before, marked);
    }
  }

  /** One more scanned cell: the marked set grows by the cell exactly when it clashes. */
  lemma MarkStep(g: Grid, inputs: seq<Input>, k: int, before: set<int>, after: set<int>)
    requires IsGrid(g) && OnBoard(inputs) && 0 <= k < |inputs|
    requires forall j :: j in before <==> 0 <= j < k && Clashes(g, inputs[j].row, inputs[j].col)
    requires after == before || after == before + {k}
    requires k in after <==> Clashes(g, inputs[k].row, inputs[k].col)
    ensures forall j :: j in after <==> 0 <= j < k + 1 && Clashes(g, inputs[j].row, inputs[j].col)
  {
  }

  /** Blanking a cell and writing its value back leaves the board as it was. */
  lemma PlaceRestore(g: Grid, row: int, col: int)
    requires IsGrid(g) && InRange(row, col)
    ensures Place(Place(g, row, col, 0), row, col, g[row][col]) == g
  {
    assert g[row][col := 0][col := g[row][col]] == g[row];
  }

  /** Clashing is mutual: when a cell clashes with a peer holding the same number, the
      peer clashes too; so every cell a scan finds is marked by its own scan. */
  lemma MarkedPartner(g: Grid, row: int, col: int, r: int, c: int)
    requires IsGrid(g) && InRange(row, col) && InRange(r, c)
    requires g[row][col] != 0 && Peers(row, col, r, c) && g[r][c] == g[row][col]
    ensures Clashes(g, row, col) && Clashes(g, r, c)
  {
    assert Peers(r, c, row, col);
  }

  /** No cell of a board clashes exactly when no non-zero number repeats in a row, a
      column or a block. */
  lemma NoClashIffNoDuplicates(g: Grid)
    requires IsGrid(g)
    ensures (forall r, c :: InRange(r, c) ==> !Clashes(g, r, c)) <==> NoDuplicates(g)
  {
    forall r1, c1, r2, c2 |
      InRange(r1, c1) && InRange(r2, c2) && Peers(r1, c1, r2, c2) && g[r1][c1] != 0 &&
      g[r1][c1] == g[r2][c2]
      ensures Clashes(g, r1, c1)
    {
    }
  }

  /** What `checkSolution` reads: every editable cell lies on the board, and when there is
      one the solution is a 9×9 board (before the first puzzle it is `[]`). */
  predicate Checkable(inputs: seq<Input>, solution: Grid) {
    forall k :: 0 <= k < |inputs| && !inputs[k].readOnly ==>
      InRange(inputs[k].row, inputs[k].col) && IsGrid(solution)
  }

  /** `checkSolution`'s test of the k-th cell: it is editable and its text is not a number
      or differs from the solution's digit at the cell's position. */
  ghost predicate Wrong(inputs: seq<Input>, solution: Grid, k: int)
    requires Checkable(inputs, solution) && 0 <= k < |inputs|
    ensures Wrong(inputs, solution, k) ==> !inputs[k].readOnly
    ensures IsSudoku(solution) && !inputs[k].readOnly && inputs[k].value == Num(0) ==>
      Wrong(inputs, solution, k)
  {
    var input := inputs[k];
    !input.readOnly &&
    (input.value.NaN? || input.value.n != solution[input.row][input.col])
  }
}
