# Sudoku generator and checker (app.js), modelled in Dafny

app.js is a browser Sudoku game. It builds a complete 9×9 Sudoku by randomised
backtracking (`solve`, `isSafe`, `shuffle`, `generateFullSudoku`). It masks that board at
one of three difficulties (`maskBoard`) and keeps the full board as the answer key
(`correctSolution`). It highlights cells that clash with a peer while the player types
(`validateAllConflicts`), and it scores a finished grid against the answer key
(`checkSolution`), counting wins and losses. A selector cycles through the difficulty
levels (`nextItem`, `prevItem`).

The Dafny project has six modules:

- `Grids` (grids.dfy): the board as a value (`Grid`, the view `Cells` of a 9×9
  `array2<int>`) and the Sudoku rules (`NoDuplicates`, `IsSudoku`, `Safe`, `Extends`,
  `IsSolution`, `Unsolvable`). It also holds the count of empty cells that serves as
  `solve`'s termination measure, and the fact that a valid Sudoku holds every digit once
  per row, column and block.
- `Randomness` (randomness.dfy): `Math.floor(Math.random() * n)` as draws from a stream of
  integers fixed in advance. Every property is proved for every stream.
- `Generator` (generator.dfy): `isSafe`, `shuffle`, `solve` and `generateFullSudoku`, all
  working in place on arrays as the source does. `solve` is proved:
  - sound: on success the board is a full solution of a consistent start;
  - framed: it never changes a given cell, and on failure it restores the board;
  - terminating: measured by the number of empty cells;
  - complete: it fails only on a board that has no solution.

  From completeness and a witness Sudoku, `generateFullSudoku` is proved always to return
  a complete valid Sudoku.
- `Masker` (masker.dfy): `maskBoard` and its difficulty table.
- `Checker` (checker.dfy): the board `validateAllConflicts` reads off the page, its
  blank-scan-restore loop, and the per-cell test of `checkSolution`.
- `Game` (game.dfy): the page's state (selected level, score, answer key) as a class,
  with the handlers `nextItem`, `prevItem`, `resetScore`, `generateSudoku` and
  `checkSolution`, plus end-to-end lemmas about rendered puzzles.

The source's `solve` is one recursive function. Here it is three mutually recursive
methods:

- `Solve` finds the first empty cell.
- `TryDigits` runs the loop over the shuffled digits.
- `TryDigit` does place, recurse and undo.

Together they perform the same steps in the same order.

The conflict scan of `validateAllConflicts` calls `markConflict(cell, getCell(r, c))`.
`getCell`'s template literal escapes `${`, so its selector matches no cell and only the
scanning cell is marked. The model marks exactly that cell and proves that the marked
set is still "every cell with a clashing peer", because the relation is symmetric.

## Behaviour worth knowing

- Masking does not check that the puzzle has only one solution. The model proves that the
  generated board solves the puzzle, not that it is the only solution.
- Pressing "check" before any puzzle exists scores a win. All 81 cells are then
  read-only, so the scan finds nothing to reject. `EmptyPageIsRight` states this.

## Model

| member | source | states |
|---|---|---|
| Grids.Write | app.js:187-189 | A single cell assignment `board[row][col] = v` changes exactly that cell of the board's value |
| Grids.PlaceUndo | app.js:187-189 | Filling an empty cell and then resetting it to 0 gives back the board as it was |
| Grids.ZerosPlace | app.js:183-188 | Filling an empty cell lowers the count of empty cells by one; clearing a filled cell raises it by one (the measure of `solve` and the counter of `maskBoard`) |
| Grids.ZerosBound | app.js:224-231 | A board has at most 81 empty cells, exactly 81 only when all are empty, and none exactly when it is full |
| Grids.EachDigitOnce | app.js:180-197 | In a complete valid Sudoku every row, column and block contains each digit 1..9 and repeats no value |
| Grids.NineDistinctDigits | app.js:180-197 | Pigeonhole helper of `EachDigitOnce`: nine distinct values drawn from 1..9 include every digit |
| Randomness.Draw | app.js:215 | A draw for `Math.floor(Math.random() * n)` lies in [0, n) and is the stream's integer reduced modulo n |
| Randomness.Random.Below | app.js:225-226 | Each call consumes one draw of the stream and answers it as an index in [0, n) |
| Generator.IsSafe | app.js:199-211 | Answers true exactly when num appears nowhere in the row, the column or the 3×3 block of (row, col) |
| Generator.FisherYatesPermutes | app.js:213-219 | Whatever the draws, the Fisher–Yates pass keeps the length and the multiset of the array |
| Generator.FisherYates | app.js:214-217 | The pure Fisher–Yates pass from index i down keeps the length and leaves every entry above i untouched |
| Generator.Swap | app.js:216 | The destructuring swap exchanges the two entries and changes nothing else |
| Generator.Shuffle | app.js:213-219 | The array afterwards is the Fisher–Yates pass over the next draws of the generator, and exactly length - 1 draws are consumed; `FisherYatesPermutes` makes it a permutation of its input |
| Generator.ShuffledDigits | app.js:184-185 | A shuffle of [1..9] holds only digits 1..9 and every one of them, so each digit is tried at each cell |
| Generator.SafePlacement | app.js:186-187 | Placing a safe digit into a cell of a board without repeats leaves a board without repeats |
| Generator.CandidateValue | app.js:185-191 | The digit any solution puts into an empty cell is safe there, and the solution also solves the board with that digit placed |
| Generator.NoCandidateWorks | app.js:185-192 | When every digit 1..9 is unsafe or leads to an unsolvable board, the board has no solution, which justifies `return false` |
| Generator.Solve | app.js:180-197 | On success the board is full and, from a consistent start, a solution of the start; given cells are never changed; on failure the board is unchanged and has no solution |
| Generator.TryDigits | app.js:183-193 | For the first empty cell: succeeds with a full extension of the board, or fails leaving it unchanged and provably unsolvable |
| Generator.TryDigit | app.js:186-190 | Places a safe candidate, recurses, and on failure resets the cell to 0, so the board is as before and the candidate cannot complete the cell |
| Generator.Witness | app.js:174-178 | A complete valid Sudoku exists, so the empty board has a solution |
| Generator.PatternDistinct | app.js:174-178 | Peer cells of the witness board hold different digits |
| Generator.EmptySolvable | app.js:175-176 | The all-zero board that `generateFullSudoku` starts from is solvable |
| Generator.GenerateFullSudoku | app.js:174-178 | Always returns a fresh complete valid Sudoku: every cell a digit 1..9 and no digit repeated in a row, column or block |
| Masker.RemovalCount | app.js:223 | "easy" clears 35 cells, "medium" 45, any other label 55; every count is between 1 and 80 |
| Masker.MaskBoard | app.js:221-233 | The input board is unchanged; every cell of the result is 0 or the input's digit; the result has exactly the difficulty's count more empty cells |
| Masker.FilledCell | app.js:224-227 | A board that is not all empty has a filled cell (the pick once the random stream is used up) |
| Masker.MasksClear | app.js:227-228 | Clearing a cell keeps the clone a masking of the input |
| Masker.FullBoardMasked | app.js:221-233 | Masking a full board leaves exactly 35, 45 or 55 empty cells |
| Checker.BoardOfRowMajor | app.js:127-133 | On a page rendered in row-major order, the board read off it holds each cell's number, or 0 for a cell whose text is not a number |
| Checker.Board | app.js:127-133 | Every non-zero cell of the board read off the page holds the number of an input at that cell's position |
| Checker.Wrong | app.js:102-104 | A read-only cell is never wrong, and an editable cell reading 0 is always wrong against a complete Sudoku |
| Checker.BlankedScan | app.js:139-154 | With its own cell blanked, a non-zero cell's value turns up in its row, column or block exactly when the cell clashes with a peer |
| Checker.ScanUnits | app.js:142-154 | The scan hits exactly when value appears somewhere in the row, the column or the block of (row, col) |
| Checker.PlaceRestore | app.js:140-155 | Blanking a cell and writing its value back restores the board |
| Checker.ValidateAllConflicts | app.js:124-157 | The marked cells are exactly the cells whose position holds a non-zero number that a peer in its row, column or block also holds |
| Checker.MarkStep | app.js:135-156 | Each scanned cell joins the marked set exactly when it clashes |
| Checker.MarkedPartner | app.js:143-172 | Clashing is mutual, so the partner that `getCell` fails to find is marked by its own scan |
| Checker.NoClashIffNoDuplicates | app.js:124-157 | No cell is marked exactly when no non-zero number repeats in a row, a column or a block |
| Game.NextLevel | app.js:12 | The next level index stays in range, steps by one and wraps from the last to the first |
| Game.PrevLevel | app.js:13 | The previous level index stays in range and is undone by `NextLevel` |
| Game.LevelCycle | app.js:12-13 | `nextItem` and `prevItem` undo each other, and three `nextItem`s return to the same level |
| Game.LevelCounts | app.js:223 | The three levels clear 35, 45 and 55 cells |
| Game.Render | app.js:73-79 | The rendered page has 81 cells in row-major order; a cell is read-only exactly when the puzzle's cell is filled, and its number is the puzzle's value |
| Game.EmptyPage | app.js:53-61 | The page before the first puzzle has 81 read-only cells in row-major order |
| Game.UntouchedPuzzleIsWrong | app.js:99-111 | A rendered puzzle with an empty cell, left as it is, has a wrong cell against a complete Sudoku |
| Game.EmptyPageIsRight | app.js:99-122 | Before the first puzzle no cell is editable, so the check finds nothing wrong and counts a win |
| Game.SolvedPageIsRight | app.js:101-115 | Editable cells holding the solution's digits are never wrong, whatever the read-only cells hold |
| Game.MaskedSolved | app.js:70-71 | The kept answer key solves any masking of it |
| Game.Game.constructor | app.js:4-6 | Page load selects the first level, holds no answer key, and takes the stored score or 0 wins and 0 losses |
| Game.Game.Difficulty | app.js:26-28 | The selected level's label is one of the three labels, and it clears 35 + 10 × level cells |
| Game.Game.NextItem | app.js:12 | Selects `NextLevel` of the current level and changes nothing else |
| Game.Game.PrevItem | app.js:13 | Selects `PrevLevel` of the current level and changes nothing else |
| Game.Game.ResetScore | app.js:15-19 | The score becomes 0 wins and 0 losses; level and answer key stay |
| Game.Game.GenerateSudoku | app.js:64-84 | The answer key is a complete valid Sudoku; the puzzle is a masking of it with exactly the selected level's 35/45/55 empty cells, solved by the answer key |
| Game.Game.CheckSolution | app.js:99-122 | Answers the index of the first wrong editable cell in page order and adds one loss, or, when no editable cell is wrong, answers None and adds one win; nothing else changes |

## Left out

- The DOM is not modelled: element creation, styling, the background colours set by `checkSolution`, `alert`, `updateScoreDisplay`, `clearConflictStyles` and `resetSudoku`. A page is modelled as the sequence of its cells (`Checker.Input`), each with its row, column, read-only flag and the number its text reads as.
- The grid-building loop of `generateSudoku` (lines 73-79) and `renderEmptyGrid` are values (`Render`, `EmptyPage`), not DOM-appending loops.
- `localStorage` is not modelled. The stored score at page load is a parameter of the constructor, and writing it back after a check is left out.
- Game.Game.Difficulty: returns the plain labels "easy", "medium" and "hard". It does not model `getDifficulty`'s trimming of the non-breaking-space padding or its lower-casing of the displayed label.
- The input sanitising of the `oninput` handler (line 43) and JavaScript's string-to-number conversion are left out. A cell's text is given as the number it reads as, or NaN.
- Masker.MaskBoard: draws from the random stream while it lasts. Once the stream is used up, it picks some filled cell (`FilledCell`) so that the loop provably ends; the source keeps drawing. It also requires enough filled cells to clear, since the source would otherwise loop forever.
- Generator.Shuffle: its ensures states the exact Fisher–Yates result and the number of draws; that the result is a permutation is stated by the lemma `FisherYatesPermutes` and applied at its caller `TryDigits`, not repeated in its own ensures. The distribution of the permutations (uniformity) is not modelled; the result is stated for any stream of draws.
- Uniqueness of the masked puzzle's solution is not modelled, because the source never checks it.
