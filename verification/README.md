# Sudoku engine model

A Dafny model of the Sudoku engine in `src/sudokuUtils.js`. It covers three parts:

- **`generateSudokuBoard`** builds a puzzle in two steps.
  - `fillBoard` fills the empty 9x9 grid by depth-first backtracking. At each empty cell it tries a shuffled order of the digits 1..9, using `isSafe` to skip digits already in the row, column or 3x3 block.
  - `removeCells` then clears random cells. The number of cells it clears comes from the difficulty level: easy 35, medium 45, hard 55, expert 60, master 64, extreme 68, and 45 for any other level.
- **`getErrorRegions`** scans every row, column and block. It groups the region's nonzero cells by value in a `seen` map. It reports every cell whose group has more than one member, and keeps the row, column and block reports apart.
- **`getCorrectCells`** reports every cell of a row, column or block that holds nine groups of exactly one cell, that is, nine different nonzero values.

The files are:

- `grid.dfy` (module `Grid`): the board and cells. It defines the predicates both halves share:
  - `Consistent`: no duplicate in any row, column or block;
  - `Solved`: a full, consistent board of digits;
  - `Extends`: a board keeps another board's filled cells;
  - `Clears`: a board is another board with some cells emptied;
  - the sets of empty and filled cells.
- `generator.dfy` (module `Generator`): `IsSafe`, `FillBoard`/`FillCell`, the level table, `RemoveCells` and `GenerateSudokuBoard`.
- `validator.dfy` (module `Validator`):
  - the scans: `Cells` gives the visiting order, `Group` is the `seen` map, `Duplicates` and `Completed` are the two report steps;
  - two definitions that do not use the scans: `Conflicting` and `Filled`;
  - lemmas connecting the scans to those two definitions.
- `properties.dfy` (module `Properties`):
  - results relating the validators to the generator's invariants;
  - the two worked examples, stated for any board of the given shape.

The random choices become inputs:

- `orders[row * 9 + col]` is the digit order `fillBoard` tries at (row, col). Each order is a permutation of 1..9.
- `picks` is the stream of (row, col) coordinates that `removeCells` draws.

Boards are immutable sequences. The JavaScript code mutates its board in place. The model instead returns the new board, and `FillBoard` promises to return its input unchanged when it fails. That is the effect of the code resetting each cell to 0 when it backtracks.

Take a board whose row 0 is `[1,1,0,0,0,0,0,0,0]` and whose other cells are empty. The two 1s share row 0, and both cells also lie in block (0,0). So `rowErrors` and `blockErrors` each hold (0,0) and (0,1), and `colErrors` is empty. `Properties.TwoOnesExample` states exactly this.

## Model

| member | source | states |
|---|---|---|
| Generator.IsSafe | src/sudokuUtils.js:6-15 | the test returns true exactly when the digit occurs nowhere in the cell's row, column and 3x3 block; the block's top-left corner is (row - row % 3, col - col % 3) |
| Generator.FillBoard | src/sudokuUtils.js:17-34 | the result is a grid. On failure it is the input board unchanged. On success it is full. Filled cells of the input are never changed. A consistent input yields a consistent result, and values stay within 0..9. A board that has any solution is always filled successfully (completeness of the backtracking) |
| Generator.FillCell | src/sudokuUtils.js:20-29 | the same guarantees for the step at the first empty cell: try each digit of the cell's order; place it if safe and recurse; reset the cell to 0 on failure; report failure after the last digit |
| Generator.RefutedDigit | src/sudokuUtils.js:23-27 | a digit that fails the safety test, or whose placement leads to a board with no solution, appears at that cell in no solution of the board |
| Generator.NoDigitLeft | src/sudokuUtils.js:29 | if every digit of the permutation is refuted at an empty cell, the board has no solution, so returning false there is correct |
| Generator.PlaceKeepsConsistent | src/sudokuUtils.js:23-24 | writing a safe digit into an empty cell of a consistent board keeps it consistent |
| Grid.PlaceUndone | src/sudokuUtils.js:24-26 | writing a digit and then resetting the cell to 0 gives back the board as it was before |
| Generator.PatternSolved | src/sudokuUtils.js:58 | the empty board has a solution. An explicit valid grid is given, in which every row, column and block holds nine different digits |
| Generator.FillEmptyBoard | src/sudokuUtils.js:58-59 | filling the all-zero board succeeds for every choice of digit orders and yields a solved grid |
| Generator.EmptyCount | src/sudokuUtils.js:37-45 | the number of cells to clear: between 35 and 68 for every level, and 45 for a level not in the table |
| Generator.ClearedAsWritten | src/sudokuUtils.js:45-47 | the lookup as written: a level naming an inherited object property clears 0 cells; every other level clears the corrected count |
| Generator.InheritedLevelClearsNothing | src/sudokuUtils.js:45-47 | for the level "toString", the as-written lookup clears nothing, while the intended count is 45 |
| Generator.RemoveCells | src/sudokuUtils.js:46-55 | each result cell is either the input's cell or 0, and every cell it empties was filled and is among the picks. It finishes (`done`) exactly when the picks name at least `emptyCount` filled cells; it then has cleared exactly `emptyCount` of them. Otherwise it has cleared every filled cell the picks name, which is fewer |
| Generator.ClearedStep | src/sudokuUtils.js:50-53 | after one more pick, the cleared cells are still exactly the originally filled cells among the picks drawn so far, whether the pick was still filled (and is cleared) or already empty (and is skipped) |
| Generator.ClearsKeepConsistent | src/sudokuUtils.js:50-51 | emptying cells of a consistent board keeps it consistent |
| Generator.GenerateSudokuBoard | src/sudokuUtils.js:5-61 | the puzzle is a consistent grid of values 0..9, obtained from a solved grid by clearing cells, and every empty cell was picked. It finishes exactly when the picks name at least `EmptyCount(level)` different cells, and then has exactly `81 - EmptyCount(level)` filled cells. Otherwise every picked cell is empty and every other cell is filled |
| Grid.FullHas81Cells | src/sudokuUtils.js:58-59 | a full grid has exactly 81 filled cells |
| Validator.Cells | src/sudokuUtils.js:142-143 | the nine cells a region's loop visits: they are distinct and in range, and they are exactly the cells of the region. For a block these are the cells (blockRow * 3 + i, blockCol * 3 + j) |
| Validator.Filter | src/sudokuUtils.js:116-117 | the list pushed for one value: its members are exactly the region's cells holding that value, with no cell twice |
| Validator.Group | src/sudokuUtils.js:112-118 | the `seen` map has a key for exactly the nonzero values present, and maps each to the cells holding it |
| Validator.DuplicatesSpec | src/sudokuUtils.js:119-123 | a cell is in a group with more than one member exactly when it holds a nonzero value that another cell of the region also holds |
| Validator.ValuesCount | src/sudokuUtils.js:73 | nine distinct cells hold at most nine different nonzero values, and exactly nine when they are all filled with pairwise different values |
| Validator.GroupKeys | src/sudokuUtils.js:73 | the keys of `seen` are the nonzero values of the region, so `seen.size` counts them |
| Validator.CompletedSpec | src/sudokuUtils.js:73-75 | a region's cells are reported exactly when the region is filled with nine different nonzero values; otherwise nothing is reported |
| Validator.RowErrors | src/sudokuUtils.js:111-124 | a cell is a row error exactly when another cell of its row holds the same nonzero value |
| Validator.ColErrors | src/sudokuUtils.js:125-138 | a cell is a column error exactly when another cell of its column holds the same nonzero value |
| Validator.BlockScanSound | src/sudokuUtils.js:139-155 | every cell the block scan reports conflicts with another cell of its own block |
| Validator.BlockScanComplete | src/sudokuUtils.js:139-155 | every cell that conflicts within its block is reported by the block scan |
| Validator.BlockErrors | src/sudokuUtils.js:139-155 | a cell is a block error exactly when another cell of its 3x3 block holds the same nonzero value |
| Validator.GetErrorRegions | src/sudokuUtils.js:107-157 | the three sets returned are exactly the row, column and block conflicts, kept apart |
| Validator.CorrectRows | src/sudokuUtils.js:65-76 | a cell is reported by the row scan exactly when its row is filled with nine different values |
| Validator.CorrectCols | src/sudokuUtils.js:77-88 | a cell is reported by the column scan exactly when its column is filled with nine different values |
| Validator.CorrectBlocks | src/sudokuUtils.js:89-103 | a cell is reported by the block scan exactly when its block is filled with nine different values |
| Validator.GetCorrectCells | src/sudokuUtils.js:63-105 | a cell is correct exactly when its row, its column or its block is filled with nine different values |
| Properties.ConsistentIffNoErrors | src/sudokuUtils.js:107-157 | all three error sets are empty exactly when no row, column or block holds a nonzero value twice |
| Properties.ConsistentReportsNothing | src/sudokuUtils.js:107-157 | a consistent board, such as every board the generator returns, has no errors |
| Properties.InconsistentReportsSomething | src/sudokuUtils.js:107-157 | a board with a duplicate in some unit has at least one error |
| Properties.ConflictsArePairs | src/sudokuUtils.js:119-123 | two different cells of one row, column or block holding the same nonzero value are both reported for that kind of region |
| Properties.EmptyBoardReportsNothing | src/sudokuUtils.js:63-157 | on the all-zero board there are no errors and no correct cells |
| Properties.SolvedBoardAllCorrect | src/sudokuUtils.js:63-105 | on a solved grid all 81 cells are correct |
| Properties.TwoOnesExample | src/sudokuUtils.js:107-157 | with 1 at (0,0) and (0,1) and every other cell empty: the row errors and the block errors are both exactly those two cells, and there are no column errors |
| Properties.TwoOnesNothingCorrect | src/sudokuUtils.js:63-105 | on that board no cell is correct |
| Properties.OneBlockExample | src/sudokuUtils.js:89-103 | with block (0,0) holding 1..9 and every other cell empty, the correct cells are exactly the nine cells of that block |

## Left out

- The React UI and everything outside `src/sudokuUtils.js` is not part of this model.
- `Math.random` is replaced by inputs:
  - the comparator-based shuffle becomes the `orders` table of permutations;
  - the random (row, col) draws of `removeCells` become the `picks` sequence.

  The model does not reason about probabilities, or about whether the shuffle is uniform.
- Generator.FillBoard: a cell that is revisited after backtracking tries the same digit order again, whereas the code shuffles afresh on each visit. Completeness and soundness do not depend on the order.
- Generator.RemoveCells: the code keeps drawing until enough cells are cleared, which ends only with probability 1. The model consumes a finite `picks` sequence. It reports `done = false` when the picks name fewer filled cells than the count, and has then cleared all of them.
- Generator.GenerateSudokuBoard: the model does not prove that the puzzle has a unique solution, because the code never checks it. The solved grid it comes from is ghost: it is returned only to state the contract.
- Generator.GenerateSudokuBoard: uses the corrected count `EmptyCount(level)`. For a level that names an inherited object property, such as "toString", it clears 45 cells where the code clears none (see "## Findings"; the code's count is `Generator.ClearedAsWritten`).
- The `"row,col"` string keys of the result sets are represented by `Cell(row, col)` values. The set contents are the same; JavaScript `Set` identity and iteration order are not modelled.
- Board values are unbounded integers, and the validators compare them with `==`. Non-number entries, which JavaScript's `===` would also tell apart, are not modelled.
- A level that is not a string, such as `undefined` or a number, is not modelled. The level is a `string` whose default is "easy".
- The validators do not modify the board and, being pure functions, give the same result every time they are called. The model states no separate idempotence property.

## Findings

| source | as written | input that shows it | evidently intended | confidence | as-written member | corrected member |
|---|---|---|---|---|---|---|
| src/sudokuUtils.js:45-47 | `levelEmptyCounts[level] ?? 45` reads the level through an ordinary object. An inherited property name such as "toString", "constructor" or "__proto__" yields a function or an object rather than `undefined`, so the fallback does not apply. `attempts > 0` is then false and the loop clears nothing, so the "puzzle" is the full solution. | level = "toString" | any level missing from the table clears 45 cells | not executed | Generator.ClearedAsWritten, Generator.InheritedLevelClearsNothing | Generator.EmptyCount |
