/** The board generator of `generateSudokuBoard`: a depth-first
    backtracking fill of an empty grid, followed by clearing cells until a
    per-difficulty count of them has been emptied.

    The random choices become inputs. `orders[row * 9 + col]` is the
    shuffled digit order tried at cell (row, col), and `picks` is the
    stream of random (row, col) coordinates the clearing loop draws. */
module Generator {
  import opened Grid

  /** `num` occurs nowhere in the row, the column or the 3x3 block of
      (row, col). */
  predicate Absent(g: Board, row: int, col: int, num: int)
    requires IsGrid(g)
  {
    forall r, c :: 0 <= r < 9 && 0 <= c < 9 && SameUnit(r, c, row, col) ==> g[r][c] != num
  }

  /** A permutation of the digits 1..9, as the shuffle produces. */
  predicate IsDigitOrder(nums: seq<int>) {
    multiset(nums) == multiset{1, 2, 3, 4, 5, 6, 7, 8, 9}
  }

  /** One shuffled digit order per cell, indexed by row * 9 + col. */
  predicate IsOrderTable(orders: seq<seq<int>>) {
    |orders| == 81 && forall k :: 0 <= k < 81 ==> IsDigitOrder(orders[k])
  }

  /** The safety test: scans the row and the column, then the block whose
      top-left corner is (row - row % 3, col - col % 3). */
  method IsSafe(board: Board, row: int, col: int, num: int) returns (safe: bool)
    requires IsGrid(board) && 0 <= row < 9 && 0 <= col < 9
    ensures safe <==> Absent(board, row, col, num)
  {
    for x := 0 to 9
      invariant forall y :: 0 <= y < x ==> board[row][y] != num && board[y][col] != num
    {
      if board[row][x] == num || board[x][col] == num {
        return false;
      }
    }
    var startRow, startCol := row - row % 3, col - col % 3;
    for i := 0 to 3
      invariant forall r, c :: startRow <= r < startRow + i && startCol <= c < startCol + 3 ==> board[r][c] != num
    {
      var r := startRow + i;
      for j := 0 to 3
        invariant forall c :: startCol <= c < startCol + j ==> board[r][c] != num
      {
        if board[r][j + startCol] == num {
          return false;
        }
      }
    }
    return true;
  }

  /** Writing a digit that passed the safety test into an empty cell keeps
      the board free of duplicates. */
  lemma PlaceKeepsConsistent(g: Board, row: int, col: int, num: int)
    requires IsGrid(g) && 0 <= row < 9 && 0 <= col < 9
    requires Consistent(g) && g[row][col] == 0 && Absent(g, row, col, num)
    ensures Consistent(Place(g, row, col, num))
  {
    var g' := Place(g, row, col, num);
    forall r1, c1, r2, c2 |
      0 <= r1 < 9 && 0 <= c1 < 9 && 0 <= r2 < 9 && 0 <= c2 < 9 &&
      (r1 != r2 || c1 != c2) && SameUnit(r1, c1, r2, c2) && g'[r1][c1] != 0
      ensures g'[r1][c1] != g'[r2][c2]
    {
      if r1 == row && c1 == col {
        assert SameUnit(r2, c2, row, col);
        assert g[r2][c2] != num;
      } else if r2 == row && c2 == col {
        assert g[r1][c1] != num;
      }
    }
  }

  /** The value a solution puts in an empty cell passes the safety test. */
  lemma SolutionValueIsSafe(g: Board, s: Board, row: int, col: int)
    requires IsGrid(g) && 0 <= row < 9 && 0 <= col < 9 && g[row][col] == 0
    requires SolutionOf(g, s)
    ensures Absent(g, row, col, s[row][col])
  {
    forall r, c | 0 <= r < 9 && 0 <= c < 9 && SameUnit(r, c, row, col)
      ensures g[r][c] != s[row][col]
    {
      if g[r][c] != 0 && (r != row || c != col) {
        assert s[r][c] == g[r][c];
        assert SameUnit(row, col, r, c);
      }
    }
  }

  lemma DigitOrderMembers(nums: seq<int>)
    requires IsDigitOrder(nums)
    ensures forall d :: d in nums <==> 1 <= d <= 9
  {
    assert forall d :: d in nums <==> d in multiset(nums);
  }

  /** What the recursive fill promises about the board with the digit
      placed carries over to the board before placement. */
  lemma PlacementSucceeded(g: Board, row: int, col: int, num: int, filled: Board)
    requires IsGrid(g) && 0 <= row < 9 && 0 <= col < 9 && g[row][col] == 0
    requires 1 <= num <= 9 && Absent(g, row, col, num)
    requires IsGrid(filled) && Extends(Place(g, row, col, num), filled)
    requires Consistent(Place(g, row, col, num)) ==> Consistent(filled)
    requires Digits(Place(g, row, col, num)) ==> Digits(filled)
    ensures Extends(g, filled)
    ensures Consistent(g) ==> Consistent(filled)
    ensures Digits(g) ==> Digits(filled)
  {
    var p := Place(g, row, col, num);
    if Consistent(g) {
      PlaceKeepsConsistent(g, row, col, num);
    }
    if Digits(g) {
      assert Digits(p);
    }
    forall r, c | 0 <= r < 9 && 0 <= c < 9 && g[r][c] != 0
      ensures filled[r][c] == g[r][c]
    {
      assert p[r][c] == g[r][c];
    }
  }

  /** No solution of `g` holds `num` at (row, col). */
  ghost predicate Refuted(g: Board, row: int, col: int, num: int)
    requires IsGrid(g) && 0 <= row < 9 && 0 <= col < 9
  {
    forall s :: SolutionOf(g, s) ==> s[row][col] != num
  }

  /** A digit that fails the safety test, or whose placement leaves an
      unsolvable board, is not the digit of any solution at that cell. */
  lemma RefutedDigit(g: Board, row: int, col: int, num: int)
    requires IsGrid(g) && 0 <= row < 9 && 0 <= col < 9 && g[row][col] == 0
    requires Absent(g, row, col, num) ==> !Solvable(Place(g, row, col, num))
    ensures Refuted(g, row, col, num)
  {
    forall s | SolutionOf(g, s) && s[row][col] == num
      ensures false
    {
      SolutionValueIsSafe(g, s, row, col);
      assert SolutionOf(Place(g, row, col, num), s);
    }
  }

  /** The first `i` digits of `nums` are refuted at (row, col). */
  ghost predicate RefutedPrefix(g: Board, row: int, col: int, nums: seq<int>, i: int)
    requires IsGrid(g) && 0 <= row < 9 && 0 <= col < 9 && 0 <= i <= |nums|
  {
    forall k :: 0 <= k < i ==> Refuted(g, row, col, nums[k])
  }

  lemma RefutedPrefixStep(g: Board, row: int, col: int, nums: seq<int>, i: int)
    requires IsGrid(g) && 0 <= row < 9 && 0 <= col < 9 && 0 <= i < |nums|
    requires RefutedPrefix(g, row, col, nums, i) && Refuted(g, row, col, nums[i])
    ensures RefutedPrefix(g, row, col, nums, i + 1)
  {
  }

  /** When every digit of a shuffled order is refuted at a cell, the board
      has no solution. */
  lemma NoDigitLeft(g: Board, row: int, col: int, nums: seq<int>)
    requires IsGrid(g) && 0 <= row < 9 && 0 <= col < 9 && IsDigitOrder(nums)
    requires RefutedPrefix(g, row, col, nums, |nums|)
    ensures !Solvable(g)
  {
    forall s | SolutionOf(g, s) ensures s[row][col] !in nums {
    }
    DigitOrderMembers(nums);
  }

  /** `fillBoard`: find the first empty cell in row-major order and fill
      the board from there; with no empty cell left the board is done. */
  method FillBoard(board: Board, orders: seq<seq<int>>) returns (ok: bool, filled: Board)
    requires IsGrid(board) && IsOrderTable(orders)
    ensures IsGrid(filled)
    ensures !ok ==> filled == board
    ensures ok ==> Full(filled)
    ensures Extends(board, filled)
    ensures Consistent(board) ==> Consistent(filled)
    ensures Digits(board) ==> Digits(filled)
    ensures Solvable(board) ==> ok
    decreases ZeroCells(board), 1
  {
    for row := 0 to 9
      invariant forall r, c :: 0 <= r < row && 0 <= c < 9 ==> board[r][c] != 0
    {
      for col := 0 to 9
        invariant forall c :: 0 <= c < col ==> board[row][c] != 0
      {
        if board[row][col] == 0 {
          ok, filled := FillCell(board, row, col, orders);
          return;
        }
      }
    }
    return true, board;
  }

  /** The body of `fillBoard` at its first empty cell (row, col): try the
      shuffled digits in turn; place each safe one and recurse, and on
      failure reset the cell to 0 and try the next. */
  method FillCell(board: Board, row: int, col: int, orders: seq<seq<int>>) returns (ok: bool, filled: Board)
    requires IsGrid(board) && IsOrderTable(orders)
    requires 0 <= row < 9 && 0 <= col < 9 && board[row][col] == 0
    ensures IsGrid(filled)
    ensures !ok ==> filled == board
    ensures ok ==> Full(filled)
    ensures Extends(board, filled)
    ensures Consistent(board) ==> Consistent(filled)
    ensures Digits(board) ==> Digits(filled)
    ensures Solvable(board) ==> ok
    decreases ZeroCells(board), 0
  {
    var nums := orders[row * 9 + col];
    DigitOrderMembers(nums);
    var grid := board;
    for i := 0 to |nums|
      invariant grid == board
      invariant RefutedPrefix(board, row, col, nums, i)
    {
      var num := nums[i];
      assert 1 <= num <= 9 by { assert num in nums; }
      var safe := IsSafe(grid, row, col, num);
      if safe {
        grid := Place(grid, row, col, num);
        FillShrinksZeroCells(board, row, col, num);
        var done;
        done, grid := FillBoard(grid, orders);
        if done {
          PlacementSucceeded(board, row, col, num, grid);
          return true, grid;
        }
        PlaceUndone(board, row, col, num);
        grid := Place(grid, row, col, 0);
      }
      RefutedDigit(board, row, col, num);
      RefutedPrefixStep(board, row, col, nums, i);
    }
    NoDigitLeft(board, row, col, nums);
    return false, grid;
  }

  /** The digit of a fixed valid solution at (r, c): each row is the row
      before it shifted by three, and each band of three rows by one more. */
  function PatternValue(r: int, c: int): int {
    (3 * (r % 3) + r / 3 + c) % 9 + 1
  }

  /** The fixed valid solution; its existence makes the empty board
      solvable. */
  function Pattern(): (p: Board)
    ensures IsGrid(p)
    ensures forall r, c :: 0 <= r < 9 && 0 <= c < 9 ==> p[r][c] == PatternValue(r, c)
  {
    seq(9, r => seq(9, c => PatternValue(r, c)))
  }

  lemma ShiftIsInjective(a: int, b: int, x: int, y: int)
    requires 0 <= a < 9 && 0 <= b < 9 && 0 <= x < 9 && 0 <= y < 9
    requires (a + x) % 9 == (b + y) % 9
    ensures a - b == y - x || a - b == y - x + 9 || a - b == y - x - 9
  {
  }

  lemma PatternRowDistinct(r: int, c1: int, c2: int)
    requires 0 <= r < 9 && 0 <= c1 < 9 && 0 <= c2 < 9 && c1 != c2
    ensures PatternValue(r, c1) != PatternValue(r, c2)
  {
    var a := 3 * (r % 3) + r / 3;
    if PatternValue(r, c1) == PatternValue(r, c2) {
      ShiftIsInjective(a, a, c1, c2);
    }
  }

  lemma PatternColDistinct(r1: int, r2: int, c: int)
    requires 0 <= r1 < 9 && 0 <= r2 < 9 && 0 <= c < 9 && r1 != r2
    ensures PatternValue(r1, c) != PatternValue(r2, c)
  {
    var a, b := 3 * (r1 % 3) + r1 / 3, 3 * (r2 % 3) + r2 / 3;
    if PatternValue(r1, c) == PatternValue(r2, c) {
      ShiftIsInjective(a, b, c, c);
    }
  }

  lemma PatternBlockDistinct(r1: int, c1: int, r2: int, c2: int)
    requires 0 <= r1 < 9 && 0 <= c1 < 9 && 0 <= r2 < 9 && 0 <= c2 < 9
    requires SameBlock(r1, c1, r2, c2) && r1 != r2 && c1 != c2
    ensures PatternValue(r1, c1) != PatternValue(r2, c2)
  {
    var a, b := 3 * (r1 % 3) + r1 / 3, 3 * (r2 % 3) + r2 / 3;
    if PatternValue(r1, c1) == PatternValue(r2, c2) {
      ShiftIsInjective(a, b, c1, c2);
    }
  }

  lemma PatternSolved()
    ensures Solved(Pattern())
    ensures SolutionOf(EmptyBoard(), Pattern())
  {
    var p := Pattern();
    forall r1, c1, r2, c2 |
      0 <= r1 < 9 && 0 <= c1 < 9 && 0 <= r2 < 9 && 0 <= c2 < 9 &&
      (r1 != r2 || c1 != c2) && SameUnit(r1, c1, r2, c2) && p[r1][c1] != 0
      ensures p[r1][c1] != p[r2][c2]
    {
      if r1 == r2 {
        PatternRowDistinct(r1, c1, c2);
      } else if c1 == c2 {
        PatternColDistinct(r1, r2, c1);
      } else {
        PatternBlockDistinct(r1, c1, r2, c2);
      }
    }
  }

  /** The level-to-empty-count table of `removeCells`. */
  const LevelEmptyCounts: map<string, nat> :=
    map["easy" := 35, "medium" := 45, "hard" := 55, "expert" := 60, "master" := 64, "extreme" := 68]

  /** The number of cells to clear for a level; unknown levels clear 45. */
  function EmptyCount(level: string): (n: nat)
    ensures 35 <= n <= 68
    ensures level !in LevelEmptyCounts ==> n == 45
  {
    if level in LevelEmptyCounts then LevelEmptyCounts[level] else 45
  }

  /** The property names every plain JavaScript object inherits. Looking
      one of them up in the level table yields a function or an object,
      not `undefined`, so the `?? 45` fallback does not apply. */
  const InheritedNames: set<string> := {
    "constructor", "hasOwnProperty", "isPrototypeOf", "propertyIsEnumerable",
    "toLocaleString", "toString", "valueOf", "__proto__",
    "__defineGetter__", "__defineSetter__", "__lookupGetter__", "__lookupSetter__"}

  /** How many cells the clearing loop clears for a level, as the lookup is
      written. An inherited name makes `attempts` a non-number, and
      `attempts > 0` is then false before the first pick. The listed
      levels and every other string agree with `EmptyCount`. */
  function ClearedAsWritten(level: string): (n: nat)
    ensures level in InheritedNames ==> n == 0
    ensures level !in InheritedNames ==> n == EmptyCount(level)
  {
    if level in LevelEmptyCounts then LevelEmptyCounts[level]
    else if level in InheritedNames then 0
    else 45
  }

  /** The level "toString" clears nothing as written, while an unknown
      level is meant to clear 45 cells. */
  lemma InheritedLevelClearsNothing()
    ensures ClearedAsWritten("toString") == 0
    ensures EmptyCount("toString") == 45
  {
    assert "toString" !in LevelEmptyCounts;
  }

  /** The cells a pick sequence names. */
  function PickSet(picks: seq<Cell>): set<Cell> {
    set k | 0 <= k < |picks| :: picks[k]
  }

  lemma PickSetSnoc(picks: seq<Cell>, k: int)
    requires 0 <= k < |picks|
    ensures PickSet(picks[..k + 1]) == PickSet(picks[..k]) + {picks[k]}
  {
    var prefix, longer := picks[..k], picks[..k + 1];
    forall x | x in PickSet(longer) ensures x in PickSet(prefix) + {picks[k]} {
      var j :| 0 <= j < |longer| && longer[j] == x;
      if j < k {
        assert prefix[j] == x;
      }
    }
    forall x | x in PickSet(prefix) ensures x in PickSet(longer) {
      var j :| 0 <= j < |prefix| && prefix[j] == x;
      assert longer[j] == x;
    }
    assert longer[k] == picks[k];
  }

  lemma SubsetCardinality(a: set<Cell>, b: set<Cell>)
    requires a <= b
    ensures |a| <= |b|
  {
    assert b == a + (b - a);
  }

  /** `removeCells`: draw (row, col) picks and clear each one that is still
      filled, until `emptyCount` cells have been cleared. The cells cleared
      are the filled cells among the picks consumed so far; `done` is false
      exactly when the picks name fewer than `emptyCount` filled cells. */
  method RemoveCells(board: Board, emptyCount: nat, picks: seq<Cell>) returns (done: bool, puzzle: Board)
    requires IsGrid(board)
    requires forall k :: 0 <= k < |picks| ==> InRange(picks[k])
    ensures IsGrid(puzzle)
    ensures Clears(board, puzzle)
    ensures NonzeroCells(puzzle) <= NonzeroCells(board)
    ensures NonzeroCells(board) - NonzeroCells(puzzle) <= PickSet(picks)
    ensures done <==> |NonzeroCells(board) * PickSet(picks)| >= emptyCount
    ensures done ==> |NonzeroCells(puzzle)| == |NonzeroCells(board)| - emptyCount
    ensures !done ==> NonzeroCells(puzzle) == NonzeroCells(board) - PickSet(picks)
    ensures !done ==> |NonzeroCells(puzzle)| > |NonzeroCells(board)| - emptyCount
  {
    var attempts := emptyCount;
    puzzle := board;
    var k := 0;
    while attempts > 0 && k < |picks|
      invariant 0 <= k <= |picks|
      invariant IsGrid(puzzle) && Clears(board, puzzle)
      invariant NonzeroCells(puzzle) <= NonzeroCells(board)
      invariant NonzeroCells(board) - NonzeroCells(puzzle) == NonzeroCells(board) * PickSet(picks[..k])
      invariant |NonzeroCells(puzzle)| + (emptyCount - attempts) == |NonzeroCells(board)|
      invariant 0 <= attempts <= emptyCount
    {
      var row, col := picks[k].row, picks[k].col;
      var filledBefore := NonzeroCells(puzzle);
      PickSetSnoc(picks, k);
      if puzzle[row][col] != 0 {
        ClearShrinksNonzeroCells(puzzle, row, col);
        puzzle := Place(puzzle, row, col, 0);
        attempts := attempts - 1;
      } else {
        assert Cell(row, col) !in filledBefore;
        assert filledBefore == filledBefore - {Cell(row, col)};
      }
      ClearedStep(NonzeroCells(board), filledBefore, NonzeroCells(puzzle), picks[k], PickSet(picks[..k]));
      k := k + 1;
    }
    done := attempts == 0;
    ClearedCount(board, puzzle, picks, k);
  }

  /** Drawing one more pick adds it to the cleared cells when it was
      filled on the original board. */
  lemma ClearedStep(original: set<Cell>, current: set<Cell>, next: set<Cell>, pick: Cell, drawn: set<Cell>)
    requires current <= original && original - current == original * drawn
    requires next == current - {pick}
    ensures original - next == original * (drawn + {pick})
  {
    forall x | x in original - next ensures x in original * (drawn + {pick}) {
      if x != pick {
        assert x in original - current;
      }
    }
    forall x | x in original * (drawn + {pick}) ensures x in original - next {
      if x != pick {
        assert x in original - current;
      }
    }
  }

  lemma PrefixPicks(picks: seq<Cell>, k: int)
    requires 0 <= k <= |picks|
    ensures PickSet(picks[..k]) <= PickSet(picks)
    ensures k == |picks| ==> PickSet(picks[..k]) == PickSet(picks)
  {
    forall x | x in PickSet(picks[..k]) ensures x in PickSet(picks) {
      var j :| 0 <= j < k && picks[..k][j] == x;
      assert picks[j] == x;
    }
    if k == |picks| {
      assert picks[..k] == picks;
    }
  }

  lemma DifferenceCardinality(a: set<Cell>, b: set<Cell>)
    requires b <= a
    ensures |a - b| == |a| - |b|
  {
    assert a == b + (a - b);
  }

  /** The count of cleared cells against the filled cells the picks name:
      the cleared ones are those of the consumed prefix. */
  lemma ClearedCount(board: Board, puzzle: Board, picks: seq<Cell>, k: int)
    requires IsGrid(board) && IsGrid(puzzle) && 0 <= k <= |picks|
    requires NonzeroCells(puzzle) <= NonzeroCells(board)
    requires NonzeroCells(board) - NonzeroCells(puzzle) == NonzeroCells(board) * PickSet(picks[..k])
    ensures NonzeroCells(board) - NonzeroCells(puzzle) <= PickSet(picks)
    ensures |NonzeroCells(board) - NonzeroCells(puzzle)| == |NonzeroCells(board)| - |NonzeroCells(puzzle)|
    ensures |NonzeroCells(board) - NonzeroCells(puzzle)| <= |NonzeroCells(board) * PickSet(picks)|
    ensures k == |picks| ==> NonzeroCells(puzzle) == NonzeroCells(board) - PickSet(picks)
  {
    var before, after := NonzeroCells(board), NonzeroCells(puzzle);
    PrefixPicks(picks, k);
    DifferenceCardinality(before, after);
    SubsetCardinality(before - after, before * PickSet(picks));
  }

  /** Clearing cells of a consistent board keeps it consistent. */
  lemma ClearsKeepConsistent(g: Board, p: Board)
    requires IsGrid(g) && IsGrid(p) && Consistent(g) && Clears(g, p)
    ensures Consistent(p)
  {
    forall r1, c1, r2, c2 |
      0 <= r1 < 9 && 0 <= c1 < 9 && 0 <= r2 < 9 && 0 <= c2 < 9 &&
      (r1 != r2 || c1 != c2) && SameUnit(r1, c1, r2, c2) && p[r1][c1] != 0
      ensures p[r1][c1] != p[r2][c2]
    {
      assert g[r1][c1] != g[r2][c2];
    }
  }

  /** The fill step of `generateSudokuBoard`: from the empty board the
      backtracking search always succeeds, whatever the digit orders, and
      yields a valid solution. */
  method FillEmptyBoard(orders: seq<seq<int>>) returns (ok: bool, filled: Board)
    requires IsOrderTable(orders)
    ensures ok
    ensures Solved(filled)
  {
    var board := EmptyBoard();
    PatternSolved();
    ok, filled := FillBoard(board, orders);
  }

  /** In-range picks name cells of the grid. */
  lemma PicksInGrid(picks: seq<Cell>)
    requires forall k :: 0 <= k < |picks| ==> InRange(picks[k])
    ensures AllCells() * PickSet(picks) == PickSet(picks)
  {
    forall x | x in PickSet(picks) ensures x in AllCells() {
      var k :| 0 <= k < |picks| && picks[k] == x;
      assert x == Cell(x.row, x.col);
    }
  }

  /** `generateSudokuBoard`: fill the empty board, then clear the level's
      number of cells. `solution` is the filled board before clearing. */
  method GenerateSudokuBoard(orders: seq<seq<int>>, picks: seq<Cell>, level: string := "easy")
    returns (done: bool, puzzle: Board, ghost solution: Board)
    requires IsOrderTable(orders)
    requires forall k :: 0 <= k < |picks| ==> InRange(picks[k])
    ensures IsGrid(puzzle) && Digits(puzzle) && Consistent(puzzle)
    ensures Solved(solution) && Clears(solution, puzzle)
    ensures forall r, c :: 0 <= r < 9 && 0 <= c < 9 && puzzle[r][c] == 0 ==> Cell(r, c) in PickSet(picks)
    ensures done <==> |PickSet(picks)| >= EmptyCount(level)
    ensures done ==> |NonzeroCells(puzzle)| == 81 - EmptyCount(level)
    ensures !done ==> NonzeroCells(puzzle) == AllCells() - PickSet(picks)
    ensures !done ==> |NonzeroCells(puzzle)| > 81 - EmptyCount(level)
  {
    var _, filled := FillEmptyBoard(orders);
    FullHas81Cells(filled);
    PicksInGrid(picks);
    done, puzzle := RemoveCells(filled, EmptyCount(level), picks);
    ClearsKeepConsistent(filled, puzzle);
    solution := filled;
    forall r, c | 0 <= r < 9 && 0 <= c < 9 && puzzle[r][c] == 0
      ensures Cell(r, c) in PickSet(picks)
    {
      assert Cell(r, c) in NonzeroCells(filled) - NonzeroCells(puzzle);
    }
  }
}
