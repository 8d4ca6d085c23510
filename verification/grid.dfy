/** The 9x9 Sudoku grid shared by the board generator and the region
    validators: a sequence of nine rows of nine integers, where 0 marks an
    empty cell. Predicates quantify over row and column indices so that
    they speak about `g[r][c]` exactly as the code indexes the board. */
module Grid {

  type Board = seq<seq<int>>

  /** A cell coordinate; it stands for the `"row,col"` string keys. */
  datatype Cell = Cell(row: int, col: int)

  predicate IsGrid(g: Board) {
    |g| == 9 && forall r :: 0 <= r < 9 ==> |g[r]| == 9
  }

  predicate InRange(c: Cell) {
    0 <= c.row < 9 && 0 <= c.col < 9
  }

  /** The all-empty board the generator starts from. */
  function EmptyBoard(): (g: Board)
    ensures IsGrid(g)
    ensures forall r, c :: 0 <= r < 9 && 0 <= c < 9 ==> g[r][c] == 0
  {
    seq(9, _ => seq(9, _ => 0))
  }

  /** The board with one cell overwritten, as `board[row][col] = v` does. */
  function Place(g: Board, row: int, col: int, v: int): (g': Board)
    requires IsGrid(g) && 0 <= row < 9 && 0 <= col < 9
    ensures IsGrid(g')
    ensures g'[row][col] == v
    ensures forall r, c :: 0 <= r < 9 && 0 <= c < 9 && (r != row || c != col) ==> g'[r][c] == g[r][c]
  {
    g[row := g[row][col := v]]
  }

  /** Resetting a cell to 0 after writing into it restores an empty cell. */
  lemma PlaceUndone(g: Board, row: int, col: int, v: int)
    requires IsGrid(g) && 0 <= row < 9 && 0 <= col < 9 && g[row][col] == 0
    ensures Place(Place(g, row, col, v), row, col, 0) == g
  {
    var once := Place(g, row, col, v);
    assert once[row][col := 0] == g[row];
    assert g[row := g[row]] == g;
  }

  /** Two cells lie in the same 3x3 block. */
  predicate SameBlock(r1: int, c1: int, r2: int, c2: int) {
    r1 / 3 == r2 / 3 && c1 / 3 == c2 / 3
  }

  /** Two cells share a row, a column or a block. */
  predicate SameUnit(r1: int, c1: int, r2: int, c2: int) {
    r1 == r2 || c1 == c2 || SameBlock(r1, c1, r2, c2)
  }

  /** No row, column or block holds the same nonzero value twice. */
  predicate Consistent(g: Board)
    requires IsGrid(g)
  {
    forall r1, c1, r2, c2 ::
      0 <= r1 < 9 && 0 <= c1 < 9 && 0 <= r2 < 9 && 0 <= c2 < 9 &&
      (r1 != r2 || c1 != c2) && SameUnit(r1, c1, r2, c2) && g[r1][c1] != 0
      ==> g[r1][c1] != g[r2][c2]
  }

  /** Every cell is filled. */
  predicate Full(g: Board)
    requires IsGrid(g)
  {
    forall r, c :: 0 <= r < 9 && 0 <= c < 9 ==> g[r][c] != 0
  }

  /** Every cell holds 0 or a digit 1..9. */
  predicate Digits(g: Board)
    requires IsGrid(g)
  {
    forall r, c :: 0 <= r < 9 && 0 <= c < 9 ==> 0 <= g[r][c] <= 9
  }

  /** A completed, valid Sudoku solution. */
  predicate Solved(s: Board) {
    IsGrid(s) &&
    (forall r, c :: 0 <= r < 9 && 0 <= c < 9 ==> 1 <= s[r][c] <= 9) &&
    Consistent(s)
  }

  /** `s` keeps every nonzero cell of `g`. */
  predicate Extends(g: Board, s: Board)
    requires IsGrid(g) && IsGrid(s)
  {
    forall r, c :: 0 <= r < 9 && 0 <= c < 9 && g[r][c] != 0 ==> s[r][c] == g[r][c]
  }

  /** Every cell of `p` is either the cell of `g` or cleared to 0. */
  predicate Clears(g: Board, p: Board)
    requires IsGrid(g) && IsGrid(p)
  {
    forall r, c :: 0 <= r < 9 && 0 <= c < 9 ==> p[r][c] == g[r][c] || p[r][c] == 0
  }

  /** `s` is a valid solution that completes `g`. */
  predicate SolutionOf(g: Board, s: Board)
    requires IsGrid(g)
  {
    Solved(s) && Extends(g, s)
  }

  ghost predicate Solvable(g: Board)
    requires IsGrid(g)
  {
    exists s :: SolutionOf(g, s)
  }

  /** A board with a solution has no duplicates: its filled cells agree
      with the solution. */
  lemma SolutionOfIsConsistent(g: Board, s: Board)
    requires IsGrid(g) && SolutionOf(g, s)
    ensures Consistent(g)
  {
    forall r1, c1, r2, c2 |
      0 <= r1 < 9 && 0 <= c1 < 9 && 0 <= r2 < 9 && 0 <= c2 < 9 &&
      (r1 != r2 || c1 != c2) && SameUnit(r1, c1, r2, c2) && g[r1][c1] != 0
      ensures g[r1][c1] != g[r2][c2]
    {
      assert s[r1][c1] != s[r2][c2];
    }
  }

  function ZeroCells(g: Board): set<Cell>
    requires IsGrid(g)
  {
    set r, c | 0 <= r < 9 && 0 <= c < 9 && g[r][c] == 0 :: Cell(r, c)
  }

  function NonzeroCells(g: Board): set<Cell>
    requires IsGrid(g)
  {
    set r, c | 0 <= r < 9 && 0 <= c < 9 && g[r][c] != 0 :: Cell(r, c)
  }

  function AllCells(): set<Cell> {
    set r, c | 0 <= r < 9 && 0 <= c < 9 :: Cell(r, c)
  }

  /** Filling an empty cell removes exactly that cell from the empty ones. */
  lemma FillShrinksZeroCells(g: Board, row: int, col: int, v: int)
    requires IsGrid(g) && 0 <= row < 9 && 0 <= col < 9
    requires g[row][col] == 0 && v != 0
    ensures ZeroCells(Place(g, row, col, v)) == ZeroCells(g) - {Cell(row, col)}
    ensures ZeroCells(Place(g, row, col, v)) < ZeroCells(g)
  {
    var g' := Place(g, row, col, v);
    forall x | x in ZeroCells(g')
      ensures x in ZeroCells(g) - {Cell(row, col)}
    {
      assert g'[x.row][x.col] == 0;
    }
    forall x | x in ZeroCells(g) - {Cell(row, col)}
      ensures x in ZeroCells(g')
    {
      assert g'[x.row][x.col] == 0;
    }
    assert Cell(row, col) in ZeroCells(g);
  }

  /** Clearing a filled cell removes exactly that cell from the filled ones. */
  lemma ClearShrinksNonzeroCells(g: Board, row: int, col: int)
    requires IsGrid(g) && 0 <= row < 9 && 0 <= col < 9
    requires g[row][col] != 0
    ensures Cell(row, col) in NonzeroCells(g)
    ensures NonzeroCells(Place(g, row, col, 0)) == NonzeroCells(g) - {Cell(row, col)}
  {
    var g' := Place(g, row, col, 0);
    forall x | x in NonzeroCells(g')
      ensures x in NonzeroCells(g) - {Cell(row, col)}
    {
      assert g'[x.row][x.col] != 0;
    }
    forall x | x in NonzeroCells(g) - {Cell(row, col)}
      ensures x in NonzeroCells(g')
    {
      assert g'[x.row][x.col] != 0;
    }
  }

  /** The cells of rows 0..k-1. */
  function RowsBelow(k: int): set<Cell> {
    set r, c | 0 <= r < k && 0 <= r < 9 && 0 <= c < 9 :: Cell(r, c)
  }

  /** The first m cells of row r. */
  function RowPrefix(r: int, m: int): set<Cell> {
    set c | 0 <= c < m && 0 <= c < 9 :: Cell(r, c)
  }

  lemma {:induction false} RowPrefixCount(r: int, m: int)
    requires 0 <= m <= 9
    ensures |RowPrefix(r, m)| == m
  {
    if m > 0 {
      RowPrefixCount(r, m - 1);
      assert RowPrefix(r, m) == RowPrefix(r, m - 1) + {Cell(r, m - 1)};
    }
  }

  lemma {:induction false} RowsBelowCount(k: int)
    requires 0 <= k <= 9
    ensures |RowsBelow(k)| == 9 * k
  {
    if k > 0 {
      RowsBelowCount(k - 1);
      RowPrefixCount(k - 1, 9);
      assert RowsBelow(k) == RowsBelow(k - 1) + RowPrefix(k - 1, 9);
      assert RowsBelow(k - 1) * RowPrefix(k - 1, 9) == {};
    }
  }

  /** The grid has 81 cells; a full grid has 81 filled cells. */
  lemma FullHas81Cells(g: Board)
    requires IsGrid(g) && Full(g)
    ensures NonzeroCells(g) == AllCells()
    ensures |NonzeroCells(g)| == 81
  {
    RowsBelowCount(9);
    assert AllCells() == RowsBelow(9);
  }
}
