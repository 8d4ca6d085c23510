/** Properties that tie the validators to the grid invariants the generator
    keeps, and the worked examples of the two validators. */
module Properties {
  import opened Grid
  import opened Validator

  /** Two cells of one region share a row, a column or a block. */
  lemma RegionIsUnit(rg: Region, c: Cell, d: Cell)
    requires InRegion(rg, c) && InRegion(rg, d)
    ensures SameUnit(c.row, c.col, d.row, d.col)
  {
  }

  /** A consistent board has no conflicting cell in any region. */
  lemma NoConflictWhenConsistent(g: Board, rg: Region, c: Cell)
    requires IsGrid(g) && Consistent(g)
    ensures !Conflicting(g, rg, c)
  {
    if Conflicting(g, rg, c) {
      var d :| InRegion(rg, d) && d != c && Value(g, d) == Value(g, c);
      RegionIsUnit(rg, c, d);
    }
  }

  /** A duplicate on the board is a conflict in a row, a column or a block. */
  lemma ConflictWhenInconsistent(g: Board)
    requires IsGrid(g) && !Consistent(g)
    ensures exists c: Cell :: Conflicting(g, Row(c.row), c) || Conflicting(g, Col(c.col), c) || Conflicting(g, BlockOf(c), c)
  {
    var r1, c1, r2, c2 :|
      0 <= r1 < 9 && 0 <= c1 < 9 && 0 <= r2 < 9 && 0 <= c2 < 9 &&
      (r1 != r2 || c1 != c2) && SameUnit(r1, c1, r2, c2) && g[r1][c1] != 0 &&
      g[r1][c1] == g[r2][c2];
    var c, d := Cell(r1, c1), Cell(r2, c2);
    assert Value(g, c) == Value(g, d);
    if r1 == r2 {
      assert InRegion(Row(c.row), d);
      assert Conflicting(g, Row(c.row), c);
    } else if c1 == c2 {
      assert InRegion(Col(c.col), d);
      assert Conflicting(g, Col(c.col), c);
    } else {
      assert InRegion(BlockOf(c), d);
      assert Conflicting(g, BlockOf(c), c);
    }
  }

  /** A board has no duplicate in any row, column or block exactly when
      all three conflict sets are empty. The generator's boards are
      consistent, so the validators report nothing on them. */
  lemma ConsistentIffNoErrors(g: Board)
    requires IsGrid(g)
    ensures Consistent(g) <==>
      GetErrorRegions(g).rowErrors == {} &&
      GetErrorRegions(g).colErrors == {} &&
      GetErrorRegions(g).blockErrors == {}
  {
    if Consistent(g) {
      ConsistentReportsNothing(g);
    } else {
      InconsistentReportsSomething(g);
    }
  }

  lemma ConsistentReportsNothing(g: Board)
    requires IsGrid(g) && Consistent(g)
    ensures GetErrorRegions(g) == ErrorRegions({}, {}, {})
  {
    var e := GetErrorRegions(g);
    forall c ensures c !in e.rowErrors && c !in e.colErrors && c !in e.blockErrors {
      NoConflictWhenConsistent(g, Row(c.row), c);
      NoConflictWhenConsistent(g, Col(c.col), c);
      NoConflictWhenConsistent(g, BlockOf(c), c);
    }
  }

  lemma InconsistentReportsSomething(g: Board)
    requires IsGrid(g) && !Consistent(g)
    ensures GetErrorRegions(g).rowErrors != {} || GetErrorRegions(g).colErrors != {} ||
      GetErrorRegions(g).blockErrors != {}
  {
    ConflictWhenInconsistent(g);
    var c: Cell :| Conflicting(g, Row(c.row), c) || Conflicting(g, Col(c.col), c) || Conflicting(g, BlockOf(c), c);
    if Conflicting(g, Row(c.row), c) {
      assert c in RowErrors(g);
    } else if Conflicting(g, Col(c.col), c) {
      assert c in ColErrors(g);
    } else {
      assert c in BlockErrors(g);
    }
  }

  /** Conflicts come in pairs: two different cells of one region holding the
      same nonzero value are both reported for that kind of region. */
  lemma ConflictsArePairs(g: Board, c: Cell, d: Cell)
    requires IsGrid(g) && InRange(c) && InRange(d) && c != d
    requires Value(g, c) != 0 && Value(g, c) == Value(g, d)
    ensures c.row == d.row ==> c in GetErrorRegions(g).rowErrors && d in GetErrorRegions(g).rowErrors
    ensures c.col == d.col ==> c in GetErrorRegions(g).colErrors && d in GetErrorRegions(g).colErrors
    ensures BlockOf(c) == BlockOf(d) ==> c in GetErrorRegions(g).blockErrors && d in GetErrorRegions(g).blockErrors
  {
    var e := GetErrorRegions(g);
    if c.row == d.row {
      assert InRegion(Row(c.row), d) && InRegion(Row(d.row), c);
    }
    if c.col == d.col {
      assert InRegion(Col(c.col), d) && InRegion(Col(d.col), c);
    }
    if BlockOf(c) == BlockOf(d) {
      assert InRegion(BlockOf(c), d) && InRegion(BlockOf(d), c);
    }
  }

  /** A region holding an empty cell is not filled. */
  lemma EmptyCellUnfilled(g: Board, rg: Region, c: Cell)
    requires IsGrid(g) && InRegion(rg, c) && Value(g, c) == 0
    ensures !Filled(g, rg)
  {
  }

  /** On the all-empty board nothing conflicts and nothing is complete. */
  lemma EmptyBoardReportsNothing()
    ensures GetErrorRegions(EmptyBoard()) == ErrorRegions({}, {}, {})
    ensures GetCorrectCells(EmptyBoard()) == {}
  {
    var g := EmptyBoard();
    ConsistentIffNoErrors(g);
    forall c | InRange(c) ensures c !in GetCorrectCells(g) {
      EmptyCellUnfilled(g, Row(c.row), c);
      EmptyCellUnfilled(g, Col(c.col), c);
      EmptyCellUnfilled(g, BlockOf(c), c);
    }
  }

  /** Every region of a valid solution is filled with different values. */
  lemma SolvedRegionFilled(g: Board, rg: Region)
    requires Solved(g)
    ensures Filled(g, rg)
  {
    forall a, b | InRegion(rg, a) && InRegion(rg, b)
      ensures Value(g, a) != 0 && (a != b ==> Value(g, a) != Value(g, b))
    {
      RegionIsUnit(rg, a, b);
    }
  }

  /** Every row, column and block of a valid solution is complete, so all
      81 cells are reported correct. */
  lemma SolvedBoardAllCorrect(g: Board)
    requires Solved(g)
    ensures GetCorrectCells(g) == AllCells()
  {
    var correct := GetCorrectCells(g);
    forall c | c in AllCells() ensures c in correct {
      SolvedRegionFilled(g, Row(c.row));
    }
    forall c | c in correct ensures c in AllCells() {
      assert c == Cell(c.row, c.col);
    }
  }

  /** The board of the first worked example: 1 at (0, 0) and (0, 1), all
      other cells empty. */
  predicate TwoOnes(g: Board)
    requires IsGrid(g)
  {
    g[0][0] == 1 && g[0][1] == 1 &&
    forall r, c :: 0 <= r < 9 && 0 <= c < 9 && (r != 0 || c >= 2) ==> g[r][c] == 0
  }

  /** On that board only the two ones can conflict, and they conflict in
      any region holding both. */
  lemma TwoOnesConflicts(g: Board, rg: Region, c: Cell)
    requires IsGrid(g) && TwoOnes(g)
    ensures Conflicting(g, rg, c) <==>
      (c == Cell(0, 0) || c == Cell(0, 1)) && InRegion(rg, Cell(0, 0)) && InRegion(rg, Cell(0, 1))
  {
    if Conflicting(g, rg, c) {
      var d :| InRegion(rg, d) && d != c && Value(g, d) == Value(g, c);
      assert g[c.row][c.col] != 0 && g[d.row][d.col] != 0;
    }
  }

  /** The two equal cells conflict in their row and, sharing block (0, 0),
      in their block as well; there is no column conflict. */
  lemma TwoOnesExample(g: Board)
    requires IsGrid(g) && TwoOnes(g)
    ensures GetErrorRegions(g).rowErrors == {Cell(0, 0), Cell(0, 1)}
    ensures GetErrorRegions(g).colErrors == {}
    ensures GetErrorRegions(g).blockErrors == {Cell(0, 0), Cell(0, 1)}
  {
    TwoOnesRows(g);
    TwoOnesCols(g);
    TwoOnesBlocks(g);
  }

  lemma TwoOnesRows(g: Board)
    requires IsGrid(g) && TwoOnes(g)
    ensures RowErrors(g) == {Cell(0, 0), Cell(0, 1)}
  {
    var pair := {Cell(0, 0), Cell(0, 1)};
    forall c ensures c in pair <==> Conflicting(g, Row(c.row), c) {
      TwoOnesConflicts(g, Row(c.row), c);
    }
    RowErrorsAre(g, pair);
  }

  lemma TwoOnesCols(g: Board)
    requires IsGrid(g) && TwoOnes(g)
    ensures ColErrors(g) == {}
  {
    forall c ensures c !in ColErrors(g) {
      TwoOnesConflicts(g, Col(c.col), c);
    }
  }

  lemma TwoOnesBlocks(g: Board)
    requires IsGrid(g) && TwoOnes(g)
    ensures BlockErrors(g) == {Cell(0, 0), Cell(0, 1)}
  {
    var pair := {Cell(0, 0), Cell(0, 1)};
    forall c ensures c in pair <==> Conflicting(g, BlockOf(c), c) {
      TwoOnesConflicts(g, BlockOf(c), c);
      if c in pair {
        assert BlockOf(c) == Block(0, 0);
      }
    }
    BlockErrorsAre(g, pair);
  }

  /** The row conflicts are exactly the set the independent definition
      describes. */
  lemma RowErrorsAre(g: Board, cells: set<Cell>)
    requires IsGrid(g)
    requires forall c :: c in cells <==> Conflicting(g, Row(c.row), c)
    ensures RowErrors(g) == cells
  {
    var errs := RowErrors(g);
    assert forall c :: c in errs <==> c in cells;
  }

  /** The block conflicts are exactly the set the independent definition
      describes. */
  lemma BlockErrorsAre(g: Board, cells: set<Cell>)
    requires IsGrid(g)
    requires forall c :: c in cells <==> Conflicting(g, BlockOf(c), c)
    ensures BlockErrors(g) == cells
  {
    var errs := BlockErrors(g);
    assert forall c :: c in errs <==> c in cells;
  }

  /** On that board no row, column or block is complete. */
  lemma TwoOnesNothingCorrect(g: Board)
    requires IsGrid(g) && TwoOnes(g)
    ensures GetCorrectCells(g) == {}
  {
    forall c | InRange(c) ensures c !in GetCorrectCells(g) {
      TwoOnesUnfilled(g, c);
    }
  }

  lemma TwoOnesUnfilled(g: Board, c: Cell)
    requires IsGrid(g) && TwoOnes(g) && InRange(c)
    ensures !Filled(g, Row(c.row)) && !Filled(g, Col(c.col)) && !Filled(g, BlockOf(c))
  {
    var br, bc := c.row / 3 * 3 + 2, c.col / 3 * 3 + 2;
    assert g[br][bc] == 0;
    EmptyCellUnfilled(g, Row(c.row), Cell(c.row, 8));
    EmptyCellUnfilled(g, Col(c.col), Cell(8, c.col));
    EmptyCellUnfilled(g, BlockOf(c), Cell(br, bc));
  }

  /** The board of the second worked example: the top-left block holds the
      digits 1..9 (3 * r + c + 1 at (r, c)), all other cells empty. */
  predicate OneBlock(g: Board)
    requires IsGrid(g)
  {
    forall r, c :: 0 <= r < 9 && 0 <= c < 9 ==>
      g[r][c] == if r < 3 && c < 3 then 3 * r + c + 1 else 0
  }

  lemma OneBlockFilled(g: Board)
    requires IsGrid(g) && OneBlock(g)
    ensures Filled(g, Block(0, 0))
  {
    forall a, b | InRegion(Block(0, 0), a) && InRegion(Block(0, 0), b)
      ensures Value(g, a) != 0 && (a != b ==> Value(g, a) != Value(g, b))
    {
      assert Value(g, a) == 3 * a.row + a.col + 1;
      assert Value(g, b) == 3 * b.row + b.col + 1;
    }
  }

  /** On that board the only complete region is block (0, 0). */
  lemma OneBlockOnlyBlock(g: Board, c: Cell)
    requires IsGrid(g) && OneBlock(g) && InRange(c)
    ensures !Filled(g, Row(c.row)) && !Filled(g, Col(c.col))
    ensures Filled(g, BlockOf(c)) <==> c.row < 3 && c.col < 3
  {
    EmptyCellUnfilled(g, Row(c.row), Cell(c.row, 8));
    EmptyCellUnfilled(g, Col(c.col), Cell(8, c.col));
    if c.row < 3 && c.col < 3 {
      OneBlockFilled(g);
      assert BlockOf(c) == Block(0, 0);
    } else {
      var br, bc := c.row / 3 * 3 + 2, c.col / 3 * 3 + 2;
      assert g[br][bc] == 0;
      EmptyCellUnfilled(g, BlockOf(c), Cell(br, bc));
    }
  }

  /** A block filled with nine different digits is reported complete, and
      nothing else is, since no row or column is full. */
  lemma OneBlockExample(g: Board)
    requires IsGrid(g) && OneBlock(g)
    ensures GetCorrectCells(g) == set r, c | 0 <= r < 3 && 0 <= c < 3 :: Cell(r, c)
  {
    var correct := GetCorrectCells(g);
    var block := set r, c | 0 <= r < 3 && 0 <= c < 3 :: Cell(r, c);
    forall x ensures x in correct <==> x in block {
      if InRange(x) {
        OneBlockOnlyBlock(g, x);
      }
      assert x == Cell(x.row, x.col);
    }
  }
}
