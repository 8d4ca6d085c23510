/** The region validators `getErrorRegions` and `getCorrectCells`. Each
    scans the nine rows, nine columns and nine 3x3 blocks, grouping the
    region's nonzero cells by value in a `seen` map. The conflict scan
    reports the cells of every group with more than one member. The
    completion scan reports the whole region when it has nine groups of one
    cell each. */
module Validator {
  import opened Grid

  /** A row, a column or a block, named as the scanning loops name it. */
  datatype Region = Row(i: int) | Col(j: int) | Block(blockRow: int, blockCol: int)

  predicate ValidRegion(rg: Region) {
    match rg
    case Row(i) => 0 <= i < 9
    case Col(j) => 0 <= j < 9
    case Block(br, bc) => 0 <= br < 3 && 0 <= bc < 3
  }

  predicate InRegion(rg: Region, c: Cell) {
    InRange(c) &&
    match rg
    case Row(i) => c.row == i
    case Col(j) => c.col == j
    case Block(br, bc) => c.row / 3 == br && c.col / 3 == bc
  }

  /** The block holding a cell. */
  function BlockOf(c: Cell): Region {
    Block(c.row / 3, c.col / 3)
  }

  function Value(g: Board, c: Cell): int
    requires IsGrid(g) && InRange(c)
  {
    g[c.row][c.col]
  }

  predicate Distinct(cs: seq<Cell>) {
    forall a, b :: 0 <= a < b < |cs| ==> cs[a] != cs[b]
  }

  predicate AllInRange(cs: seq<Cell>) {
    forall k :: 0 <= k < |cs| ==> InRange(cs[k])
  }

  /** The cells of a region in the order the loops visit them. */
  function Cells(rg: Region): (cs: seq<Cell>)
    requires ValidRegion(rg)
    ensures |cs| == 9 && Distinct(cs) && AllInRange(cs)
    ensures forall c :: c in cs <==> InRegion(rg, c)
  {
    var cs := match rg
      case Row(i) => seq(9, j => Cell(i, j))
      case Col(j) => seq(9, i => Cell(i, j))
      case Block(br, bc) => seq(9, k => Cell(br * 3 + k / 3, bc * 3 + k % 3));
    assert forall c :: InRegion(rg, c) ==> c == cs[CellIndex(rg, c)];
    cs
  }

  /** Where a cell of the region sits in the scan order. */
  function CellIndex(rg: Region, c: Cell): (k: int)
    requires InRegion(rg, c)
    ensures 0 <= k < 9
  {
    match rg
    case Row(_) => c.col
    case Col(_) => c.row
    case Block(_, _) => (c.row % 3) * 3 + c.col % 3
  }

  // ---------------------------------------------------------------------
  // Grouping by value: the `seen` map of the scans
  // ---------------------------------------------------------------------

  /** The cells of `cs`, in order, whose value is `v`. */
  function Filter(g: Board, cs: seq<Cell>, v: int): (f: seq<Cell>)
    requires IsGrid(g) && AllInRange(cs)
    ensures AllInRange(f)
    ensures forall c :: c in f <==> c in cs && Value(g, c) == v
    ensures Distinct(cs) ==> Distinct(f)
    decreases |cs|
  {
    if |cs| == 0 then []
    else
      var last := cs[|cs| - 1];
      var f := Filter(g, cs[..|cs| - 1], v);
      assert forall c :: c in cs <==> c in cs[..|cs| - 1] || c == last;
      if Value(g, last) == v then f + [last] else f
  }

  /** The `seen` map: each nonzero value of the region mapped to the cells
      holding it, in scan order. */
  function Group(g: Board, cs: seq<Cell>): (seen: map<int, seq<Cell>>)
    requires IsGrid(g) && AllInRange(cs)
    ensures forall v :: v in seen <==> v != 0 && Filter(g, cs, v) != []
    ensures forall v :: v in seen ==> seen[v] == Filter(g, cs, v)
    decreases |cs|
  {
    if |cs| == 0 then map[]
    else
      var last := cs[|cs| - 1];
      var seen := Group(g, cs[..|cs| - 1]);
      var v := Value(g, last);
      if v == 0 then seen
      else if v in seen then seen[v := seen[v] + [last]]
      else seen[v := [last]]
  }

  /** The conflict step: every cell of a group with more than one member. */
  function Duplicates(g: Board, cs: seq<Cell>): set<Cell>
    requires IsGrid(g) && AllInRange(cs)
  {
    var seen := Group(g, cs);
    set v, c | v in seen && |seen[v]| > 1 && c in seen[v] :: c
  }

  /** The completion step: nine groups of one cell each yield their cells. */
  function Completed(g: Board, cs: seq<Cell>): set<Cell>
    requires IsGrid(g) && AllInRange(cs)
  {
    var seen := Group(g, cs);
    if |seen| == 9 && forall v :: v in seen ==> |seen[v]| == 1
    then set v | v in seen :: seen[v][0]
    else {}
  }

  // ---------------------------------------------------------------------
  // Independent definitions of the two properties
  // ---------------------------------------------------------------------

  /** `c` holds a nonzero value that some other cell of `rg` also holds. */
  ghost predicate Conflicting(g: Board, rg: Region, c: Cell)
    requires IsGrid(g)
  {
    InRegion(rg, c) && Value(g, c) != 0 &&
    exists d :: InRegion(rg, d) && d != c && Value(g, d) == Value(g, c)
  }

  /** Every cell of `rg` is filled and no two of them hold the same value. */
  ghost predicate Filled(g: Board, rg: Region)
    requires IsGrid(g)
  {
    forall c, d :: InRegion(rg, c) && InRegion(rg, d) ==>
      Value(g, c) != 0 && (c != d ==> Value(g, c) != Value(g, d))
  }

  // ---------------------------------------------------------------------
  // The scans agree with the definitions
  // ---------------------------------------------------------------------

  /** A distinct sequence holding `c` has another member iff it is longer
      than one. */
  lemma OtherMember(f: seq<Cell>, c: Cell)
    requires Distinct(f) && c in f
    ensures |f| > 1 <==> exists d :: d in f && d != c
  {
    if |f| > 1 {
      if f[0] == c {
        assert f[1] in f && f[1] != c;
      } else {
        assert f[0] in f && f[0] != c;
      }
    }
  }

  lemma DuplicatesSpec(g: Board, rg: Region)
    requires IsGrid(g) && ValidRegion(rg)
    ensures forall c :: c in Duplicates(g, Cells(rg)) <==> Conflicting(g, rg, c)
  {
    var cs := Cells(rg);
    var seen := Group(g, cs);
    forall c
      ensures c in Duplicates(g, cs) <==> Conflicting(g, rg, c)
    {
      if c in Duplicates(g, cs) {
        var v :| v in seen && |seen[v]| > 1 && c in seen[v];
        OtherMember(seen[v], c);
      }
      if Conflicting(g, rg, c) {
        var v := Value(g, c);
        var d :| InRegion(rg, d) && d != c && Value(g, d) == v;
        assert v in seen by { assert c in Filter(g, cs, v); }
        OtherMember(seen[v], c);
        assert d in seen[v];
      }
    }
  }

  /** The nonzero values a sequence of cells holds. */
  function Values(g: Board, cs: seq<Cell>): set<int>
    requires IsGrid(g) && AllInRange(cs)
  {
    set c | c in cs && Value(g, c) != 0 :: Value(g, c)
  }

  /** All cells of `cs` are filled with pairwise different values. */
  predicate AllFilled(g: Board, cs: seq<Cell>)
    requires IsGrid(g) && AllInRange(cs)
  {
    forall c, d :: c in cs && d in cs ==> Value(g, c) != 0 && (c != d ==> Value(g, c) != Value(g, d))
  }

  lemma ValuesSnoc(g: Board, p: seq<Cell>, last: Cell)
    requires IsGrid(g) && AllInRange(p) && InRange(last)
    ensures AllInRange(p + [last])
    ensures Values(g, p + [last]) ==
      Values(g, p) + (if Value(g, last) != 0 then {Value(g, last)} else {})
  {
    assert forall c :: c in p + [last] <==> c in p || c == last;
  }

  lemma AllFilledSnoc(g: Board, p: seq<Cell>, last: Cell)
    requires IsGrid(g) && AllInRange(p) && InRange(last) && last !in p
    ensures AllInRange(p + [last])
    ensures AllFilled(g, p + [last]) <==>
      AllFilled(g, p) && Value(g, last) != 0 && Value(g, last) !in Values(g, p)
  {
    var cs := p + [last];
    assert forall c :: c in cs <==> c in p || c == last;
    var v := Value(g, last);
    if AllFilled(g, cs) {
      forall u | u in Values(g, p) ensures u != v {
        var c :| c in p && Value(g, c) != 0 && Value(g, c) == u;
        assert c in cs && last in cs;
      }
    }
    if AllFilled(g, p) && v != 0 && v !in Values(g, p) {
      forall c, d | c in cs && d in cs
        ensures Value(g, c) != 0 && (c != d ==> Value(g, c) != Value(g, d))
      {
        if c != d && c == last {
          assert Value(g, d) in Values(g, p);
        } else if c != d && d == last {
          assert Value(g, c) in Values(g, p);
        }
      }
    }
  }

  /** A sequence of distinct cells holds at most as many nonzero values as
      it has cells, and exactly that many iff all are filled and
      different. */
  lemma {:induction false} ValuesCount(g: Board, cs: seq<Cell>)
    requires IsGrid(g) && AllInRange(cs) && Distinct(cs)
    ensures |Values(g, cs)| <= |cs|
    ensures |Values(g, cs)| == |cs| <==> AllFilled(g, cs)
  {
    if |cs| > 0 {
      var p, last := cs[..|cs| - 1], cs[|cs| - 1];
      assert cs == p + [last];
      assert last !in p;
      ValuesCount(g, p);
      ValuesSnoc(g, p, last);
      AllFilledSnoc(g, p, last);
    }
  }

  lemma GroupKeys(g: Board, cs: seq<Cell>)
    requires IsGrid(g) && AllInRange(cs)
    ensures Group(g, cs).Keys == Values(g, cs)
  {
    var seen := Group(g, cs);
    forall v | v in Values(g, cs) ensures v in seen {
      var c :| c in cs && Value(g, c) != 0 && Value(g, c) == v;
      assert c in Filter(g, cs, v);
    }
    forall v | v in seen ensures v in Values(g, cs) {
      var c := Filter(g, cs, v)[0];
      assert c in Filter(g, cs, v);
    }
  }

  /** In a filled region each value is held by exactly one cell. */
  lemma FilterSingleton(g: Board, cs: seq<Cell>, c: Cell)
    requires IsGrid(g) && AllInRange(cs) && Distinct(cs) && AllFilled(g, cs) && c in cs
    ensures Filter(g, cs, Value(g, c)) == [c]
  {
    var f := Filter(g, cs, Value(g, c));
    OtherMember(f, c);
  }

  /** Nine groups, each a single cell of `cs`, yield exactly the cells. */
  lemma CompletedOfSingletons(g: Board, cs: seq<Cell>)
    requires IsGrid(g) && AllInRange(cs) && |Group(g, cs)| == 9
    requires forall c :: c in cs ==> Value(g, c) != 0 && Filter(g, cs, Value(g, c)) == [c]
    ensures forall c :: c in Completed(g, cs) <==> c in cs
  {
    var seen := Group(g, cs);
    SingletonGroups(g, cs);
    var yielded := set v | v in seen :: seen[v][0];
    assert Completed(g, cs) == yielded;
    forall c | c in cs ensures c in yielded {
      assert seen[Value(g, c)][0] == c;
    }
  }

  lemma SingletonGroups(g: Board, cs: seq<Cell>)
    requires IsGrid(g) && AllInRange(cs)
    requires forall c :: c in cs ==> Filter(g, cs, Value(g, c)) == [c]
    ensures forall v :: v in Group(g, cs) ==> |Group(g, cs)[v]| == 1 && Group(g, cs)[v][0] in cs
  {
    var seen := Group(g, cs);
    forall v | v in seen ensures |seen[v]| == 1 && seen[v][0] in cs {
      var c := Filter(g, cs, v)[0];
      assert c in Filter(g, cs, v);
    }
  }

  /** When all nine cells are filled with different values, every group
      is a single cell and the completion step yields all of them. */
  lemma CompletedWhenFilled(g: Board, cs: seq<Cell>)
    requires IsGrid(g) && AllInRange(cs) && Distinct(cs) && |cs| == 9
    requires AllFilled(g, cs)
    ensures forall c :: c in Completed(g, cs) <==> c in cs
  {
    var seen := Group(g, cs);
    GroupKeys(g, cs);
    ValuesCount(g, cs);
    assert |seen| == 9 by { assert |seen| == |seen.Keys|; }
    forall c | c in cs ensures Value(g, c) != 0 && Filter(g, cs, Value(g, c)) == [c] {
      FilterSingleton(g, cs, c);
    }
    CompletedOfSingletons(g, cs);
  }

  lemma CompletedWhenNotFilled(g: Board, cs: seq<Cell>)
    requires IsGrid(g) && AllInRange(cs) && Distinct(cs) && |cs| == 9
    requires !AllFilled(g, cs)
    ensures Completed(g, cs) == {}
  {
    var seen := Group(g, cs);
    GroupKeys(g, cs);
    ValuesCount(g, cs);
    assert |seen| == |seen.Keys|;
  }

  lemma CompletedSpec(g: Board, rg: Region)
    requires IsGrid(g) && ValidRegion(rg)
    ensures forall c :: c in Completed(g, Cells(rg)) <==> InRegion(rg, c) && Filled(g, rg)
  {
    var cs := Cells(rg);
    assert AllFilled(g, cs) <==> Filled(g, rg);
    if AllFilled(g, cs) {
      CompletedWhenFilled(g, cs);
    } else {
      CompletedWhenNotFilled(g, cs);
    }
  }

  // ---------------------------------------------------------------------
  // The two exported operations
  // ---------------------------------------------------------------------

  /** The conflicts of all rows. */
  function RowErrors(g: Board): (errs: set<Cell>)
    requires IsGrid(g)
    ensures forall c :: c in errs <==> Conflicting(g, Row(c.row), c)
  {
    var errs := set i, c | 0 <= i < 9 && c in Duplicates(g, Cells(Row(i))) :: c;
    forall c ensures c in errs <==> Conflicting(g, Row(c.row), c) {
      if c in errs {
        var i :| 0 <= i < 9 && c in Duplicates(g, Cells(Row(i)));
        DuplicatesSpec(g, Row(i));
      }
      if Conflicting(g, Row(c.row), c) {
        DuplicatesSpec(g, Row(c.row));
      }
    }
    errs
  }

  /** The conflicts of all columns. */
  function ColErrors(g: Board): (errs: set<Cell>)
    requires IsGrid(g)
    ensures forall c :: c in errs <==> Conflicting(g, Col(c.col), c)
  {
    var errs := set j, c | 0 <= j < 9 && c in Duplicates(g, Cells(Col(j))) :: c;
    forall c ensures c in errs <==> Conflicting(g, Col(c.col), c) {
      if c in errs {
        var j :| 0 <= j < 9 && c in Duplicates(g, Cells(Col(j)));
        DuplicatesSpec(g, Col(j));
      }
      if Conflicting(g, Col(c.col), c) {
        DuplicatesSpec(g, Col(c.col));
      }
    }
    errs
  }

  /** The conflict scan over the nine blocks, in loop order. */
  function BlockScan(g: Board): set<Cell>
    requires IsGrid(g)
  {
    set br, bc, c | 0 <= br < 3 && 0 <= bc < 3 && c in Duplicates(g, Cells(Block(br, bc))) :: c
  }

  lemma BlockScanSound(g: Board, c: Cell)
    requires IsGrid(g)
    ensures c in BlockScan(g) ==> Conflicting(g, BlockOf(c), c)
  {
    if c in BlockScan(g) {
      var br, bc :| 0 <= br < 3 && 0 <= bc < 3 && c in Duplicates(g, Cells(Block(br, bc)));
      DuplicatesSpec(g, Block(br, bc));
    }
  }

  lemma BlockScanComplete(g: Board, c: Cell)
    requires IsGrid(g) && Conflicting(g, BlockOf(c), c)
    ensures c in BlockScan(g)
  {
    var br, bc := c.row / 3, c.col / 3;
    DuplicatesSpec(g, Block(br, bc));
    assert 0 <= br < 3 && 0 <= bc < 3 && c in Duplicates(g, Cells(Block(br, bc)));
  }

  /** The conflicts of all blocks. */
  function BlockErrors(g: Board): (errs: set<Cell>)
    requires IsGrid(g)
    ensures forall c :: c in errs <==> Conflicting(g, BlockOf(c), c)
  {
    forall c ensures c in BlockScan(g) <==> Conflicting(g, BlockOf(c), c) {
      BlockScanSound(g, c);
      if Conflicting(g, BlockOf(c), c) {
        BlockScanComplete(g, c);
      }
    }
    BlockScan(g)
  }

  datatype ErrorRegions = ErrorRegions(rowErrors: set<Cell>, colErrors: set<Cell>, blockErrors: set<Cell>)

  /** `getErrorRegions`: the row, column and block conflicts, kept apart. */
  function GetErrorRegions(g: Board): (e: ErrorRegions)
    requires IsGrid(g)
    ensures forall c :: c in e.rowErrors <==> Conflicting(g, Row(c.row), c)
    ensures forall c :: c in e.colErrors <==> Conflicting(g, Col(c.col), c)
    ensures forall c :: c in e.blockErrors <==> Conflicting(g, BlockOf(c), c)
  {
    ErrorRegions(RowErrors(g), ColErrors(g), BlockErrors(g))
  }

  /** The cells of all completed rows. */
  function CorrectRows(g: Board): (cells: set<Cell>)
    requires IsGrid(g)
    ensures forall c :: c in cells <==> InRange(c) && Filled(g, Row(c.row))
  {
    var cells := set i, c | 0 <= i < 9 && c in Completed(g, Cells(Row(i))) :: c;
    forall c ensures c in cells <==> InRange(c) && Filled(g, Row(c.row)) {
      if c in cells {
        var i :| 0 <= i < 9 && c in Completed(g, Cells(Row(i)));
        CompletedSpec(g, Row(i));
        assert Row(i) == Row(c.row);
      }
      if InRange(c) && Filled(g, Row(c.row)) {
        CompletedSpec(g, Row(c.row));
        assert c in Completed(g, Cells(Row(c.row)));
      }
    }
    cells
  }

  /** The cells of all completed columns. */
  function CorrectCols(g: Board): (cells: set<Cell>)
    requires IsGrid(g)
    ensures forall c :: c in cells <==> InRange(c) && Filled(g, Col(c.col))
  {
    var cells := set j, c | 0 <= j < 9 && c in Completed(g, Cells(Col(j))) :: c;
    forall c ensures c in cells <==> InRange(c) && Filled(g, Col(c.col)) {
      if c in cells {
        var j :| 0 <= j < 9 && c in Completed(g, Cells(Col(j)));
        CompletedSpec(g, Col(j));
        assert Col(j) == Col(c.col);
      }
      if InRange(c) && Filled(g, Col(c.col)) {
        CompletedSpec(g, Col(c.col));
        assert c in Completed(g, Cells(Col(c.col)));
      }
    }
    cells
  }

  /** The cells of all completed blocks. */
  function CorrectBlocks(g: Board): (cells: set<Cell>)
    requires IsGrid(g)
    ensures forall c :: c in cells <==> InRange(c) && Filled(g, BlockOf(c))
  {
    var cells := set br, bc, c | 0 <= br < 3 && 0 <= bc < 3 && c in Completed(g, Cells(Block(br, bc))) :: c;
    forall c ensures c in cells <==> InRange(c) && Filled(g, BlockOf(c)) {
      if c in cells {
        var br, bc :| 0 <= br < 3 && 0 <= bc < 3 && c in Completed(g, Cells(Block(br, bc)));
        CompletedSpec(g, Block(br, bc));
        assert Block(br, bc) == BlockOf(c);
      }
      if InRange(c) && Filled(g, BlockOf(c)) {
        CompletedSpec(g, BlockOf(c));
        assert c in Completed(g, Cells(Block(c.row / 3, c.col / 3)));
      }
    }
    cells
  }

  /** `getCorrectCells`: every cell of a row, column or block that is
      filled with nine different values. */
  function GetCorrectCells(g: Board): (correct: set<Cell>)
    requires IsGrid(g)
    ensures forall c :: c in correct <==>
      InRange(c) && (Filled(g, Row(c.row)) || Filled(g, Col(c.col)) || Filled(g, BlockOf(c)))
  {
    CorrectRows(g) + CorrectCols(g) + CorrectBlocks(g)
  }
}
