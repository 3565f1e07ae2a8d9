/** Table.getActualCellIndex of all.js: header cells laid out over an occupancy matrix. */
module HeaderLayout {
  import opened Basics

  datatype Cell = Cell(rowSpan: nat, colSpan: nat)

  /** Cell number `cell` of a row, placed with its top left slot at (row, col). */
  datatype Block = Block(row: nat, cell: nat, col: nat, rowSpan: nat, colSpan: nat)

  function OrOne(n: nat): nat { if n == 0 then 1 else n }

  predicate Covers(b: Block, r: nat, c: nat) {
    b.row <= r < b.row + b.rowSpan && b.col <= c < b.col + b.colSpan
  }

  ghost predicate Occupied(blocks: seq<Block>, r: nat, c: nat) {
    exists n: nat :: n < |blocks| && Covers(blocks[n], r, c)
  }

  /** Column c is free in row r and no column to its left is. */
  ghost predicate LeftmostFree(blocks: seq<Block>, r: nat, c: nat) {
    !Occupied(blocks, r, c) && forall k: nat | k < c :: Occupied(blocks, r, k)
  }

  predicate Earlier(a: Block, b: Block) { a.row < b.row || (a.row == b.row && a.cell < b.cell) }

  predicate Matches(rows: seq<seq<Cell>>, b: Block) {
    && b.row < |rows| && b.cell < |rows[b.row]|
    && b.rowSpan == OrOne(rows[b.row][b.cell].rowSpan) && b.colSpan == OrOne(rows[b.row][b.cell].colSpan)
  }

  /** The blocks of the rows above i and of the first j cells of row i, in document order. */
  ghost predicate LaidTo(rows: seq<seq<Cell>>, blocks: seq<Block>, i: nat, j: nat) {
    && (forall n: nat | n < |blocks| ::
      && Matches(rows, blocks[n]) && (blocks[n].row < i || (blocks[n].row == i && blocks[n].cell < j))
      && LeftmostFree(blocks[..n], blocks[n].row, blocks[n].col))
    && (forall m: nat, n: nat | m < n < |blocks| :: Earlier(blocks[m], blocks[n]))
    && (forall r: nat, c: nat | Visited(rows, r, c, i, j) :: Placed(blocks, r, c))
  }

  predicate Visited(rows: seq<seq<Cell>>, r: nat, c: nat, i: nat, j: nat) {
    r < |rows| && c < |rows[r]| && (r < i || (r == i && c < j))
  }

  ghost predicate Placed(blocks: seq<Block>, r: nat, c: nat) {
    exists n: nat :: n < |blocks| && blocks[n].row == r && blocks[n].cell == c
  }

  ghost predicate Laid(rows: seq<seq<Cell>>, blocks: seq<Block>) { LaidTo(rows, blocks, |rows|, 0) }

  type Indexes = map<(nat, nat), nat>

  /** The recorded column of each cell is the column of its block. */
  ghost predicate Recorded(indexes: Indexes, blocks: seq<Block>) {
    && (forall n: nat | n < |blocks| ::
      (blocks[n].row, blocks[n].cell) in indexes && indexes[(blocks[n].row, blocks[n].cell)] == blocks[n].col)
    && (forall k <- indexes :: exists n: nat :: n < |blocks| && (blocks[n].row, blocks[n].cell) == k)
  }

  // ---- The sparse matrix of the source: missing rows and holes are undefined.

  type Matrix = map<nat, seq<bool>>

  predicate Filled(matrix: Matrix, r: nat, c: nat) { r in matrix && c < |matrix[r]| && matrix[r][c] }

  function Mark(row: seq<bool>, c: nat): (r: seq<bool>)
    ensures forall k: nat :: (k < |r| && r[k]) <==> (k == c || (k < |row| && row[k]))
  {
    if c < |row| then row[c := true] else row + seq(c - |row|, k => false) + [true]
  }

  class Headers {
    var tableHeaderIndexes: map<string, Indexes>

    constructor ()
      ensures tableHeaderIndexes == map[]
    {
      tableHeaderIndexes := map[];
    }

    method GetActualCellIndex(tableId: string, rows: seq<seq<Cell>>, row: nat, cell: nat) returns (r: Option<nat>)
      modifies this
      ensures tableId in old(tableHeaderIndexes) ==> tableHeaderIndexes == old(tableHeaderIndexes)
      ensures tableId !in old(tableHeaderIndexes) ==>
        exists indexes: Indexes, blocks: seq<Block> ::
          && tableHeaderIndexes == old(tableHeaderIndexes)[tableId := indexes]
          && Laid(rows, blocks) && Recorded(indexes, blocks)
      ensures tableId in tableHeaderIndexes
      ensures r ==
        if (row, cell) in tableHeaderIndexes[tableId] then Some(tableHeaderIndexes[tableId][(row, cell)]) else None
    {
      if tableId !in tableHeaderIndexes {
        var indexes := BuildIndexes(rows);
        tableHeaderIndexes := tableHeaderIndexes[tableId := indexes];
      }
      var found := tableHeaderIndexes[tableId];
      r := if (row, cell) in found then Some(found[(row, cell)]) else None;
    }
  }

  method BuildIndexes(rows: seq<seq<Cell>>) returns (indexes: Indexes)
    ensures exists blocks: seq<Block> :: Laid(rows, blocks) && Recorded(indexes, blocks)
  {
    hide LeftmostFree, Occupied, LaidTo, Recorded, Filled, Mark, Matches, Earlier;
    var matrix: Matrix := map[];
    indexes := map[];
    ghost var blocks: seq<Block> := [];
    NothingLaid(rows);
    var i := 0;
    while i < |rows|
      invariant 0 <= i <= |rows|
      invariant LaidTo(rows, blocks, i, 0) && Recorded(indexes, blocks) && Shows(matrix, blocks)
    {
      var cells := rows[i];
      var j := 0;
      while j < |cells|
        invariant 0 <= j <= |cells|
        invariant LaidTo(rows, blocks, i, j) && Recorded(indexes, blocks) && Shows(matrix, blocks)
      {
        var c := cells[j];
        var rowSpan, colSpan := OrOne(c.rowSpan), OrOne(c.colSpan);
        if i !in matrix {
          EmptyRow(matrix, blocks, i);
          matrix := matrix[i := []];
        }
        var firstAvailCol := FirstFree(matrix[i]);
        FreeColumn(matrix, blocks, i, firstAvailCol);
        ghost var b := Block(i, j, firstAvailCol, rowSpan, colSpan);
        ghost var before := matrix;
        matrix := FillBlock(matrix, i, firstAvailCol, rowSpan, colSpan);
        BlockIs(rows, b);
        AddBlock(rows, blocks, i, j, indexes, b, before, matrix);
        indexes := indexes[(i, j) := firstAvailCol];
        blocks := blocks + [b];
        j := j + 1;
      }
      NextRow(rows, blocks, i);
      i := i + 1;
    }
  }

  /** The scan for the first undefined entry, which exists within one past the end. */
  method FirstFree(m: seq<bool>) returns (col: nat)
    ensures col <= |m| && (col < |m| ==> !m[col]) && forall k: nat | k < col :: m[k]
  {
    col := 0;
    while col < |m| + 1
      invariant 0 <= col <= |m| && forall k: nat | k < col :: m[k]
    {
      if !(col < |m| && m[col]) {
        break;
      }
      col := col + 1;
    }
  }

  method FillBlock(matrix0: Matrix, row: nat, col: nat, rowSpan: nat, colSpan: nat) returns (matrix: Matrix)
    ensures forall r: nat, c: nat :: Filled(matrix, r, c) <==>
      Filled(matrix0, r, c) || (row <= r < row + rowSpan && col <= c < col + colSpan)
  {
    matrix := matrix0;
    var k := row;
    while k < row + rowSpan
      invariant row <= k <= row + rowSpan
      invariant forall r: nat, c: nat :: Filled(matrix, r, c) <==>
        Filled(matrix0, r, c) || (row <= r < k && col <= c < col + colSpan)
    {
      ghost var top := matrix;
      if k !in matrix {
        matrix := matrix[k := []];
      }
      forall r: nat, c: nat
        ensures Filled(matrix, r, c) <==> Filled(top, r, c)
      {
      }
      var matrixrow := matrix[k];
      ghost var start := matrix;
      var l := col;
      while l < col + colSpan
        invariant col <= l <= col + colSpan && matrix == start && k in start
        invariant forall c: nat :: (c < |matrixrow| && matrixrow[c]) <==> Filled(start, k, c) || col <= c < l
      {
        matrixrow := Mark(matrixrow, l);
        l := l + 1;
      }
      matrix := matrix[k := matrixrow];
      forall r: nat, c: nat
        ensures Filled(matrix, r, c) <==>
          Filled(matrix0, r, c) || (row <= r < k + 1 && col <= c < col + colSpan)
      {
        SetRow(start, k, matrixrow, r, c);
        assert (c < |matrixrow| && matrixrow[c]) <==> Filled(start, k, c) || col <= c < col + colSpan;
        assert Filled(start, r, c) <==> Filled(top, r, c);
      }
      k := k + 1;
    }
  }

  lemma SetRow(matrix: Matrix, k: nat, row: seq<bool>, r: nat, c: nat)
    ensures Filled(matrix[k := row], r, c) <==> if r == k then c < |row| && row[c] else Filled(matrix, r, c)
  {
  }

  /** The matrix marks exactly the slots of the blocks. */
  ghost predicate Shows(matrix: Matrix, blocks: seq<Block>) {
    forall r: nat, c: nat :: Filled(matrix, r, c) <==> Occupied(blocks, r, c)
  }

  lemma NothingLaid(rows: seq<seq<Cell>>)
    ensures LaidTo(rows, [], 0, 0) && Recorded(map[], []) && Shows(map[], [])
  {
  }

  lemma EmptyRow(matrix: Matrix, blocks: seq<Block>, i: nat)
    requires Shows(matrix, blocks) && i !in matrix
    ensures Shows(matrix[i := []], blocks)
  {
    hide Occupied;
    forall r: nat, c: nat
      ensures Filled(matrix[i := []], r, c) == Filled(matrix, r, c)
    {
    }
  }

  lemma FreeColumn(matrix: Matrix, blocks: seq<Block>, i: nat, col: nat)
    requires Shows(matrix, blocks) && i in matrix && col <= |matrix[i]|
    requires (col < |matrix[i]| ==> !matrix[i][col]) && forall k: nat | k < col :: matrix[i][k]
    ensures LeftmostFree(blocks, i, col)
  {
    hide Occupied;
    assert !Filled(matrix, i, col);
    forall k: nat | k < col
      ensures Occupied(blocks, i, k)
    {
      assert Filled(matrix, i, k);
    }
  }

  lemma AddBlock(rows: seq<seq<Cell>>, blocks: seq<Block>, i: nat, j: nat, indexes: Indexes, b: Block,
        before: Matrix, after: Matrix)
    requires i < |rows| && j < |rows[i]|
    requires LaidTo(rows, blocks, i, j) && Shows(before, blocks) && Recorded(indexes, blocks)
    requires Matches(rows, b) && b.row == i && b.cell == j && LeftmostFree(blocks, i, b.col)
    requires forall r: nat, c: nat :: Filled(after, r, c) <==> Filled(before, r, c) || Covers(b, r, c)
    ensures LaidTo(rows, blocks + [b], i, j + 1) && Shows(after, blocks + [b])
    ensures Recorded(indexes[(i, j) := b.col], blocks + [b])
  {
    hide Shows, Recorded, LaidTo, Matches, LeftmostFree, Covers, Filled;
    AddToLaid(rows, blocks, i, j, b);
    AddToRecorded(rows, blocks, i, j, indexes, b);
    AddToShown(blocks, b, before, after);
  }

  lemma AddToShown(blocks: seq<Block>, b: Block, before: Matrix, after: Matrix)
    requires Shows(before, blocks)
    requires forall r: nat, c: nat :: Filled(after, r, c) <==> Filled(before, r, c) || Covers(b, r, c)
    ensures Shows(after, blocks + [b])
  {
    hide Covers, Filled;
    forall r: nat, c: nat
      ensures Filled(after, r, c) <==> Occupied(blocks + [b], r, c)
    {
      OccupiedAdd(blocks, b, r, c);
    }
  }

  lemma OccupiedAdd(blocks: seq<Block>, b: Block, r: nat, c: nat)
    ensures Occupied(blocks + [b], r, c) <==> Occupied(blocks, r, c) || Covers(b, r, c)
  {
    hide Covers;
    var all := blocks + [b];
    assert all[|blocks|] == b;
    if Occupied(blocks, r, c) {
      var n: nat :| n < |blocks| && Covers(blocks[n], r, c);
      assert all[n] == blocks[n];
    }
  }

  lemma AddToLaid(rows: seq<seq<Cell>>, blocks: seq<Block>, i: nat, j: nat, b: Block)
    requires i < |rows| && j < |rows[i]| && LaidTo(rows, blocks, i, j)
    requires Matches(rows, b) && b.row == i && b.cell == j && LeftmostFree(blocks, i, b.col)
    ensures LaidTo(rows, blocks + [b], i, j + 1)
  {
    hide Matches, LeftmostFree;
    var all := blocks + [b];
    forall n: nat | n < |all|
      ensures Matches(rows, all[n]) && (all[n].row < i || (all[n].row == i && all[n].cell < j + 1))
      ensures LeftmostFree(all[..n], all[n].row, all[n].col)
    {
      if n < |blocks| {
        assert all[n] == blocks[n] && all[..n] == blocks[..n];
      } else {
        assert all[..n] == blocks;
      }
    }
    forall r: nat, c: nat | Visited(rows, r, c, i, j + 1)
      ensures Placed(all, r, c)
    {
      if r == i && c == j {
        assert all[|blocks|] == b;
      } else {
        assert Visited(rows, r, c, i, j);
        var n: nat :| n < |blocks| && blocks[n].row == r && blocks[n].cell == c;
        assert all[n] == blocks[n];
      }
    }
  }

  lemma AddToRecorded(rows: seq<seq<Cell>>, blocks: seq<Block>, i: nat, j: nat, indexes: Indexes, b: Block)
    requires LaidTo(rows, blocks, i, j) && Recorded(indexes, blocks) && b.row == i && b.cell == j
    ensures Recorded(indexes[(i, j) := b.col], blocks + [b])
  {
    hide Matches, LeftmostFree;
    var all, now := blocks + [b], indexes[(i, j) := b.col];
    forall n: nat | n < |all|
      ensures (all[n].row, all[n].cell) in now && now[(all[n].row, all[n].cell)] == all[n].col
    {
      if n < |blocks| {
        assert all[n] == blocks[n] && blocks[n].row <= i;
      }
    }
    forall k <- now
      ensures exists n: nat :: n < |all| && (all[n].row, all[n].cell) == k
    {
      if k == (i, j) {
        assert all[|blocks|] == b;
      } else {
        var n: nat :| n < |blocks| && (blocks[n].row, blocks[n].cell) == k;
        assert all[n] == blocks[n];
      }
    }
  }

  lemma BlockIs(rows: seq<seq<Cell>>, b: Block)
    ensures Matches(rows, b) <==>
      && b.row < |rows| && b.cell < |rows[b.row]|
      && b.rowSpan == OrOne(rows[b.row][b.cell].rowSpan) && b.colSpan == OrOne(rows[b.row][b.cell].colSpan)
  {
  }

  lemma NextRow(rows: seq<seq<Cell>>, blocks: seq<Block>, i: nat)
    requires i < |rows| && LaidTo(rows, blocks, i, |rows[i]|)
    ensures LaidTo(rows, blocks, i + 1, 0)
  {
    hide LeftmostFree, Matches;
    forall r: nat, c: nat | Visited(rows, r, c, i + 1, 0)
      ensures Placed(blocks, r, c)
    {
      assert Visited(rows, r, c, i, |rows[i]|);
    }
  }

  // ---- What the layout guarantees, whatever the spans.

  ghost predicate Overlap(a: Block, b: Block) {
    exists r: nat, c: nat :: Covers(a, r, c) && Covers(b, r, c)
  }

  ghost predicate OverlapInRow(a: Block, b: Block, r: nat) {
    exists c: nat :: Covers(a, r, c) && Covers(b, r, c)
  }

  lemma SpansPositive(rows: seq<seq<Cell>>, blocks: seq<Block>, n: nat)
    requires Laid(rows, blocks) && n < |blocks|
    ensures blocks[n].rowSpan >= 1 && blocks[n].colSpan >= 1 && blocks[n].row < |rows|
    ensures LeftmostFree(blocks[..n], blocks[n].row, blocks[n].col)
  {
    hide LeftmostFree;
    assert Matches(rows, blocks[n]);
  }

  /** No block of an earlier cell covers the slot in which a cell is anchored. */
  lemma AnchorIsFree(rows: seq<seq<Cell>>, blocks: seq<Block>, m: nat, n: nat)
    requires Laid(rows, blocks) && m < n < |blocks|
    ensures !Covers(blocks[m], blocks[n].row, blocks[n].col)
    ensures (blocks[m].row, blocks[m].col) != (blocks[n].row, blocks[n].col)
  {
    hide Laid;
    SpansPositive(rows, blocks, m);
    SpansPositive(rows, blocks, n);
    assert blocks[..n][m] == blocks[m];
  }

  /** Columns strictly increase along a row, past the whole span of every cell before. */
  lemma ColumnsIncrease(rows: seq<seq<Cell>>, blocks: seq<Block>, m: nat, n: nat)
    requires Laid(rows, blocks) && m < n < |blocks| && blocks[m].row == blocks[n].row
    ensures blocks[m].col + blocks[m].colSpan <= blocks[n].col
  {
    hide Laid;
    SpansPositive(rows, blocks, m);
    SpansPositive(rows, blocks, n);
    AnchorIsFree(rows, blocks, m, n);
    if blocks[n].col < blocks[m].col {
      OccupiedMore(blocks, m, n, blocks[n].row, blocks[n].col);
    }
  }

  lemma OccupiedMore(blocks: seq<Block>, m: nat, n: nat, r: nat, c: nat)
    requires m <= n <= |blocks| && Occupied(blocks[..m], r, c)
    ensures Occupied(blocks[..n], r, c)
  {
    var k: nat :| k < m && Covers(blocks[..m][k], r, c);
    assert blocks[..n][k] == blocks[..m][k];
  }

  lemma RowsAscend(rows: seq<seq<Cell>>, blocks: seq<Block>, m: nat, n: nat)
    requires Laid(rows, blocks) && m < n < |blocks|
    ensures blocks[m].row <= blocks[n].row
  {
    assert Earlier(blocks[m], blocks[n]);
  }

  /** The columns that the colspans of the first n cells take up, where a missing or zero span counts as 1. */
  function Spanned(cells: seq<Cell>, n: nat): nat
    requires n <= |cells|
  {
    if n == 0 then 0
    else Spanned(cells, n - 1) + (if cells[n - 1].colSpan == 0 then 1 else cells[n - 1].colSpan)
  }

  /** In a header of one row every cell starts where the colspans of the cells before it end. */
  lemma {:induction false} OneRowColumns(cells: seq<Cell>, blocks: seq<Block>, n: nat)
    requires Laid([cells], blocks) && n < |blocks|
    ensures blocks[n].row == 0 && blocks[n].cell == n < |cells| == |blocks| && blocks[n].col == Spanned(cells, n)
  {
    hide Laid, Spanned;
    OneRowLaid(cells, blocks);
    SpansPositive([cells], blocks, n);
    if n > 0 {
      OneRowColumns(cells, blocks, n - 1);
      ColumnsIncrease([cells], blocks, n - 1, n);
      SpanOf([cells], blocks, n - 1);
      SpannedNext(cells, n - 1);
      var c := blocks[n - 1].col + blocks[n - 1].colSpan;
      if c < blocks[n].col {
        assert Occupied(blocks[..n], 0, c);
        var k: nat :| k < n && Covers(blocks[..n][k], 0, c);
        assert blocks[..n][k] == blocks[k];
        if k < n - 1 {
          ColumnsIncrease([cells], blocks, k, n - 1);
        }
      }
    } else {
      SpannedNone(cells);
      assert blocks[..0] == [] && !Occupied([], 0, 0);
    }
  }

  lemma SpannedNone(cells: seq<Cell>)
    ensures Spanned(cells, 0) == 0
  {
  }

  lemma SpannedNext(cells: seq<Cell>, n: nat)
    requires n < |cells|
    ensures Spanned(cells, n + 1) == Spanned(cells, n) + (if cells[n].colSpan == 0 then 1 else cells[n].colSpan)
  {
  }

  /** The spans of a block are those of its cell. */
  lemma SpanOf(rows: seq<seq<Cell>>, blocks: seq<Block>, n: nat)
    requires Laid(rows, blocks) && n < |blocks|
    ensures var b := blocks[n];
      && b.row < |rows| && b.cell < |rows[b.row]|
      && var c := rows[b.row][b.cell];
         && b.rowSpan == (if c.rowSpan == 0 then 1 else c.rowSpan)
         && b.colSpan == (if c.colSpan == 0 then 1 else c.colSpan)
  {
    hide LeftmostFree;
    assert Matches(rows, blocks[n]);
  }

  lemma OneRowLaid(cells: seq<Cell>, blocks: seq<Block>)
    requires Laid([cells], blocks)
    ensures |blocks| == |cells| && forall n: nat | n < |blocks| :: blocks[n].row == 0 && blocks[n].cell == n
  {
    hide LeftmostFree;
    forall n: nat | n < |blocks|
      ensures blocks[n].row == 0 && blocks[n].cell == n < |cells|
    {
      OneRowCell(cells, blocks, n);
    }
    if blocks != [] {
      OneRowCell(cells, blocks, |blocks| - 1);
    }
    assert Visited([cells], 0, |blocks|, 1, 0) ==> Placed(blocks, 0, |blocks|);
  }

  lemma {:induction false} OneRowCell(cells: seq<Cell>, blocks: seq<Block>, n: nat)
    requires Laid([cells], blocks) && n < |blocks|
    ensures blocks[n].row == 0 && blocks[n].cell == n < |cells|
  {
    hide LeftmostFree;
    assert Matches([cells], blocks[n]);
    if n > 0 {
      OneRowCell(cells, blocks, n - 1);
      assert Earlier(blocks[n - 1], blocks[n]);
    }
    assert Visited([cells], 0, n, 1, 0) && Placed(blocks, 0, n);
    var k: nat :| k < |blocks| && blocks[k].row == 0 && blocks[k].cell == n;
    if k < n {
      OneRowCell(cells, blocks, k);
    }
  }

  /** A cell keeps clear of every earlier cell whose rowspan reaches its row. */
  lemma SpansKeepClear(rows: seq<seq<Cell>>, blocks: seq<Block>, m: nat, n: nat)
    requires Laid(rows, blocks) && m < n < |blocks|
    ensures var a, b := blocks[m], blocks[n];
      && a.row <= b.row && a.row < |rows| && a.cell < |rows[a.row]|
      && var c := rows[a.row][a.cell];
         b.row < a.row + (if c.rowSpan == 0 then 1 else c.rowSpan) ==>
           b.col < a.col || b.col >= a.col + (if c.colSpan == 0 then 1 else c.colSpan)
  {
    hide Laid;
    AnchorIsFree(rows, blocks, m, n);
    RowsAscend(rows, blocks, m, n);
    SpanOf(rows, blocks, m);
  }

  /** Two blocks overlap exactly when they do in the anchor row of the later cell. */
  lemma OverlapShowsInAnchorRow(rows: seq<seq<Cell>>, blocks: seq<Block>, m: nat, n: nat)
    requires Laid(rows, blocks) && m < n < |blocks|
    ensures Overlap(blocks[m], blocks[n]) <==> OverlapInRow(blocks[m], blocks[n], blocks[n].row)
  {
    hide Laid;
    RowsAscend(rows, blocks, m, n);
    SpansPositive(rows, blocks, n);
    if Overlap(blocks[m], blocks[n]) {
      var r: nat, c: nat :| Covers(blocks[m], r, c) && Covers(blocks[n], r, c);
      assert Covers(blocks[m], blocks[n].row, c) && Covers(blocks[n], blocks[n].row, c);
    }
  }

  /** The free run that a cell found is as wide as the cell. */
  ghost predicate FitsWhere(blocks: seq<Block>, n: nat)
    requires n < |blocks|
  {
    forall c: nat | blocks[n].col <= c < blocks[n].col + blocks[n].colSpan :: !Occupied(blocks[..n], blocks[n].row, c)
  }

  /** A cell's block is disjoint from all earlier ones exactly when it fits its free run. */
  lemma DisjointIffFits(rows: seq<seq<Cell>>, blocks: seq<Block>, n: nat)
    requires Laid(rows, blocks) && n < |blocks|
    ensures FitsWhere(blocks, n) <==> forall m: nat | m < n :: !Overlap(blocks[m], blocks[n])
  {
    hide Laid;
    SpansPositive(rows, blocks, n);
    var b := blocks[n];
    forall m: nat | m < n
      ensures Overlap(blocks[m], b) ==> !FitsWhere(blocks, n)
    {
      if Overlap(blocks[m], b) {
        OverlapShowsInAnchorRow(rows, blocks, m, n);
        var c: nat :| Covers(blocks[m], b.row, c) && Covers(b, b.row, c);
        assert blocks[..n][m] == blocks[m];
        assert Occupied(blocks[..n], b.row, c);
      }
    }
    if !FitsWhere(blocks, n) {
      var c: nat :| b.col <= c < b.col + b.colSpan && Occupied(blocks[..n], b.row, c);
      var m: nat :| m < n && Covers(blocks[..n][m], b.row, c);
      assert Covers(blocks[m], b.row, c) && Covers(b, b.row, c);
    }
  }

  lemma UnitColumnsDisjoint(rows: seq<seq<Cell>>, blocks: seq<Block>)
    requires Laid(rows, blocks) && forall n: nat | n < |blocks| :: blocks[n].colSpan == 1
    ensures forall m: nat, n: nat | m < n < |blocks| :: !Overlap(blocks[m], blocks[n])
  {
    hide Laid, Overlap;
    forall m: nat, n: nat | m < n < |blocks|
      ensures !Overlap(blocks[m], blocks[n])
    {
      SpansPositive(rows, blocks, n);
      assert FitsWhere(blocks, n);
      DisjointIffFits(rows, blocks, n);
    }
  }

  // ---- There is one layout.

  lemma PlacedIn(rows: seq<seq<Cell>>, p: seq<Block>, q: seq<Block>, n: nat) returns (k: nat)
    requires Laid(rows, p) && Laid(rows, q) && n < |p|
    ensures k < |q| && q[k].row == p[n].row && q[k].cell == p[n].cell
  {
    hide LeftmostFree;
    assert Matches(rows, p[n]);
    assert Visited(rows, p[n].row, p[n].cell, |rows|, 0);
    assert Placed(q, p[n].row, p[n].cell);
    k :| k < |q| && q[k].row == p[n].row && q[k].cell == p[n].cell;
  }

  lemma InOrder(rows: seq<seq<Cell>>, blocks: seq<Block>, m: nat, n: nat)
    requires Laid(rows, blocks) && m < n < |blocks|
    ensures Earlier(blocks[m], blocks[n])
  {
  }

  /** Behind a common beginning, block n of q is no later than block n of p. */
  lemma NextNoLater(rows: seq<seq<Cell>>, p: seq<Block>, q: seq<Block>, n: nat)
    requires Laid(rows, p) && Laid(rows, q) && n < |p| && n <= |q| && p[..n] == q[..n]
    ensures n < |q| && !Earlier(p[n], q[n])
  {
    hide Laid;
    var k := PlacedIn(rows, p, q, n);
    if k < n {
      assert p[..n][k] == q[..n][k];
      InOrder(rows, p, k, n);
    } else if n < k {
      InOrder(rows, q, n, k);
    }
  }

  lemma OneLeftmost(blocks: seq<Block>, r: nat, c: nat, d: nat)
    requires LeftmostFree(blocks, r, c) && LeftmostFree(blocks, r, d)
    ensures c == d
  {
  }

  lemma {:induction false} SameBeginning(rows: seq<seq<Cell>>, p: seq<Block>, q: seq<Block>, n: nat)
    requires Laid(rows, p) && Laid(rows, q) && n <= |p|
    ensures n <= |q| && p[..n] == q[..n]
  {
    hide Laid, LeftmostFree, Matches;
    if n > 0 {
      var m := n - 1;
      SameBeginning(rows, p, q, m);
      NextNoLater(rows, p, q, m);
      NextNoLater(rows, q, p, m);
      BlockAt(rows, p, m);
      BlockAt(rows, q, m);
      OneLeftmost(p[..m], p[m].row, p[m].col, q[m].col);
      assert p[..n] == p[..m] + [p[m]] && q[..n] == q[..m] + [q[m]];
    }
  }

  lemma BlockAt(rows: seq<seq<Cell>>, blocks: seq<Block>, n: nat)
    requires Laid(rows, blocks) && n < |blocks|
    ensures var b := blocks[n];
      && b.row < |rows| && b.cell < |rows[b.row]| && LeftmostFree(blocks[..n], b.row, b.col)
      && b.rowSpan == OrOne(rows[b.row][b.cell].rowSpan) && b.colSpan == OrOne(rows[b.row][b.cell].colSpan)
  {
    hide LeftmostFree;
    assert Matches(rows, blocks[n]);
  }

  /** A header has one layout, so what the loops record is determined by the spans. */
  lemma LaidUnique(rows: seq<seq<Cell>>, p: seq<Block>, q: seq<Block>)
    requires Laid(rows, p) && Laid(rows, q)
    ensures p == q
  {
    hide Laid;
    SameBeginning(rows, p, q, |p|);
    SameBeginning(rows, q, p, |q|);
    assert p[..|p|] == p && q[..|q|] == q;
  }

  lemma RecordedUnique(blocks: seq<Block>, i: Indexes, j: Indexes)
    requires Recorded(i, blocks) && Recorded(j, blocks)
    ensures i == j
  {
    forall k | k in i
      ensures k in j && i[k] == j[k]
    {
      var n: nat :| n < |blocks| && (blocks[n].row, blocks[n].cell) == k;
    }
    forall k | k in j
      ensures k in i
    {
      var n: nat :| n < |blocks| && (blocks[n].row, blocks[n].cell) == k;
    }
  }

  /** A wide cell under a tall one: the layout does overlap them. */
  lemma WideCellOverlaps(rows: seq<seq<Cell>>, blocks: seq<Block>)
    requires rows == [[Cell(1, 1), Cell(2, 1)], [Cell(1, 2)]]
    requires blocks == [Block(0, 0, 0, 1, 1), Block(0, 1, 1, 2, 1), Block(1, 0, 0, 1, 2)]
    ensures Laid(rows, blocks) && Overlap(blocks[1], blocks[2])
  {
    assert Covers(blocks[1], 1, 1) && Covers(blocks[2], 1, 1);
    assert blocks[..0] == [] && blocks[..1] == [blocks[0]] && blocks[..2] == [blocks[0], blocks[1]];
    assert Covers(blocks[..1][0], 0, 0);
    assert forall c: nat | c < 1 :: Occupied(blocks[..1], 0, c);
  }

  /** The columns that are recorded for the header of WideCellOverlaps. */
  lemma WideCellRecorded(rows: seq<seq<Cell>>, blocks: seq<Block>, indexes: Indexes)
    requires rows == [[Cell(1, 1), Cell(2, 1)], [Cell(1, 2)]]
    requires Laid(rows, blocks) && Recorded(indexes, blocks)
    ensures indexes == map[(0, 0) := 0, (0, 1) := 1, (1, 0) := 0]
    ensures |blocks| == 3 && Overlap(blocks[1], blocks[2])
  {
    hide Laid, Overlap;
    var laid := [Block(0, 0, 0, 1, 1), Block(0, 1, 1, 2, 1), Block(1, 0, 0, 1, 2)];
    WideCellOverlaps(rows, laid);
    LaidUnique(rows, blocks, laid);
    var m := map[(0, 0) := 0, (0, 1) := 1, (1, 0) := 0];
    assert Recorded(m, laid) by {
      assert laid[0].cell == 0 && laid[1].cell == 1 && laid[2].cell == 0;
      assert (laid[0].row, laid[0].cell) == (0, 0) && (laid[1].row, laid[1].cell) == (0, 1);
      assert (laid[2].row, laid[2].cell) == (1, 0);
    }
    RecordedUnique(laid, indexes, m);
  }
}
