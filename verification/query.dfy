/*
 * The executor of src/query.c on top of the B+tree: insert a row under its
 * id as key, refusing a key already present, and select every row of the
 * root leaf in cell order. Printing a selected row is output; here the
 * rows select would print are returned in the order it prints them.
 */
module Query {
  import opened Layout
  import opened Memory
  import opened Rows
  import opened Outcomes
  import opened Node
  import opened Tables
  import opened BTree
  import opened Cursors

  datatype ExecuteResult = ExecuteSuccess | ExecuteDuplicateKey

  datatype StatementType = StatementInsert | StatementSelect

  /** A prepared statement: its kind and, for an insert, the row to insert. */
  datatype Statement = Statement(kind: StatementType, rowToInsert: Row)

  /** The outcome of the tree insert for the split predicate: success or the fatal stop. */
  function Completed(r: Result<ExecuteResult>): (u: Result<()>)
    ensures u.Ok? <==> r.Ok?
    ensures r.Err? ==> u.fatal == r.fatal
  {
    match r
    case Ok(_) => Ok(())
    case Err(f) => Err(f)
  }

  /** The leaf pages execute_insert can work on: a root typed as a leaf has its cells inside the page. */
  ghost predicate Insertable(table: Table)
    reads table, table.pager, table.pager.pages
  {
    table.Valid() && (GetNodeType(table.Root()) == NODE_LEAF ==> LeafCellsFit(table.Root()))
  }

  /**
   * The outcome of execute_insert of `row`. A root not typed as a leaf stops
   * the process and nothing changes. Otherwise the search settles on cell i;
   * if cell i holds the row's id the result is a duplicate key and nothing
   * changes. Otherwise a leaf below capacity gets the cell (id, row) at i,
   * its other cells and every other page kept; a full leaf is split.
   */
  ghost predicate InsertOutcome(table: Table, r: Result<ExecuteResult>, row: Row, pages0: seq<Page>, numPages0: nat)
    requires table.Valid() && |pages0| == TABLE_MAX_PAGES && table.rootPageNum < numPages0 <= TABLE_MAX_PAGES
    requires GetNodeType(pages0[table.rootPageNum]) == NODE_LEAF ==> LeafCellsFit(pages0[table.rootPageNum])
    reads table, table.pager, table.pager.pages
  {
    var before := pages0[table.rootPageNum];
    if GetNodeType(before) != NODE_LEAF then
      && r == Err(UnimplementedInternalSearch)
      && table.pager.numPages == numPages0
      && table.pager.Pages() == pages0
    else
      var keys := LeafKeys(before);
      var i := Bisect(keys, row.id, 0, |keys|);
      if i < |keys| && keys[i] == row.id then
        && r == Ok(ExecuteDuplicateKey)
        && table.pager.numPages == numPages0
        && table.pager.Pages() == pages0
      else if |keys| < LEAF_NODE_MAX_CELLS then
        && r == Ok(ExecuteSuccess)
        && table.pager.numPages == numPages0
        && LeafHolds(table.Root(), before, InsertAt(LeafCells(before), i, EncodeCell(row.id, row)))
        && forall p :: 0 <= p < TABLE_MAX_PAGES && p != table.rootPageNum ==> table.pager.Page(p) == pages0[p]
      else
        && (r.Ok? ==> r.value == ExecuteSuccess)
        && SplitOutcome(table.pager, Completed(r), table.rootPageNum, i, SerializeRow(row), pages0, numPages0)
  }

  /**
   * execute_insert reports a duplicate only for a key that is present; on
   * ascending keys it reports one exactly when the key is present, and the
   * search stops at the key's lower bound.
   */
  lemma DuplicateDetected(keys: seq<u32>, key: u32)
    ensures var i := Bisect(keys, key, 0, |keys|);
            (i < |keys| && keys[i] == key) ==> key in keys
    ensures StrictlySorted(keys) ==>
              var i := Bisect(keys, key, 0, |keys|);
              && i == LowerBound(keys, key)
              && ((i < |keys| && keys[i] == key) <==> key in keys)
  {
    if StrictlySorted(keys) {
      BisectLowerBound(keys, key, 0, |keys|);
      PresentAtLowerBound(keys, key);
    }
  }

  /**
   * The cell execute_insert adds to a leaf whose keys ascend and match
   * their rows' ids: the keys become InsertKey of the old keys, still
   * ascending, every key still matches its row's id, and the rows are the
   * old rows with the new one at the key's lower bound.
   */
  lemma InsertedCells(cells: seq<Cell>, row: Row)
    requires StrictlySorted(Keys(cells)) && KeysMatchIds(cells) && row.id !in Keys(cells)
    ensures var i := LowerBound(Keys(cells), row.id);
            var inserted := InsertAt(cells, i, EncodeCell(row.id, row));
            && Keys(inserted) == InsertKey(Keys(cells), row.id)
            && StrictlySorted(Keys(inserted))
            && KeysMatchIds(inserted)
            && RowsOf(inserted) == InsertAt(RowsOf(cells), i, row)
  {
    var keys := Keys(cells);
    var i := LowerBound(keys, row.id);
    var c := EncodeCell(row.id, row);
    var inserted := InsertAt(cells, i, c);
    KeysRowsOfInsert(cells, i, c);
    PresentAtLowerBound(keys, row.id);
    InsertAtLowerBoundSorted(keys, row.id);
    forall j | 0 <= j < |inserted|
      ensures CellKey(inserted[j]) == CellRow(inserted[j]).id
    {
      if j != i {
        assert inserted[j] in cells;
      }
    }
  }

  /**
   * execute_insert: find the position of the row's id in the root, return
   * a duplicate key if the cell there holds it, and otherwise insert the
   * row there.
   */
  method ExecuteInsert(statement: Statement, table: Table) returns (r: Result<ExecuteResult>)
    requires Insertable(table)
    modifies table.pager, table.pager.pages
    ensures table.Valid()
    ensures InsertOutcome(table, r, statement.rowToInsert, old(table.pager.Pages()), old(table.pager.numPages))
  {
    var node := table.pager.pages[table.rootPageNum];
    var numCells := LeafNumCells(node[..]);
    var rowToInsert := statement.rowToInsert;
    var keyToInsert := rowToInsert.id;
    var found := TableFind(table, keyToInsert);
    assert table.pager.Pages() == old(table.pager.Pages());
    if found.Err? {
      return Err(found.fatal);
    }
    r := InsertAtCursor(table, found.value, node, numCells, rowToInsert);
  }

  /**
   * The rest of execute_insert once table_find has placed the cursor on the
   * root leaf: a duplicate key if the cursor's cell holds the id, and
   * otherwise leaf_node_insert at the cursor.
   */
  method InsertAtCursor(table: Table, cursor: Cursor, node: array<byte>, numCells: u32, row: Row) returns (r: Result<ExecuteResult>)
    requires Insertable(table) && GetNodeType(table.Root()) == NODE_LEAF
    requires node == table.pager.pages[table.rootPageNum] && numCells == LeafNumCells(node[..])
    requires cursor.table == table && cursor.pageNum == table.rootPageNum
    requires cursor.cellNum == Bisect(LeafKeys(table.Root()), row.id, 0, LeafNumCells(table.Root()))
    modifies table.pager, table.pager.pages
    ensures table.Valid()
    ensures InsertOutcome(table, r, row, old(table.pager.Pages()), old(table.pager.numPages))
  {
    if cursor.cellNum < numCells {
      var keyAtIndex := LeafKey(node[..], cursor.cellNum);
      assert keyAtIndex == LeafKeys(table.Root())[cursor.cellNum] by {
        LeafKeyOfCell(node[..], cursor.cellNum as nat);
      }
      if keyAtIndex == row.id {
        return Ok(ExecuteDuplicateKey);
      }
    }
    r := InsertNew(table, cursor, row);
  }

  /** leaf_node_insert at the cursor for a key the search did not find there: success, or the stop of a failed split. */
  method InsertNew(table: Table, cursor: Cursor, row: Row) returns (r: Result<ExecuteResult>)
    requires Insertable(table) && GetNodeType(table.Root()) == NODE_LEAF
    requires cursor.table == table && cursor.pageNum == table.rootPageNum
    requires cursor.cellNum == Bisect(LeafKeys(table.Root()), row.id, 0, LeafNumCells(table.Root()))
    requires !(cursor.cellNum < LeafNumCells(table.Root()) && LeafKeys(table.Root())[cursor.cellNum] == row.id)
    modifies table.pager, table.pager.pages
    ensures table.Valid()
    ensures InsertOutcome(table, r, row, old(table.pager.Pages()), old(table.pager.numPages))
  {
    var inserted := LeafNodeInsert(cursor, row.id, row);
    if inserted.Err? {
      return Err(inserted.fatal);
    }
    return Ok(ExecuteSuccess);
  }

  /**
   * execute_insert on a single root leaf below capacity whose keys ascend
   * and match their rows' ids: it succeeds, reporting a duplicate exactly
   * when the id is present; the keys become InsertKey of the old keys and
   * stay ascending and matched; a duplicate leaves the rows a scan sees as
   * they were, and a new id adds its row at the key's position.
   */
  lemma InsertOnSortedLeaf(table: Table, r: Result<ExecuteResult>, row: Row, pages0: seq<Page>, numPages0: nat)
    requires table.Valid() && |pages0| == TABLE_MAX_PAGES && table.rootPageNum < numPages0 <= TABLE_MAX_PAGES
    requires GetNodeType(pages0[table.rootPageNum]) == NODE_LEAF && LeafNumCells(pages0[table.rootPageNum]) < LEAF_NODE_MAX_CELLS
    requires InsertOutcome(table, r, row, pages0, numPages0)
    requires StrictlySorted(LeafKeys(pages0[table.rootPageNum])) && KeysMatchIds(LeafCells(pages0[table.rootPageNum]))
    ensures r.Ok? && (r.value == ExecuteDuplicateKey <==> row.id in LeafKeys(pages0[table.rootPageNum]))
    ensures LeafCellsFit(table.Root())
    ensures LeafKeys(table.Root()) == InsertKey(LeafKeys(pages0[table.rootPageNum]), row.id)
    ensures StrictlySorted(LeafKeys(table.Root())) && KeysMatchIds(LeafCells(table.Root()))
    ensures row.id in LeafKeys(pages0[table.rootPageNum]) ==> LeafRows(table.Root()) == LeafRows(pages0[table.rootPageNum])
    ensures row.id !in LeafKeys(pages0[table.rootPageNum]) ==>
              LeafRows(table.Root()) == InsertAt(LeafRows(pages0[table.rootPageNum]), LowerBound(LeafKeys(pages0[table.rootPageNum]), row.id), row)
  {
    var before := pages0[table.rootPageNum];
    var keys := LeafKeys(before);
    DuplicateDetected(keys, row.id);
    if row.id in keys {
      assert table.Root() == table.pager.Pages()[table.rootPageNum];
    } else {
      var i := LowerBound(keys, row.id);
      LeafHoldsCells(table.Root(), before, InsertAt(LeafCells(before), i, EncodeCell(row.id, row)));
      InsertedCells(LeafCells(before), row);
    }
  }

  /** On a leaf whose keys ascend and match their rows' ids, the rows a scan returns come in ascending id order. */
  lemma ScanAscends(p: Page)
    requires LeafCellsFit(p) && StrictlySorted(LeafKeys(p)) && KeysMatchIds(LeafCells(p))
    ensures forall a, b :: 0 <= a < b < |LeafRows(p)| ==> LeafRows(p)[a].id < LeafRows(p)[b].id
  {
    var cells := LeafCells(p);
    forall a, b | 0 <= a < b < |LeafRows(p)|
      ensures LeafRows(p)[a].id < LeafRows(p)[b].id
    {
      assert LeafRows(p)[a].id == CellKey(cells[a]) == LeafKeys(p)[a];
      assert LeafRows(p)[b].id == CellKey(cells[b]) == LeafKeys(p)[b];
    }
  }

  /**
   * After the root split, the root reads as a root leaf with one cell whose
   * key is the right child's page number, so a select over it returns
   * exactly one row, not the fourteen inserted.
   */
  lemma ScanAfterRootSplit(p: Page, left: u32, right: u32, maxKey: u32)
    ensures var root := NewRootBytes(p, left, right, maxKey);
            && GetNodeType(root) == NODE_LEAF && LeafCellsFit(root)
            && LeafKeys(root) == [right] && |LeafRows(root)| == 1
  {
    var root := NewRootBytes(p, left, right, maxKey);
    NewRootShape(p, left, right, maxKey);
    LeafKeyOfCell(root, 0);
  }

  /**
   * execute_select: a cursor from table_start, then deserialise the row
   * under the cursor and advance until the end of the table. The rows come
   * out in cell order, one per cell of the root, and the table is not
   * changed. The root's cell count must keep its cells inside the page.
   */
  method ExecuteSelect(statement: Statement, table: Table) returns (r: ExecuteResult, rows: seq<Row>)
    requires table.Valid() && LeafCellsFit(table.Root())
    ensures r == ExecuteSuccess && rows == LeafRows(table.Root())
  {
    ghost var root := table.Root();
    ghost var all := LeafRows(root);
    var cursor := TableStart(table);
    rows := [];
    while !cursor.endOfTable
      invariant cursor.table == table && cursor.pageNum == table.rootPageNum && table.Root() == root
      invariant cursor.cellNum as int == |rows| <= |all|
      invariant cursor.endOfTable <==> |rows| == |all|
      invariant rows == all[..|rows|]
      decreases |all| - |rows|
    {
      var value := CursorValue(cursor);
      assert DeserializeRow(value) == all[|rows|];
      rows := rows + [DeserializeRow(value)];
      CursorAdvance(cursor);
    }
    return ExecuteSuccess, rows;
  }

  /**
   * execute_statement: an insert runs execute_insert and prints nothing, a
   * select runs execute_select and leaves the table as it was.
   */
  method ExecuteStatement(statement: Statement, table: Table) returns (r: Result<ExecuteResult>, rows: seq<Row>)
    requires Insertable(table)
    requires statement.kind == StatementSelect ==> LeafCellsFit(table.Root())
    modifies table.pager, table.pager.pages
    ensures table.Valid()
    ensures statement.kind == StatementInsert ==>
      rows == [] && InsertOutcome(table, r, statement.rowToInsert, old(table.pager.Pages()), old(table.pager.numPages))
    ensures statement.kind == StatementSelect ==>
      && table.pager.numPages == old(table.pager.numPages) && table.pager.Pages() == old(table.pager.Pages())
      && r == Ok(ExecuteSuccess) && rows == LeafRows(old(table.Root()))
  {
    match statement.kind
    case StatementInsert =>
      r := ExecuteInsert(statement, table);
      rows := [];
    case StatementSelect =>
      var result;
      result, rows := ExecuteSelect(statement, table);
      r := Ok(result);
  }
}
