/*
 * The cursor operations of src/cursor.c: a cursor at the start of the
 * table, a cursor at the position of a key, the row bytes under a cursor
 * and the step to the next cell. Every page they look at is already in use,
 * so get_page only hands back its buffer and they read it directly.
 */
module Cursors {
  import opened Layout
  import opened Memory
  import opened Rows
  import opened Outcomes
  import opened Node
  import opened Tables
  import opened BTree

  /**
   * table_start: a cursor on the root page at cell 0, already at the end
   * of the table exactly when the root's cell count is 0.
   */
  method TableStart(table: Table) returns (c: Cursor)
    requires table.Valid()
    ensures fresh(c) && c.table == table
    ensures c.pageNum == table.rootPageNum && c.cellNum == 0
    ensures c.endOfTable <==> LeafNumCells(table.Root()) == 0
  {
    var rootNode := table.pager.pages[table.rootPageNum];
    var numCells := LeafNumCells(rootNode[..]);
    c := new Cursor(table, table.rootPageNum, 0, numCells == 0);
  }

  /**
   * table_find: a root whose type byte says leaf is searched with
   * leaf_node_find; any other root stops the process.
   */
  method TableFind(table: Table, key: u32) returns (r: Result<Cursor>)
    requires table.Valid()
    requires GetNodeType(table.Root()) == NODE_LEAF ==> LeafCellsFit(table.Root())
    ensures r.Ok? <==> GetNodeType(table.Root()) == NODE_LEAF
    ensures r.Err? ==> r.fatal == UnimplementedInternalSearch
    ensures r.Ok? ==>
      && fresh(r.value) && r.value.table == table && r.value.pageNum == table.rootPageNum
      && r.value.cellNum == Bisect(LeafKeys(table.Root()), key, 0, LeafNumCells(table.Root()))
      && (StrictlySorted(LeafKeys(table.Root())) ==> r.value.cellNum == LowerBound(LeafKeys(table.Root()), key))
  {
    var rootPageNum := table.rootPageNum;
    var rootNode := table.pager.pages[rootPageNum];
    if GetNodeType(rootNode[..]) == NODE_LEAF {
      var c := LeafNodeFind(table, rootPageNum, key);
      return Ok(c);
    } else {
      return Err(UnimplementedInternalSearch);
    }
  }

  /**
   * cursor_value: the ROW_SIZE bytes of the value slot of the cursor's
   * cell, which are the serialisation of the row that cell holds. The cell
   * must lie inside the page.
   */
  method CursorValue(cursor: Cursor) returns (value: seq<byte>)
    requires cursor.table.Valid() && cursor.pageNum < cursor.table.pager.numPages
    requires cursor.cellNum < LEAF_NODE_MAX_CELLS
    ensures value == SerializeRow(CellRow(LeafCell(cursor.Node(), cursor.cellNum)))
    ensures DeserializeRow(value) == CellRow(LeafCell(cursor.Node(), cursor.cellNum))
  {
    var page := cursor.table.pager.pages[cursor.pageNum];
    value := page[LeafNodeValue(cursor.cellNum)..LeafNodeValue(cursor.cellNum) + ROW_SIZE];
    assert value == LeafCell(page[..], cursor.cellNum)[LEAF_NODE_VALUE_OFFSET..];
  }

  /**
   * cursor_advance: the cell number grows by one (as a uint32_t, so it
   * wraps at 2^32) and the cursor is at the end of the table once it
   * reaches the page's cell count; an end already reached stays reached.
   */
  method CursorAdvance(cursor: Cursor)
    requires cursor.table.Valid() && cursor.pageNum < cursor.table.pager.numPages
    modifies cursor
    ensures cursor.pageNum == old(cursor.pageNum)
    ensures cursor.cellNum == (old(cursor.cellNum) + 1) % 0x1_0000_0000
    ensures cursor.endOfTable <==> old(cursor.endOfTable) || cursor.cellNum >= LeafNumCells(cursor.Node())
  {
    var node := cursor.table.pager.pages[cursor.pageNum];
    cursor.cellNum := (cursor.cellNum + 1) % 0x1_0000_0000;
    if cursor.cellNum >= LeafNumCells(node[..]) {
      cursor.endOfTable := true;
    }
  }
}
