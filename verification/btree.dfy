/*
 * The leaf algorithms of src/btree.c: binary search in a leaf, insertion
 * with an in-place right shift of cells, the 7/7 split of a full leaf and
 * the creation of a new root above the split halves.
 */
module BTree {
  import opened Layout
  import opened Memory
  import opened Rows
  import opened Outcomes
  import opened Node
  import opened Tables

  /** The key that leaf_node_key points at in cell cellNum is the leaf's key at that index. */
  method ReadLeafKey(p: Page, cellNum: u32) returns (key: u32)
    requires LeafCellsFit(p) && cellNum < LeafNumCells(p)
    ensures key == LeafKeys(p)[cellNum]
  {
    key := LeafKey(p, cellNum);
    LeafKeyOfCell(p, cellNum);
  }

  /**
   * The binary search of leaf_node_find over the leaf page p: the cell
   * Bisect settles on (BisectLowerBound says what that is on ascending keys).
   */
  method LeafSearch(p: Page, key: u32) returns (cellNum: u32)
    requires LeafCellsFit(p)
    ensures cellNum == Bisect(LeafKeys(p), key, 0, LeafNumCells(p))
  {
    ghost var keys := LeafKeys(p);
    var numCells := LeafNumCells(p);
    var minIndex: u32 := 0;
    var onePastMaxIndex: u32 := numCells;
    while onePastMaxIndex != minIndex
      invariant minIndex <= onePastMaxIndex <= numCells
      invariant Bisect(keys, key, minIndex, onePastMaxIndex) == Bisect(keys, key, 0, numCells)
      decreases onePastMaxIndex - minIndex
    {
      var index: u32 := (minIndex + onePastMaxIndex) / 2;
      var keyAtIndex := ReadLeafKey(p, index);
      if key == keyAtIndex {
        return index;
      }
      if key < keyAtIndex {
        assert Bisect(keys, key, minIndex, index) == Bisect(keys, key, minIndex, onePastMaxIndex);
        onePastMaxIndex := index;
      } else {
        assert Bisect(keys, key, index + 1, onePastMaxIndex) == Bisect(keys, key, minIndex, onePastMaxIndex);
        minIndex := index + 1;
      }
    }
    return minIndex;
  }

  /**
   * leaf_node_find: a new cursor on page pageNum at the cell LeafSearch
   * stops at. The C code leaves end_of_table unset; here it is false.
   */
  method LeafNodeFind(table: Table, pageNum: u32, key: u32) returns (c: Cursor)
    requires table.Valid() && pageNum < table.pager.numPages
    requires LeafCellsFit(table.pager.pages[pageNum][..])
    ensures fresh(c) && c.table == table && c.pageNum == pageNum
    ensures c.cellNum == Bisect(LeafKeys(table.pager.pages[pageNum][..]), key, 0, LeafNumCells(table.pager.pages[pageNum][..]))
    ensures StrictlySorted(LeafKeys(table.pager.pages[pageNum][..])) ==>
              c.cellNum == LowerBound(LeafKeys(table.pager.pages[pageNum][..]), key)
  {
    ghost var p := table.pager.pages[pageNum][..];
    var cellNum := LeafSearch(table.pager.pages[pageNum][..], key);
    if StrictlySorted(LeafKeys(p)) {
      BisectLowerBound(LeafKeys(p), key, 0, LeafNumCells(p));
    }
    c := new Cursor(table, pageNum, cellNum, false);
  }

  /**
   * The shift loop's state: cells (i, n] hold the original cells [i, n)
   * moved up by one, and every byte outside those cells is original.
   */
  ghost predicate ShiftedFrom(cur: Page, p: Page, i: nat, n: nat)
    requires i <= n < LEAF_NODE_MAX_CELLS
  {
    && (forall j :: i < j <= n ==> LeafCell(cur, j) == LeafCell(p, j - 1))
    && (forall k :: 0 <= k < PAGE_SIZE && !(LeafNodeCell(i + 1) <= k < LeafNodeCell(n + 1)) ==> cur[k] == p[k])
  }

  /** One iteration of the shift loop: moving cell i - 1 into cell i extends the shifted range down by one. */
  lemma ShiftStep(cur: Page, p: Page, i: nat, n: nat)
    requires 0 < i <= n < LEAF_NODE_MAX_CELLS && ShiftedFrom(cur, p, i, n)
    ensures ShiftedFrom(Write(cur, LeafNodeCell(i), LeafCell(cur, i - 1)), p, i - 1, n)
  {
    var next := Write(cur, LeafNodeCell(i), LeafCell(cur, i - 1));
    SameCell(cur, p, i - 1);
    forall j | i - 1 < j <= n
      ensures LeafCell(next, j) == LeafCell(p, j - 1)
    {
      if j == i {
        CellWritten(cur, i, LeafCell(cur, i - 1));
      } else {
        CellAfterWrite(cur, LeafNodeCell(i), LeafCell(cur, i - 1), j);
      }
    }
  }

  /** The page after the shift loop has run from i = n down to i = k + 1, each iteration copying cell i - 1 into cell i. */
  function ShiftLoop(p: Page, k: nat, n: nat): Page
    requires k <= n < LEAF_NODE_MAX_CELLS
    decreases n - k
  {
    if k == n then p
    else
      var q := ShiftLoop(p, k + 1, n);
      Write(q, LeafNodeCell(k + 1), LeafCell(q, k))
  }

  /** One more iteration of the shift loop extends the shifted range down to k. */
  lemma ShiftLoopStep(p: Page, k: nat, n: nat)
    requires k < n < LEAF_NODE_MAX_CELLS && ShiftedFrom(ShiftLoop(p, k + 1, n), p, k + 1, n)
    ensures ShiftedFrom(ShiftLoop(p, k, n), p, k, n)
  {
    var q := ShiftLoop(p, k + 1, n);
    var next := Write(q, LeafNodeCell(k + 1), LeafCell(q, k));
    assert ShiftLoop(p, k, n) == next;
    assert ShiftedFrom(next, p, k, n) by {
      ShiftStep(q, p, k + 1, n);
    }
  }

  /** However far it has run, the shift loop has moved cells (k, n] up by one and left every other byte alone. */
  lemma {:induction false} ShiftLoopShifts(p: Page, k: nat, n: nat)
    requires k <= n < LEAF_NODE_MAX_CELLS
    ensures ShiftedFrom(ShiftLoop(p, k, n), p, k, n)
    decreases n - k
  {
    if k < n {
      ShiftLoopShifts(p, k + 1, n);
      ShiftLoopStep(p, k, n);
    }
  }

  /** After the shift, storing the count, the key and the row gives the old cells with the new cell at cellNum. */
  lemma InsertStores(cur: Page, p: Page, cellNum: nat, n: nat, key: u32, value: Row)
    requires cellNum <= n < LEAF_NODE_MAX_CELLS && ShiftedFrom(cur, p, cellNum, n)
    requires LeafNumCells(p) == n
    ensures var q0 := Write(cur, LEAF_NODE_NUM_CELLS_OFFSET, U32Bytes(n + 1));
            var q1 := Write(q0, LeafNodeCell(cellNum), U32Bytes(key));
            var q2 := Write(q1, LeafNodeValue(cellNum), SerializeRow(value));
            LeafHolds(q2, p, InsertAt(LeafCells(p), cellNum, EncodeCell(key, value)))
  {
    var q0 := Write(cur, LEAF_NODE_NUM_CELLS_OFFSET, U32Bytes(n + 1));
    var q1 := Write(q0, LeafNodeCell(cellNum), U32Bytes(key));
    var q2 := Write(q1, LeafNodeValue(cellNum), SerializeRow(value));
    var cells := InsertAt(LeafCells(p), cellNum, EncodeCell(key, value));
    ReadAfterWrite(cur, LEAF_NODE_NUM_CELLS_OFFSET, n + 1);
    ReadPastWrite(q0, LeafNodeCell(cellNum), U32Bytes(key), LEAF_NODE_NUM_CELLS_OFFSET);
    ReadPastWrite(q1, LeafNodeValue(cellNum), SerializeRow(value), LEAF_NODE_NUM_CELLS_OFFSET);
    forall j | 0 <= j < |cells|
      ensures LeafCell(q2, j) == cells[j]
    {
      InsertedCell(cur, p, cellNum, n, key, value, j);
    }
    CellOrder(cellNum, n + 1);
    forall k | 0 <= k < PAGE_SIZE && !(LEAF_NODE_NUM_CELLS_OFFSET <= k < LeafNodeCell(n + 1))
      ensures q2[k] == p[k]
    {
    }
  }

  /** Cell j after the stores of leaf_node_insert, once the shift is done. */
  lemma InsertedCell(cur: Page, p: Page, cellNum: nat, n: nat, key: u32, value: Row, j: nat)
    requires cellNum <= n < LEAF_NODE_MAX_CELLS && ShiftedFrom(cur, p, cellNum, n)
    requires LeafNumCells(p) == n && j <= n
    ensures var q0 := Write(cur, LEAF_NODE_NUM_CELLS_OFFSET, U32Bytes(n + 1));
            var q1 := Write(q0, LeafNodeCell(cellNum), U32Bytes(key));
            var q2 := Write(q1, LeafNodeValue(cellNum), SerializeRow(value));
            LeafCell(q2, j) == InsertAt(LeafCells(p), cellNum, EncodeCell(key, value))[j]
  {
    var q0 := Write(cur, LEAF_NODE_NUM_CELLS_OFFSET, U32Bytes(n + 1));
    var q1 := Write(q0, LeafNodeCell(cellNum), U32Bytes(key));
    var q2 := Write(q1, LeafNodeValue(cellNum), SerializeRow(value));
    CellAfterWrite(cur, LEAF_NODE_NUM_CELLS_OFFSET, U32Bytes(n + 1), j);
    if j == cellNum {
      CellWrite(q0, j, 0, U32Bytes(key));
      CellWrite(q1, j, LEAF_NODE_VALUE_OFFSET, SerializeRow(value));
      CellOverwritten(LeafCell(q0, j), key, value);
    } else {
      if j < cellNum {
        CellOrder(j, cellNum);
        SameCell(cur, p, j);
      } else {
        CellOrder(cellNum, j);
      }
      CellAfterWrite(q0, LeafNodeCell(cellNum), U32Bytes(key), j);
      CellAfterWrite(q1, LeafNodeValue(cellNum), SerializeRow(value), j);
    }
  }

  /**
   * The in-place part of leaf_node_insert below capacity, on the node's
   * buffer: the shift loop moves cells [cellNum, n) up one slot from the
   * right, then the count grows by one and the key and serialised row land
   * in cell cellNum.
   */
  method ShiftAndStore(node: array<byte>, cellNum: u32, key: u32, value: Row)
    requires node.Length == PAGE_SIZE
    requires LeafNumCells(node[..]) < LEAF_NODE_MAX_CELLS && cellNum <= LeafNumCells(node[..])
    modifies node
    ensures LeafHolds(node[..], old(node[..]), InsertAt(old(LeafCells(node[..])), cellNum, EncodeCell(key, value)))
  {
    ghost var p := node[..];
    var numCells := LeafNumCells(node[..]);
    if cellNum < numCells {
      ShiftCells(node, cellNum, numCells);
    }
    ghost var cur := node[..];
    Store(node, LEAF_NODE_NUM_CELLS_OFFSET, U32Bytes(numCells + 1));
    Store(node, LeafNodeCell(cellNum), U32Bytes(key));
    Store(node, LeafNodeValue(cellNum), SerializeRow(value));
    assert LeafHolds(node[..], p, InsertAt(LeafCells(p), cellNum, EncodeCell(key, value))) by {
      ShiftLoopShifts(p, cellNum, numCells);
      InsertStores(cur, p, cellNum, numCells, key, value);
    }
  }

  /** The shift loop of leaf_node_insert: from i = numCells down to cellNum + 1, cell i - 1 is copied into cell i. */
  method ShiftCells(node: array<byte>, cellNum: u32, numCells: u32)
    requires node.Length == PAGE_SIZE && cellNum <= numCells < LEAF_NODE_MAX_CELLS
    modifies node
    ensures node[..] == ShiftLoop(old(node[..]), cellNum, numCells)
  {
    ghost var p := node[..];
    var i: u32 := numCells;
    while i > cellNum
      invariant cellNum <= i <= numCells
      invariant node[..] == ShiftLoop(p, i, numCells)
    {
      Memcpy(node, LeafNodeCell(i), node, LeafNodeCell(i - 1), LEAF_NODE_CELL_SIZE);
      i := i - 1;
    }
  }


  /**
   * leaf_node_insert. Below capacity: the cells from cellNum on move up one
   * slot, the count grows by one, and the key and serialised row land in
   * cell cellNum; no other page changes. At capacity: no shift here, the
   * leaf is split instead.
   */
  method LeafNodeInsert(cursor: Cursor, key: u32, value: Row) returns (r: Result<()>)
    requires cursor.table.Valid() && cursor.pageNum < cursor.table.pager.numPages
    requires LeafCellsFit(cursor.Node()) && cursor.cellNum <= LeafNumCells(cursor.Node())
    requires LeafNumCells(cursor.Node()) == LEAF_NODE_MAX_CELLS ==> cursor.pageNum == cursor.table.rootPageNum
    modifies cursor.table.pager, cursor.table.pager.pages
    ensures cursor.table.Valid()
    ensures old(LeafNumCells(cursor.Node())) < LEAF_NODE_MAX_CELLS ==>
      && r == Ok(())
      && unchanged(cursor.table.pager)
      && LeafHolds(cursor.Node(), old(cursor.Node()), InsertAt(old(LeafCells(cursor.Node())), cursor.cellNum, EncodeCell(key, value)))
      && forall i :: 0 <= i < TABLE_MAX_PAGES && i != cursor.pageNum ==> cursor.table.pager.Page(i) == old(cursor.table.pager.Page(i))
    ensures old(LeafNumCells(cursor.Node())) == LEAF_NODE_MAX_CELLS ==>
      SplitOutcome(cursor.table.pager, r, cursor.pageNum, cursor.cellNum, SerializeRow(value), old(cursor.table.pager.Pages()), old(cursor.table.pager.numPages))
  {
    var node := cursor.table.pager.pages[cursor.pageNum];
    var numCells := LeafNumCells(node[..]);
    if numCells >= LEAF_NODE_MAX_CELLS {
      r := LeafNodeSplitAndInsert(cursor, key, value);
      return;
    }
    ShiftAndStore(node, cursor.cellNum, key, value);
    r := Ok(());
  }

  // ---------------------------------------------------------------- split

  /**
   * The inserted logical cell as leaf_node_split_and_insert writes it: the
   * serialised row at the start of its destination cell (so the row's id,
   * its first four bytes, lands in the key slot), followed by the last
   * LEAF_NODE_KEY_SIZE bytes that destination cell already held.
   */
  function SplitInsertedCell(before: Page, blank: Page, cellNum: nat, row: seq<byte>): Cell
    requires cellNum <= LEAF_NODE_MAX_CELLS && |row| == ROW_SIZE
  {
    row + SplitDestination(before, blank, cellNum)[ROW_SIZE..]
  }

  /** The destination cell of logical cell i as it is before the loop writes it: cell i - 7 of the new page, or cell i of the old one. */
  function SplitDestination(before: Page, blank: Page, i: nat): Cell
    requires i <= LEAF_NODE_MAX_CELLS
  {
    if i >= LEAF_NODE_LEFT_SPLIT_COUNT then LeafCell(blank, i - LEAF_NODE_LEFT_SPLIT_COUNT) else LeafCell(before, i)
  }

  /** The LEAF_NODE_MAX_CELLS + 1 logical cells the split distributes: the old cells with the new one at cellNum. */
  function SplitCells(before: Page, blank: Page, cellNum: nat, row: seq<byte>): (cells: seq<Cell>)
    requires LeafNumCells(before) == LEAF_NODE_MAX_CELLS && cellNum <= LEAF_NODE_MAX_CELLS && |row| == ROW_SIZE
    ensures |cells| == LEAF_NODE_MAX_CELLS + 1
  {
    InsertAt(LeafCells(before), cellNum, SplitInsertedCell(before, blank, cellNum, row))
  }

  /** The inserted cell's key slot holds the row's id. */
  lemma SplitInsertedKey(before: Page, blank: Page, cellNum: nat, value: Row)
    requires cellNum <= LEAF_NODE_MAX_CELLS
    ensures CellKey(SplitInsertedCell(before, blank, cellNum, SerializeRow(value))) == value.id
  {
    var c := SplitInsertedCell(before, blank, cellNum, SerializeRow(value));
    assert c[..4] == SerializeRow(value)[..4];
  }

  /** The keys of the logical cells are the old keys with the new row's id inserted at cellNum. */
  lemma SplitKeys(before: Page, blank: Page, cellNum: nat, value: Row)
    requires LeafNumCells(before) == LEAF_NODE_MAX_CELLS && cellNum <= LEAF_NODE_MAX_CELLS
    ensures Keys(SplitCells(before, blank, cellNum, SerializeRow(value))) == InsertAt(LeafKeys(before), cellNum, value.id)
  {
    SplitInsertedKey(before, blank, cellNum, value);
    KeysRowsOfInsert(LeafCells(before), cellNum, SplitInsertedCell(before, blank, cellNum, SerializeRow(value)));
  }

  /**
   * The row deserialize_row reads back from the inserted cell's value slot
   * is the written row shifted by the key size: its id is the first four
   * username bytes, its username continues into the email, and its email
   * ends with the four bytes the destination cell held last.
   */
  lemma SplitInsertedRow(before: Page, blank: Page, cellNum: nat, value: Row)
    requires cellNum <= LEAF_NODE_MAX_CELLS
    ensures var read := CellRow(SplitInsertedCell(before, blank, cellNum, SerializeRow(value)));
            && read.id == ReadU32(value.username, 0)
            && read.username == value.username[4..] + value.email[..4]
            && read.email == value.email[4..] + SplitDestination(before, blank, cellNum)[ROW_SIZE..]
  {
    var s := SerializeRow(value);
    var c := SplitInsertedCell(before, blank, cellNum, s);
    var v := c[LEAF_NODE_VALUE_OFFSET..];
    assert s[4..] == value.username + value.email;
    assert v == value.username + value.email + SplitDestination(before, blank, cellNum)[ROW_SIZE..];
    assert v[..4] == value.username[..4];
    assert v[USERNAME_OFFSET..EMAIL_OFFSET] == value.username[4..] + value.email[..4];
    assert v[EMAIL_OFFSET..ROW_SIZE] == value.email[4..] + SplitDestination(before, blank, cellNum)[ROW_SIZE..];
  }

  /**
   * Splitting a leaf whose keys ascend, at the lower bound of a new key:
   * the logical cells' keys are the old keys with the new one inserted in
   * order, each half's keys ascend, and every key of the left half is below
   * every key of the right half.
   */
  lemma SplitOrdered(before: Page, blank: Page, value: Row)
    requires LeafNumCells(before) == LEAF_NODE_MAX_CELLS
    requires StrictlySorted(LeafKeys(before)) && value.id !in LeafKeys(before)
    ensures var keys := Keys(SplitCells(before, blank, LowerBound(LeafKeys(before), value.id), SerializeRow(value)));
            && keys == InsertKey(LeafKeys(before), value.id)
            && StrictlySorted(keys[..LEAF_NODE_LEFT_SPLIT_COUNT])
            && StrictlySorted(keys[LEAF_NODE_LEFT_SPLIT_COUNT..])
            && forall a, b :: 0 <= a < LEAF_NODE_LEFT_SPLIT_COUNT <= b < |keys| ==> keys[a] < keys[b]
  {
    var i := LowerBound(LeafKeys(before), value.id);
    SplitKeys(before, blank, i, value);
    PresentAtLowerBound(LeafKeys(before), value.id);
    InsertAtLowerBoundSorted(LeafKeys(before), value.id);
  }

  /**
   * Cells [d, 7) of p hold cs[d..], and every byte of p outside those cells
   * is ref's: the state of one half of a split once its cells from d on are
   * placed.
   */
  ghost predicate Filled(p: Page, ref: Page, cs: seq<Cell>, d: nat)
    requires |cs| == LEAF_NODE_LEFT_SPLIT_COUNT
  {
    && (forall j :: d <= j < LEAF_NODE_LEFT_SPLIT_COUNT ==> LeafCell(p, j) == cs[j])
    && (forall k :: 0 <= k < PAGE_SIZE && !(LeafNodeCell(d) <= k < LeafNodeCell(LEAF_NODE_LEFT_SPLIT_COUNT)) ==> p[k] == ref[k])
  }

  /** Writing the bytes that make cell d equal cs[d] extends a filled half down by one cell. */
  lemma PlaceCell(p: Page, ref: Page, cs: seq<Cell>, d: nat, b: seq<byte>)
    requires |cs| == LEAF_NODE_LEFT_SPLIT_COUNT && d < LEAF_NODE_LEFT_SPLIT_COUNT
    requires Filled(p, ref, cs, d + 1)
    requires |b| <= LEAF_NODE_CELL_SIZE && b + LeafCell(ref, d)[|b|..] == cs[d]
    ensures Filled(Write(p, LeafNodeCell(d), b), ref, cs, d)
  {
    var p' := Write(p, LeafNodeCell(d), b);
    SameCell(p, ref, d);
    CellWritten(p, d, b);
    forall j | d < j < LEAF_NODE_LEFT_SPLIT_COUNT
      ensures LeafCell(p', j) == cs[j]
    {
      CellAfterWrite(p, LeafNodeCell(d), b, j);
    }
  }

  /**
   * What iteration i of the split loop writes at the start of its
   * destination cell: the serialised row when i is the insertion point,
   * otherwise a whole cell of the old page (the one before i past the
   * insertion point, cell i before it).
   */
  function SplitSource(o: Page, i: nat, cellNum: nat, row: seq<byte>): (b: seq<byte>)
    requires i <= LEAF_NODE_MAX_CELLS && cellNum <= LEAF_NODE_MAX_CELLS && |row| == ROW_SIZE
    ensures |b| <= LEAF_NODE_CELL_SIZE
  {
    if i == cellNum then row
    else if i > cellNum then LeafCell(o, i - 1)
    else LeafCell(o, i)
  }

  /**
   * The logical cells the split places: the source of iteration i written
   * over its destination cell is the i-th of `left + right`.
   */
  ghost predicate SplitTargets(before: Page, blank: Page, cellNum: nat, row: seq<byte>, left: seq<Cell>, right: seq<Cell>)
    requires cellNum <= LEAF_NODE_MAX_CELLS && |row| == ROW_SIZE
  {
    && |left| == LEAF_NODE_LEFT_SPLIT_COUNT && |right| == LEAF_NODE_RIGHT_SPLIT_COUNT
    && forall i :: 0 <= i <= LEAF_NODE_MAX_CELLS ==> SplitTarget(before, blank, cellNum, row, i) == (left + right)[i]
  }

  /** The bytes iteration i leaves in its destination cell: its source over the start of what the cell held. */
  function SplitTarget(before: Page, blank: Page, cellNum: nat, row: seq<byte>, i: nat): seq<byte>
    requires i <= LEAF_NODE_MAX_CELLS && cellNum <= LEAF_NODE_MAX_CELLS && |row| == ROW_SIZE
  {
    var b := SplitSource(before, i, cellNum, row);
    b + SplitDestination(before, blank, i)[|b|..]
  }

  /** The halves of SplitCells are what the split loop places. */
  lemma SplitCellsTargets(before: Page, blank: Page, cellNum: nat, row: seq<byte>)
    requires LeafNumCells(before) == LEAF_NODE_MAX_CELLS && cellNum <= LEAF_NODE_MAX_CELLS && |row| == ROW_SIZE
    ensures var cells := SplitCells(before, blank, cellNum, row);
            SplitTargets(before, blank, cellNum, row, cells[..LEAF_NODE_LEFT_SPLIT_COUNT], cells[LEAF_NODE_LEFT_SPLIT_COUNT..])
  {
    var cells := SplitCells(before, blank, cellNum, row);
    assert cells[..LEAF_NODE_LEFT_SPLIT_COUNT] + cells[LEAF_NODE_LEFT_SPLIT_COUNT..] == cells;
    forall i | 0 <= i <= LEAF_NODE_MAX_CELLS
      ensures SplitTarget(before, blank, cellNum, row, i) == cells[i]
    {
      var b := SplitSource(before, i, cellNum, row);
      if i != cellNum {
        assert b + SplitDestination(before, blank, i)[|b|..] == b;
      }
    }
  }

  /** Before iteration i < 7 overwrites anything, the cells it reads from the old page are still the original ones. */
  lemma SplitSourceAgrees(o: Page, before: Page, cs: seq<Cell>, i: nat, cellNum: nat, row: seq<byte>)
    requires |cs| == LEAF_NODE_LEFT_SPLIT_COUNT && i < LEAF_NODE_LEFT_SPLIT_COUNT && cellNum <= LEAF_NODE_MAX_CELLS && |row| == ROW_SIZE
    requires Filled(o, before, cs, i + 1)
    ensures SplitSource(o, i, cellNum, row) == SplitSource(before, i, cellNum, row)
  {
    SameCell(o, before, i);
    if i >= 1 {
      SameCell(o, before, i - 1);
    }
  }

  /**
   * The two pages after the split loop has run its iterations from
   * LEAF_NODE_MAX_CELLS down to m: each writes SplitSource, read from the old
   * page as it is at that point, into cell i % 7 of the new page (i >= 7) or
   * of the old page (i < 7).
   */
  function SplitLoop(before: Page, blank: Page, cellNum: nat, row: seq<byte>, m: nat): (Page, Page)
    requires cellNum <= LEAF_NODE_MAX_CELLS && |row| == ROW_SIZE && m <= LEAF_NODE_MAX_CELLS + 1
    decreases LEAF_NODE_MAX_CELLS + 1 - m
  {
    if m == LEAF_NODE_MAX_CELLS + 1 then (before, blank)
    else SplitStep(SplitLoop(before, blank, cellNum, row, m + 1), m, cellNum, row)
  }

  /** Iteration i of the split loop on the (old, new) pair of pages. */
  function SplitStep(pages: (Page, Page), i: nat, cellNum: nat, row: seq<byte>): (Page, Page)
    requires i <= LEAF_NODE_MAX_CELLS && cellNum <= LEAF_NODE_MAX_CELLS && |row| == ROW_SIZE
  {
    var b := SplitSource(pages.0, i, cellNum, row);
    if i >= LEAF_NODE_LEFT_SPLIT_COUNT then (pages.0, Write(pages.1, LeafNodeCell(i - LEAF_NODE_LEFT_SPLIT_COUNT), b))
    else (Write(pages.0, LeafNodeCell(i), b), pages.1)
  }

  /**
   * The iterations from LEAF_NODE_MAX_CELLS down to m >= 7 place logical
   * cells [m, 14) in the new page and leave the old page untouched.
   */
  lemma {:induction false} SplitLoopRight(before: Page, blank: Page, cellNum: nat, row: seq<byte>, left: seq<Cell>, right: seq<Cell>, m: nat)
    requires cellNum <= LEAF_NODE_MAX_CELLS && |row| == ROW_SIZE && LEAF_NODE_LEFT_SPLIT_COUNT <= m <= LEAF_NODE_MAX_CELLS + 1
    requires SplitTargets(before, blank, cellNum, row, left, right)
    ensures SplitLoop(before, blank, cellNum, row, m).0 == before
    ensures Filled(SplitLoop(before, blank, cellNum, row, m).1, blank, right, m - LEAF_NODE_LEFT_SPLIT_COUNT)
    decreases LEAF_NODE_MAX_CELLS + 1 - m
  {
    if m <= LEAF_NODE_MAX_CELLS {
      SplitLoopRight(before, blank, cellNum, row, left, right, m + 1);
      var pages := SplitLoop(before, blank, cellNum, row, m + 1);
      var d := m - LEAF_NODE_LEFT_SPLIT_COUNT;
      var b := SplitSource(before, m, cellNum, row);
      assert b + LeafCell(blank, d)[|b|..] == right[d] by {
        assert SplitTarget(before, blank, cellNum, row, m) == (left + right)[m] == right[d];
      }
      PlaceCell(pages.1, blank, right, d, b);
    }
  }

  /**
   * The iterations from 6 down to m place logical cells [m, 7) in the old
   * page, reading each source before it is overwritten, and leave the new
   * page as the iterations above 6 left it.
   */
  lemma {:induction false} SplitLoopLeft(before: Page, blank: Page, cellNum: nat, row: seq<byte>, left: seq<Cell>, right: seq<Cell>, m: nat)
    requires cellNum <= LEAF_NODE_MAX_CELLS && |row| == ROW_SIZE && m <= LEAF_NODE_LEFT_SPLIT_COUNT
    requires SplitTargets(before, blank, cellNum, row, left, right)
    ensures SplitLoop(before, blank, cellNum, row, m).1 == SplitLoop(before, blank, cellNum, row, LEAF_NODE_LEFT_SPLIT_COUNT).1
    ensures Filled(SplitLoop(before, blank, cellNum, row, m).0, before, left, m)
    decreases LEAF_NODE_LEFT_SPLIT_COUNT - m
  {
    if m == LEAF_NODE_LEFT_SPLIT_COUNT {
      SplitLoopRight(before, blank, cellNum, row, left, right, m);
    } else {
      SplitLoopLeft(before, blank, cellNum, row, left, right, m + 1);
      var pages := SplitLoop(before, blank, cellNum, row, m + 1);
      var b := SplitSource(pages.0, m, cellNum, row);
      assert b + LeafCell(before, m)[|b|..] == left[m] by {
        SplitSourceAgrees(pages.0, before, left, m, cellNum, row);
        assert SplitTarget(before, blank, cellNum, row, m) == (left + right)[m] == left[m];
      }
      PlaceCell(pages.0, before, left, m, b);
    }
  }

  /** Storing the count of a fully placed half makes the page hold exactly its cells. */
  lemma CountStored(after: Page, before: Page, cells: seq<Cell>)
    requires |cells| == LEAF_NODE_LEFT_SPLIT_COUNT && Filled(after, before, cells, 0)
    ensures LeafHolds(Write(after, LEAF_NODE_NUM_CELLS_OFFSET, U32Bytes(|cells|)), before, cells)
  {
    var a' := Write(after, LEAF_NODE_NUM_CELLS_OFFSET, U32Bytes(|cells|));
    ReadAfterWrite(after, LEAF_NODE_NUM_CELLS_OFFSET, |cells|);
    forall j | 0 <= j < |cells|
      ensures LeafCell(a', j) == cells[j]
    {
      CellAfterWrite(after, LEAF_NODE_NUM_CELLS_OFFSET, U32Bytes(|cells|), j);
    }
  }

  /**
   * Clearing the type byte of both a page and its reference keeps the page
   * holding its cells; a half leaf whose type byte is cleared reads as an
   * internal node with 7 keys, so get_node_max_key can read it.
   */
  lemma LeafHoldsTypeByte(after: Page, before: Page, cells: seq<Cell>)
    requires LeafHolds(after, before, cells) && |cells| == LEAF_NODE_LEFT_SPLIT_COUNT
    ensures LeafHolds(Write(after, NODE_TYPE_OFFSET, [0]), Write(before, NODE_TYPE_OFFSET, [0]), cells)
    ensures HasMaxKey(Write(after, NODE_TYPE_OFFSET, [0]))
  {
    var a' := Write(after, NODE_TYPE_OFFSET, [0]);
    ReadPastWrite(after, NODE_TYPE_OFFSET, [0], LEAF_NODE_NUM_CELLS_OFFSET);
    forall j | 0 <= j < |cells|
      ensures LeafCell(a', j) == cells[j]
    {
      CellAfterWrite(after, NODE_TYPE_OFFSET, [0], j);
    }
  }

  /** After the whole split loop and the two count stores, each page holds its half of the logical cells. */
  lemma SplitCounted(before: Page, blank: Page, cellNum: nat, row: seq<byte>)
    requires LeafNumCells(before) == LEAF_NODE_MAX_CELLS && cellNum <= LEAF_NODE_MAX_CELLS && |row| == ROW_SIZE
    ensures var pages := SplitLoop(before, blank, cellNum, row, 0);
            var cells := SplitCells(before, blank, cellNum, row);
            && LeafHolds(Write(pages.0, LEAF_NODE_NUM_CELLS_OFFSET, U32Bytes(LEAF_NODE_LEFT_SPLIT_COUNT)), before, cells[..LEAF_NODE_LEFT_SPLIT_COUNT])
            && LeafHolds(Write(pages.1, LEAF_NODE_NUM_CELLS_OFFSET, U32Bytes(LEAF_NODE_RIGHT_SPLIT_COUNT)), blank, cells[LEAF_NODE_LEFT_SPLIT_COUNT..])
  {
    var pages := SplitLoop(before, blank, cellNum, row, 0);
    var cells := SplitCells(before, blank, cellNum, row);
    var left, right := cells[..LEAF_NODE_LEFT_SPLIT_COUNT], cells[LEAF_NODE_LEFT_SPLIT_COUNT..];
    SplitCellsTargets(before, blank, cellNum, row);
    assert Filled(pages.0, before, left, 0) by {
      SplitLoopLeft(before, blank, cellNum, row, left, right, 0);
    }
    assert Filled(pages.1, blank, right, 0) by {
      SplitLoopLeft(before, blank, cellNum, row, left, right, 0);
      SplitLoopRight(before, blank, cellNum, row, left, right, LEAF_NODE_LEFT_SPLIT_COUNT);
    }
    CountStored(pages.0, before, left);
    CountStored(pages.1, blank, right);
  }

  /**
   * One iteration of the copy loop of leaf_node_split_and_insert: logical
   * cell i goes to cell i % 7 of the new page when i >= 7 and of the old
   * page otherwise. `row` is the serialised new row.
   */
  method SplitIteration(oldNode: array<byte>, newNode: array<byte>, i: nat, cellNum: u32, row: seq<byte>)
    requires oldNode.Length == PAGE_SIZE && newNode.Length == PAGE_SIZE && oldNode != newNode
    requires i <= LEAF_NODE_MAX_CELLS && cellNum <= LEAF_NODE_MAX_CELLS && |row| == ROW_SIZE
    modifies oldNode, newNode
    ensures (oldNode[..], newNode[..]) == SplitStep((old(oldNode[..]), old(newNode[..])), i, cellNum, row)
  {
    var destinationNode := if i >= LEAF_NODE_LEFT_SPLIT_COUNT then newNode else oldNode;
    var indexWithinNode := i % LEAF_NODE_LEFT_SPLIT_COUNT;
    // Reading the whole source cell before writing is the same as memcpy: source and destination never overlap partially.
    var source := if i == cellNum as int then row
                  else if i > cellNum as int then LeafCell(oldNode[..], i - 1)
                  else LeafCell(oldNode[..], i);
    Store(destinationNode, LeafNodeCell(indexWithinNode), source);
  }

  /** The copy loop of leaf_node_split_and_insert: its iterations for i from LEAF_NODE_MAX_CELLS down to 0. */
  method SplitMove(oldNode: array<byte>, newNode: array<byte>, cellNum: u32, row: seq<byte>)
    requires oldNode.Length == PAGE_SIZE && newNode.Length == PAGE_SIZE && oldNode != newNode
    requires cellNum <= LEAF_NODE_MAX_CELLS && |row| == ROW_SIZE
    modifies oldNode, newNode
    ensures (oldNode[..], newNode[..]) == SplitLoop(old(oldNode[..]), old(newNode[..]), cellNum, row, 0)
  {
    ghost var before := oldNode[..];
    ghost var blank := newNode[..];
    var i: int := LEAF_NODE_MAX_CELLS;
    while i >= 0
      invariant -1 <= i <= LEAF_NODE_MAX_CELLS
      invariant (oldNode[..], newNode[..]) == SplitLoop(before, blank, cellNum, row, i + 1)
    {
      SplitIteration(oldNode, newNode, i, cellNum, row);
      i := i - 1;
    }
  }

  /**
   * The copy loop and the count stores of leaf_node_split_and_insert: the
   * old page keeps the first LEAF_NODE_LEFT_SPLIT_COUNT logical cells and
   * the new page receives the last LEAF_NODE_RIGHT_SPLIT_COUNT.
   */
  method SplitCopy(oldNode: array<byte>, newNode: array<byte>, cellNum: u32, row: seq<byte>)
    requires oldNode.Length == PAGE_SIZE && newNode.Length == PAGE_SIZE && oldNode != newNode
    requires LeafNumCells(oldNode[..]) == LEAF_NODE_MAX_CELLS && cellNum <= LEAF_NODE_MAX_CELLS && |row| == ROW_SIZE
    modifies oldNode, newNode
    ensures var cells := SplitCells(old(oldNode[..]), old(newNode[..]), cellNum, row);
            && LeafHolds(oldNode[..], old(oldNode[..]), cells[..LEAF_NODE_LEFT_SPLIT_COUNT])
            && LeafHolds(newNode[..], old(newNode[..]), cells[LEAF_NODE_LEFT_SPLIT_COUNT..])
  {
    SplitCounted(oldNode[..], newNode[..], cellNum, row);
    SplitMove(oldNode, newNode, cellNum, row);
    Store(oldNode, LEAF_NODE_NUM_CELLS_OFFSET, U32Bytes(LEAF_NODE_LEFT_SPLIT_COUNT));
    Store(newNode, LEAF_NODE_NUM_CELLS_OFFSET, U32Bytes(LEAF_NODE_RIGHT_SPLIT_COUNT));
  }

  /**
   * The first part of leaf_node_split_and_insert: the new (right) page is
   * the first page not in use; it is initialised as a leaf and receives the
   * last LEAF_NODE_RIGHT_SPLIT_COUNT logical cells, the old page keeps the
   * first LEAF_NODE_LEFT_SPLIT_COUNT, and no other page changes. Running out
   * of page slots stops the process.
   */
  twostate predicate SplitHalves(pager: Pager, new r: Result<u32>, pageNum: nat, cellNum: nat, row: seq<byte>)
    requires old(pager.Valid()) && pager.Valid() && pageNum < old(pager.numPages)
    requires LeafNumCells(old(pager.Page(pageNum))) == LEAF_NODE_MAX_CELLS && cellNum <= LEAF_NODE_MAX_CELLS && |row| == ROW_SIZE
    reads pager, pager.pages
  {
    var right := old(pager.numPages);
    if right >= TABLE_MAX_PAGES then r == Err(PageOutOfBounds) && pager.numPages == right
    else
      var before := old(pager.Page(pageNum));
      var blank := InitLeafBytes(old(pager.Page(right)));
      var cells := SplitCells(before, blank, cellNum, row);
      && r == Ok(right)
      && pager.numPages == right + 1
      && LeafHolds(pager.Page(pageNum), before, cells[..LEAF_NODE_LEFT_SPLIT_COUNT])
      && LeafHolds(pager.Page(right), blank, cells[LEAF_NODE_LEFT_SPLIT_COUNT..])
      && forall i :: 0 <= i < TABLE_MAX_PAGES && i != pageNum && i != right ==> pager.Page(i) == old(pager.Page(i))
  }

  /** The page allocation, initialisation and copy of leaf_node_split_and_insert; `row` is the serialised new row. */
  method SplitLeaf(pager: Pager, pageNum: u32, cellNum: u32, row: seq<byte>) returns (r: Result<u32>)
    requires pager.Valid() && pageNum < pager.numPages && |row| == ROW_SIZE
    requires LeafNumCells(pager.Page(pageNum)) == LEAF_NODE_MAX_CELLS && cellNum <= LEAF_NODE_MAX_CELLS
    modifies pager, pager.pages
    ensures pager.Valid()
    ensures SplitHalves(pager, r, pageNum, cellNum, row)
  {
    var oldNode := pager.pages[pageNum];
    var newPageNum := pager.GetUnusedPageNum();
    var page := pager.GetPage(newPageNum);
    if page.Err? {
      return Err(page.fatal);
    }
    var newNode := page.value;
    InitializeLeafNode(newNode);
    SplitCopy(oldNode, newNode, cellNum, row);
    r := Ok(newPageNum);
  }

  /**
   * The outcome of splitting the full leaf on page pageNum. The new (right)
   * page is the first page not in use before; it is initialised as a leaf
   * and holds the last LEAF_NODE_RIGHT_SPLIT_COUNT logical cells. If the old
   * page is not a root it holds the first LEAF_NODE_LEFT_SPLIT_COUNT and the
   * result is an error. If it is, a new root is created: the left child is
   * the next unused page, a copy of the old page holding the first half with
   * its type byte (which is also its root flag) cleared, and the old page is
   * rewritten as the new root. Running out of page slots stops the process.
   */
  ghost predicate SplitOutcome(pager: Pager, r: Result<()>, pageNum: nat, cellNum: nat, row: seq<byte>, pages0: seq<Page>, numPages0: nat)
    requires pager.Valid() && |pages0| == TABLE_MAX_PAGES && pageNum < numPages0 <= TABLE_MAX_PAGES
    requires LeafNumCells(pages0[pageNum]) == LEAF_NODE_MAX_CELLS && cellNum <= LEAF_NODE_MAX_CELLS && |row| == ROW_SIZE
    reads pager, pager.pages
  {
    var before := pages0[pageNum];
    var right := numPages0;
    var left := right + 1;
    if right >= TABLE_MAX_PAGES then r == Err(PageOutOfBounds)
    else
      var blank := InitLeafBytes(pages0[right]);
      var cells := SplitCells(before, blank, cellNum, row);
      && LeafHolds(pager.Page(right), blank, cells[LEAF_NODE_LEFT_SPLIT_COUNT..])
      && if !IsNodeRoot(before) then
           && r == Err(UnimplementedParentUpdate)
           && pager.numPages == right + 1
           && LeafHolds(pager.Page(pageNum), before, cells[..LEAF_NODE_LEFT_SPLIT_COUNT])
           && forall i :: 0 <= i < TABLE_MAX_PAGES && i != pageNum && i != right ==> pager.Page(i) == pages0[i]
         else if left >= TABLE_MAX_PAGES then r == Err(PageOutOfBounds)
         else
           && r == Ok(())
           && pager.numPages == left + 1
           && LeafHolds(pager.Page(left), Write(before, IS_ROOT_OFFSET, [0]), cells[..LEAF_NODE_LEFT_SPLIT_COUNT])
           && HasMaxKey(pager.Page(left))
           && pager.Page(pageNum) == NewRootBytes(pager.Page(left), left, right, GetNodeMaxKey(pager.Page(left)))
           && forall i :: 0 <= i < TABLE_MAX_PAGES && i != pageNum && i != right && i != left ==> pager.Page(i) == pages0[i]
  }

  /**
   * leaf_node_split_and_insert on the full root leaf: a fresh page is
   * initialised as a leaf, the 14 logical cells are copied into the two
   * pages (7 and 7), and then a new root is created, or the process stops
   * when the leaf is not a root.
   */
  method LeafNodeSplitAndInsert(cursor: Cursor, key: u32, value: Row) returns (r: Result<()>)
    requires cursor.table.Valid() && cursor.pageNum == cursor.table.rootPageNum
    requires LeafNumCells(cursor.Node()) == LEAF_NODE_MAX_CELLS && cursor.cellNum <= LEAF_NODE_MAX_CELLS
    modifies cursor.table.pager, cursor.table.pager.pages
    ensures cursor.table.Valid()
    ensures SplitOutcome(cursor.table.pager, r, old(cursor.pageNum), old(cursor.cellNum), SerializeRow(value), old(cursor.table.pager.Pages()), old(cursor.table.pager.numPages))
  {
    var table := cursor.table;
    var pager := table.pager;
    var pageNum, cellNum := cursor.pageNum, cursor.cellNum;
    ghost var before := pager.Page(pageNum);
    ghost var right := pager.numPages;
    var row := SerializeRow(value);
    var split := SplitLeaf(pager, pageNum, cellNum, row);
    if split.Err? {
      return Err(split.fatal);
    }
    ghost var cells := SplitCells(before, InitLeafBytes(old(pager.Page(right))), cellNum, row);
    ghost var halved := pager.Page(pageNum);
    ghost var rightPage := pager.Page(right);
    assert halved[NODE_TYPE_OFFSET] == before[NODE_TYPE_OFFSET];
    var oldNode := pager.pages[pageNum];
    if IsNodeRoot(oldNode[..]) {
      LeafHoldsTypeByte(halved, before, cells[..LEAF_NODE_LEFT_SPLIT_COUNT]);
      r := CreateNewRoot(table, split.value);
      assert pager.Page(right) == rightPage;
    } else {
      r := Err(UnimplementedParentUpdate);
    }
  }

  /**
   * The page writes of create_new_root: the root's bytes are copied to the
   * left child, whose root flag is then cleared; the root becomes an
   * initialised internal node with its root flag set, one key, child 0 the
   * left child, key 0 the left child's get_node_max_key and the given right
   * child.
   */
  method WriteNewRoot(root: array<byte>, leftChild: array<byte>, leftChildPageNum: u32, rightChildPageNum: u32)
    requires root.Length == PAGE_SIZE && leftChild.Length == PAGE_SIZE && root != leftChild
    requires HasMaxKey(Write(root[..], IS_ROOT_OFFSET, [0]))
    modifies root, leftChild
    ensures leftChild[..] == Write(old(root[..]), IS_ROOT_OFFSET, [0])
    ensures root[..] == NewRootBytes(leftChild[..], leftChildPageNum, rightChildPageNum, GetNodeMaxKey(leftChild[..]))
  {
    ghost var before := root[..];
    Memcpy(leftChild, 0, root, 0, PAGE_SIZE);
    SetNodeRoot(leftChild, false);

    InitializeInternalNode(root);
    SetNodeRoot(root, true);
    Store(root, INTERNAL_NODE_NUM_KEYS_OFFSET, U32Bytes(1));
    ReadAfterWrite(Write(InitInternalBytes(before), IS_ROOT_OFFSET, [1]), INTERNAL_NODE_NUM_KEYS_OFFSET, 1);
    var childSlot := InternalNodeChild(root[..], 0);
    Store(root, childSlot.value, U32Bytes(leftChildPageNum));
    var leftChildMaxKey := GetNodeMaxKey(leftChild[..]);
    Store(root, InternalNodeKey(0), U32Bytes(leftChildMaxKey));
    Store(root, INTERNAL_NODE_RIGHT_CHILD_OFFSET, U32Bytes(rightChildPageNum));
    NewRootIgnoresTypeByte(before, 0, leftChildPageNum, rightChildPageNum, leftChildMaxKey);
  }

  /**
   * create_new_root: the left child is the first page not in use; the root
   * page's bytes move to it and the root page is rewritten as a new root
   * over the left and the given right child. Root, left and right page
   * numbers are distinct and no other page changes. Running out of page
   * slots stops the process.
   */
  method CreateNewRoot(table: Table, rightChildPageNum: u32) returns (r: Result<()>)
    requires table.Valid() && rightChildPageNum < table.pager.numPages && rightChildPageNum != table.rootPageNum
    requires HasMaxKey(Write(table.Root(), IS_ROOT_OFFSET, [0]))
    modifies table.pager, table.pager.pages
    ensures table.Valid()
    ensures r == Ok(()) <==> old(table.pager.numPages) < TABLE_MAX_PAGES
    ensures r.Err? ==> r.fatal == PageOutOfBounds && table.pager.numPages == old(table.pager.numPages) && forall i :: 0 <= i < TABLE_MAX_PAGES ==> table.pager.Page(i) == old(table.pager.Page(i))
    ensures r.Ok? ==>
      var left := old(table.pager.numPages);
      && left != table.rootPageNum && left != rightChildPageNum
      && table.pager.numPages == left + 1
      && table.pager.Page(left) == Write(old(table.Root()), IS_ROOT_OFFSET, [0])
      && table.Root() == NewRootBytes(table.pager.Page(left), left, rightChildPageNum, GetNodeMaxKey(table.pager.Page(left)))
      && forall i :: 0 <= i < TABLE_MAX_PAGES && i != table.rootPageNum && i != left ==> table.pager.Page(i) == old(table.pager.Page(i))
  {
    var pager := table.pager;
    var root := pager.pages[table.rootPageNum];
    // get_page(right_child_page_num) looks up a page already in use and its buffer is not used.
    var leftChildPageNum := pager.GetUnusedPageNum();
    var page := pager.GetPage(leftChildPageNum);
    if page.Err? {
      return Err(page.fatal);
    }
    WriteNewRoot(root, page.value, leftChildPageNum, rightChildPageNum);
    r := Ok(());
  }
}
