# toy-sqlite B+tree core in Dafny

This project models the storage core of toy-sqlite, a small SQLite clone in C.
A table is a single B+tree of fixed-size 4096-byte pages. The pager caches up
to 100 of these pages. Rows have a fixed width (a `uint32_t` id, a 33-byte
username and a 256-byte email, 293 bytes in all) and are stored as the values
of leaf cells under their id as the key.

The model works on the page bytes themselves. Every `uint32_t` field is four
little-endian bytes at a fixed offset. Every operation reads and writes those
bytes, exactly as the C pointer code does.

- `layout.dfy` (module `Layout`): the constants of `include/db.h` and
  `include/btree.h`. The header arithmetic is checked, including
  `LEAF_NODE_MAX_CELLS == 13` and the 7/7 split counts.
- `memory.dfy` (module `Memory`): pages as byte sequences.
  - `ReadU32` reads a little-endian u32, and `U32Bytes` encodes one.
  - `Write` is the pure form of a store.
  - The `Store` and `Memcpy` methods act on `array<byte>` buffers.
- `rows.dfy` (module `Rows`): the `row` record and its fixed-offset
  serialisation, proved to round-trip both ways.
- `outcomes.dfy` (module `Outcomes`): the points where the C code calls
  `exit(EXIT_FAILURE)`. They become an `Err` of a `Result`.
- `node.dfy` (module `Node`): the node accessors of `src/btree.c`.
  - The common header, the leaf cells and the internal cells.
  - `internal_node_child` and `get_node_max_key`.
  - The new-root page image.
  - The order theory the search and the insert need: `LowerBound`, the
    `Bisect` reference for the binary search, and `InsertAt`/`InsertKey`.
- `tables.dfy` (module `Tables`): the `pager`, `table` and `cursor` records
  as classes.
  - The pager holds its 100 page buffers and the count of pages in use.
  - It has `get_page` and `get_unused_page_num`.
- `btree.dfy` (module `BTree`): the leaf algorithms, each an imperative
  method on the page arrays, proved against a specification function of the
  old bytes.
  - `leaf_node_find`, a binary search.
  - `leaf_node_insert`, a right shift of cells followed by three stores.
  - `leaf_node_split_and_insert`, which copies 14 logical cells into two
    pages.
  - `create_new_root`.
- `cursor.dfy` (module `Cursors`): `table_start`, `table_find`,
  `cursor_value` and `cursor_advance`.
- `query.dfy` (module `Query`): `execute_insert` (with its duplicate-key
  check), `execute_select` and `execute_statement`.

## The code as written

In several places the code does something other than what its own names,
comments and tests lead a reader to expect. `IS_ROOT_OFFSET` is named as a
field of its own but is defined as `NODE_TYPE_OFFSET`. The leaf header has
no next-leaf field, yet the constants test at `tests/test.c:417` expects
`LEAF_NODE_HEADER_SIZE: 14`. The comment at `src/btree.c:155` calls the new
root an internal node, and `tests/test.c:431-469` expects a scan of 15 rows
after a split, while the code leaves the new root reading as a leaf. In each
case the model follows the code:

- **Root flag and type byte.** `IS_ROOT_OFFSET` is defined as
  `NODE_TYPE_OFFSET`, so the root flag and the node type share byte 0. As a
  result:
  - `initialize_leaf_node` writes `NODE_LEAF` and then overwrites it with
    `false`, so a freshly initialised leaf reads as type `NODE_INTERNAL`.
  - A node is a root exactly when its type byte is not 0.
  - See `Node.IsNodeRoot`, `Node.GetNodeType` and `Node.InitializedLeaf`.
- **No next-leaf field.** The leaf header is 10 bytes, not 14. It has no
  next-leaf page number, so `LEAF_NODE_MAX_CELLS` is 13 and the split counts
  are 7 and 7. The constants test in `tests/test.c` expects a 14-byte
  header. The model follows the header files.
- **Internal key slot.** `internal_node_key` adds `INTERNAL_NODE_CHILD_SIZE`
  to a `uint32_t *`, which advances 16 bytes, not 4. The key of cell k
  therefore lands in the child slot of cell k + 2 (`Node.InternalNodeKey`).
- **The split stores the row at the cell start.** In the split loop,
  `serialize_row` is called on the destination cell, not on its value slot.
  - The key slot receives the id.
  - The row read back from that cell is shifted by four bytes
    (`BTree.SplitInsertedRow`). Its id is the first four username bytes, and
    its email ends with the destination's previous last four bytes.
  - The keys of the two halves are still the old keys with the new id
    inserted in order (`BTree.SplitKeys`, `BTree.SplitOrdered`).
- **The new root reads as a leaf.** `create_new_root` writes
  `set_node_root(root, true)` after `initialize_internal_node`, so the root
  page's type byte ends up 1 (`NODE_LEAF`). It then reads as a root leaf with
  one cell, whose key is the right child's page number
  (`Node.NewRootShape`).
  - Every later `table_find` treats the root as a leaf.
  - `execute_select` over it returns one row, not the 14 inserted
    (`Query.ScanAfterRootSplit`).
  - The 15-row scan that `tests/test.c:431-469` expects is not what this code
    produces.
- **No internal-node search or parent update.** `table_find` on a root not
  typed as a leaf stops the process. So does splitting a leaf that is not the
  root (`UnimplementedInternalSearch` and `UnimplementedParentUpdate`).
  `table_start` and `cursor_advance` never follow a sibling; a scan covers
  the root page only.
- **`leaf_node_find` leaves `end_of_table` uninitialised.** The model sets it
  to false.
- **Duplicate check.** `execute_insert` reports a duplicate only when the
  cell the search stops at holds the id. On a leaf whose keys ascend, that
  happens exactly when the id is present (`Query.DuplicateDetected`).

`get_page` and `get_unused_page_num` have no body in the sources (the pager
file is not part of this model). Their contracts follow their use:
- `get_page` hands back the cache slot's buffer and stops the process for a
  page number of at least `TABLE_MAX_PAGES`.
- A page number past the pages in use extends the count.
- `get_unused_page_num` returns the count of pages in use.

`serialize_row` and `deserialize_row` are only declared. They are modelled
as copies at the `ID_OFFSET`, `USERNAME_OFFSET` and `EMAIL_OFFSET` that
`include/db.h` defines.

## Model

| member | source | states |
|---|---|---|
| Layout.HeaderArithmetic | include/btree.h:13-63 | every derived layout constant equals the expression the headers compute it from |
| Layout.RowLayout | include/db.h:77-84 | id, username and email are 4, 33 and 256 bytes at offsets 0, 4 and 37; a row is 293 bytes and a keyed row fits in a page |
| Layout.CommonHeaderLayout | include/btree.h:13-20 | the root flag and the node type share byte 0; the parent pointer starts at byte 1; the common header is 6 bytes |
| Layout.LeafLayout | include/btree.h:23-39 | the leaf header is 10 bytes and a cell 297 bytes; 13 cells fit in a page and 14 do not |
| Layout.SplitCounts | include/btree.h:40-43 | the two halves are 7 and 7 cells, 14 in all; `i % 7` is the index within the destination node on both sides of the split |
| Layout.InternalLayout | include/btree.h:48-63 | key count at 6, right child at 10, internal header 14 bytes, internal cell 8 bytes |
| Memory.U32Bytes | src/btree.c:186 | the four bytes stored for a `uint32_t` read back as that value |
| Memory.ReadAfterWrite | src/btree.c:185-186 | a u32 stored at an offset reads back at that offset |
| Memory.ReadPastWrite | src/btree.c:185-187 | a store leaves every u32 field it does not overlap unchanged |
| Memory.Store | src/btree.c:185-187 | a store through a pointer changes exactly the bytes it writes |
| Memory.Memcpy | src/btree.c:179-181 | memcpy puts the len source bytes at the destination offset and keeps every other destination byte |
| Rows.SerializeRow | include/db.h:143 | a serialised row is 293 bytes; its first four bytes read back as the id, and the username and email bytes sit at their offsets |
| Rows.DeserializeRow | include/db.h:144 | deserialising a 293-byte payload gives the row whose serialisation is exactly that payload |
| Rows.DeserializeSerialize | include/db.h:143-144 | deserialising a serialised row gives back every field |
| Rows.Text | include/db.h:29-33 | the C string of a field is a NUL-free prefix of it |
| Rows.TextOfTerminated | include/db.h:31-32 | a field holding s, a NUL and anything after has text s |
| Rows.MaxLengthTextRoundTrip | tests/test.c:240-268 | a 32-byte username and a 255-byte email with their terminators survive storage unchanged |
| Node.GetNodeType | src/btree.c:19-22 | the node type is the byte the root flag is also kept in |
| Node.IsNodeRoot | src/btree.c:75-78 | is_node_root holds exactly when the node type is not NODE_INTERNAL |
| Node.SetNodeType | src/btree.c:24-27 | set_node_type changes byte 0 only |
| Node.SetNodeRoot | src/btree.c:80-83 | set_node_root writes 1 or 0 to byte 0 only |
| Node.InitializeLeafNode | src/btree.c:29-33 | initialize_leaf_node leaves the page as InitLeafBytes of its old bytes |
| Node.InitializedLeaf | src/btree.c:29-33 | an initialised leaf reads as type NODE_INTERNAL, not root, with 0 cells, and every other byte is kept |
| Node.InitializeInternalNode | src/btree.c:85-89 | initialize_internal_node leaves the page as InitInternalBytes of its old bytes |
| Node.InitializedInternal | src/btree.c:85-89 | an initialised internal node reads as type NODE_INTERNAL, not root, with 0 keys, and every other byte is kept |
| Node.LeafNodeCell | src/btree.c:7-9 | a cell starts past the leaf header and, for a cell number below 13, ends inside the page |
| Node.LeafNodeValue | src/btree.c:15-17 | the value slot starts after the cell's key and ends where the next cell begins |
| Node.CellOrder | src/btree.c:7-9 | cells are disjoint and laid out in cell-number order |
| Node.EncodeCell | src/btree.c:186-187 | a cell written with a key and a row reads back that key and that row |
| Node.LeafNumCellsField | src/btree.c:3-5 | a cell count stored through leaf_node_num_cells (`Node.LeafNumCells`) reads back, and storing the count read back changes no byte |
| Node.LeafKeyField | src/btree.c:11-13 | the same for the key of a cell below 13 through leaf_node_key (`Node.LeafKey`) |
| Node.LeafKeyOfCell | src/btree.c:11-13 | leaf_node_key reads the key at the start of the cell |
| Node.InternalNumKeysField | src/btree.c:35-37 | the same for the key count through internal_node_num_keys (`Node.InternalNumKeys`) |
| Node.InternalRightChildField | src/btree.c:39-41 | the same for the right child through internal_node_right_child (`Node.InternalRightChild`) |
| Node.InternalNodeCell | src/btree.c:43-46 | internal cells start past the internal header |
| Node.InternalNodeKey | src/btree.c:62-64 | the slot of key k is 16 bytes into cell k, which is the child slot of cell k + 2 |
| Node.InternalNodeChild | src/btree.c:48-60 | a slot exists iff the child number is at most the key count; the right child when equal, the cell's child slot when below; otherwise the process stops |
| Node.GetNodeMaxKey | src/btree.c:66-73 | for a leaf, the key of its last cell, which is not below any of its keys when they ascend; for an internal node, the last key slot |
| Node.NewRootShape | src/btree.c:148-162 | the new root has one key, child 0 = left, the right child = right and key 0 = the max key; it reads as a root leaf with one cell keyed by the right child's page number |
| Node.NewRootIgnoresTypeByte | src/btree.c:156-157 | the new root does not depend on the old root's byte 0 |
| Node.LowerBound | src/btree.c:199-216 | the reference position: every key before it is smaller and the key there is not smaller |
| Node.LowerBoundUnique | src/btree.c:199-216 | on ascending keys exactly one position has that property |
| Node.Bisect | src/btree.c:199-216 | on any keys the position lies in the searched range, the key is not above the key there, and unless the key is found there it is above the key just before |
| Node.BisectLowerBound | src/btree.c:199-216 | on ascending keys the binary search's position is the lower bound |
| Node.PresentAtLowerBound | src/query.c:11-16 | on ascending keys a key is present iff the lower bound holds it |
| Node.InsertAtLowerBoundSorted | src/btree.c:174-187 | inserting a new key at its lower bound keeps the keys ascending |
| Node.InsertKeySorted | src/query.c:3-21 | an insert keeps keys ascending, adds exactly the new key and grows by one iff the key was new |
| Node.InsertAllSorted | src/query.c:3-21 | any sequence of inserts leaves the keys ascending and holding exactly the old and inserted keys |
| Node.InsertThreeOneTwo | tests/test.c:338-364 | inserting 3, 1, 2 into an empty leaf gives the keys 1, 2, 3 |
| Tables.Pager.constructor | include/db.h:58-63 | a pager with TABLE_MAX_PAGES distinct page buffers of PAGE_SIZE bytes |
| Tables.Pager.GetPage | include/pager.h:7 | the slot's buffer for a page number below 100, the count of pages in use extended to cover it; otherwise the process stops and nothing changes |
| Tables.Pager.GetUnusedPageNum | include/pager.h:8 | the first page number not in use |
| Tables.Table.constructor | include/db.h:65-68 | a table over a pager with its root page in use |
| Tables.Cursor.constructor | include/db.h:70-75 | a cursor on a table, page and cell |
| BTree.ReadLeafKey | src/btree.c:203 | the key read at a cell index is the leaf's key at that index |
| BTree.LeafSearch | src/btree.c:199-216 | the binary-search loop ends at the position the Bisect reference computes |
| BTree.LeafNodeFind | src/btree.c:190-217 | a new cursor on the page at the Bisect position, which is the key's lower bound when the keys ascend |
| BTree.ShiftLoopShifts | src/btree.c:178-182 | after the loop, cells above the insert position hold the old cells moved up by one and every other byte is kept |
| BTree.ShiftCells | src/btree.c:174-183 | the shift loop on the buffer produces exactly the page the shift specification describes |
| BTree.InsertStores | src/btree.c:185-187 | after the shift, the count, key and row stores leave the old cells with the new cell at the cursor's position |
| BTree.ShiftAndStore | src/btree.c:174-187 | the leaf holds the old cells with (key, row) inserted at the cell number, and bytes past the cells are kept |
| BTree.LeafNodeInsert | src/btree.c:165-188 | below capacity the page holds the cells with the new one inserted and no other page changes; a full leaf is split as SplitOutcome states |
| BTree.SplitInsertedKey | src/btree.c:117-118 | the cell where the split stores the row gets the new id as its key |
| BTree.SplitKeys | src/btree.c:107-127 | the keys of the 14 logical cells are the old keys with the new id at the cell number |
| BTree.SplitInsertedRow | src/btree.c:117-118 | the row read back from that cell is shifted: its id is the username's first 4 bytes and its fields run 4 bytes late |
| BTree.SplitOrdered | src/btree.c:107-130 | at the lower bound of a new id, the keys are the old keys with the id inserted in order, each half ascends, and the left half is wholly below the right |
| BTree.SplitLoopLeft | src/btree.c:107-127 | the iterations with i below 7 fill the old page's cells with the left half and leave the new page alone |
| BTree.SplitLoopRight | src/btree.c:107-127 | the iterations with i of at least 7 fill the new page's cells with the right half and leave the old page alone |
| BTree.SplitCounted | src/btree.c:107-130 | the loop plus the two count stores leave the old page holding the first 7 logical cells and the new page the last 7 |
| BTree.SplitIteration | src/btree.c:108-126 | one iteration writes the inserted row or the shifted or unshifted old cell into the destination cell |
| BTree.SplitMove | src/btree.c:107-127 | the whole loop on the two buffers equals the loop specification |
| BTree.SplitCopy | src/btree.c:107-130 | the old page holds the first 7 logical cells and the new page the last 7 |
| BTree.SplitLeaf | src/btree.c:98-130 | the first unused page becomes a leaf holding the right half, the old page the left half, and no other page changes; out of page slots the process stops |
| BTree.LeafNodeSplitAndInsert | src/btree.c:91-137 | the right half goes to a fresh page; a non-root leaf keeps the left half and the process stops; a root moves the left half to a second fresh page and becomes the new root over both |
| BTree.WriteNewRoot | src/btree.c:153-162 | the left child is the old root with byte 0 cleared and the root is the new-root image over it |
| BTree.CreateNewRoot | src/btree.c:139-163 | the first unused page becomes the left child (a copy of the root with byte 0 cleared) and the root becomes the new-root image; no other page changes; out of page slots the process stops |
| Cursors.TableStart | src/cursor.c:3-14 | a new cursor on the root at cell 0, at the end exactly when the root has no cells |
| Cursors.TableFind | src/cursor.c:16-25 | a root typed as leaf gives the leaf_node_find cursor (the key's lower bound on ascending keys); any other root stops the process |
| Cursors.CursorValue | src/cursor.c:27-32 | the bytes under the cursor are the serialisation of the row its cell holds |
| Cursors.CursorAdvance | src/cursor.c:34-41 | the cell number grows by one modulo 2^32, and the cursor is at the end once it reaches the cell count, or if it already was |
| Query.DuplicateDetected | src/query.c:11-16 | a reported duplicate is always present; on ascending keys a duplicate is reported iff the id is present |
| Query.InsertedCells | src/query.c:18-20 | inserting a new row at its lower bound keeps the keys ascending and equal to the rows' ids, and the rows are the old rows with the new one inserted |
| Query.ExecuteInsert | src/query.c:3-21 | a non-leaf root stops the process; an id at the search position is a duplicate and nothing changes; otherwise the row is inserted in place or the full leaf is split |
| Query.InsertAtCursor | src/query.c:11-20 | the duplicate check at the cursor, then the insert, with the same outcome as ExecuteInsert |
| Query.InsertNew | src/query.c:18-20 | leaf_node_insert at the search position, reported as success |
| Query.InsertOnSortedLeaf | src/query.c:3-21 | on an ascending leaf below capacity, a duplicate is reported iff the id is present, the keys become InsertKey of the old keys and stay ascending and equal to the ids, and the rows gain the new row at its lower bound |
| Query.ScanAscends | src/query.c:23-35 | on an ascending leaf whose keys are the rows' ids, select returns rows in ascending id order |
| Query.ScanAfterRootSplit | src/btree.c:154-162 | after a root split the root reads as a leaf with one cell keyed by the right child's page number, so select returns one row |
| Query.ExecuteSelect | src/query.c:23-35 | the rows returned are the root leaf's rows, one per cell in cell order, and the result is success |
| Query.ExecuteStatement | src/query.c:37-44 | an insert has ExecuteInsert's outcome and returns no rows; a select returns the root's rows and changes no page |

## Left out

- Pager file I/O: opening, reading pages from the file, flushing and closing are not part of this model. Every cache slot's buffer is present from the start.
- `print_row`, `print_tree`, `print_leaf_node` and `print_constants` are output. `execute_select` returns the rows it would print, in print order.
- The REPL, meta-commands and statement parsing (`src/db.c` and `prepare_statement`) are not part of this model. A statement arrives already prepared.
- `internal_node_find`, internal-node insertion and split, parent-key update and next-leaf chaining are not implemented by this code. The model stops where the code stops (`UnimplementedInternalSearch`, `UnimplementedParentUpdate`).
- `malloc` and `free` of cursors: a cursor is a fresh object, and freeing it is not modelled.
- `exit(EXIT_FAILURE)` and its message are modelled as an `Err` result naming the reason.
- `Cursors.CursorValue`: requires a cell index below 13. The C code would read past the page for a larger index.
- `Query.ExecuteSelect`: requires the root's cell count to keep its cells inside the page. The C code would read past the page otherwise.
- `Query.ExecuteInsert`: requires that a root typed as a leaf keeps its cells inside the page. On keys that do not ascend, its contract states the outcome through the Bisect position rather than the key's lower bound.
- `BTree.LeafNodeInsert`: requires a full leaf's page to be the table's root page, because `create_new_root` rewrites the page at `table->root_page_num`, so the split is only the split of that page when the two are the same. A full leaf on any other page ends in `exit`: every page other than the root that the code creates has byte 0 cleared (`set_node_root(node, false)` in `initialize_leaf_node`, `set_node_root(left_child, false)` in `create_new_root`), so `is_node_root` is false for it.
- `BTree.CreateNewRoot`: requires the old root, with byte 0 cleared, to have a last key that `get_node_max_key` can read. With byte 0 cleared the left child reads as an internal node, so its count field must be at least 1 and the last key slot must lie inside the page. The call after a split always meets this, because the left half has 7 cells.
- `get_page` on a page already in use is modelled as direct access to that slot's buffer, because its body is not part of this model.
