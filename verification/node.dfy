/*
 * The node codec of src/btree.c: how a PAGE_SIZE buffer is read as a leaf
 * or an internal node at the fixed offsets of include/btree.h, the header
 * writers (set_node_type, set_node_root, initialize_*_node), and the
 * abstraction from a leaf page to its sequence of cells that the leaf
 * algorithms are specified against.
 */
module Node {
  import opened Layout
  import opened Memory
  import opened Rows
  import opened Outcomes

  /** A page buffer. */
  type Page = p: seq<byte> | |p| == PAGE_SIZE witness seq(PAGE_SIZE, _ => 0)

  /** A leaf cell: a 4-byte key followed by a serialised row. */
  type Cell = c: seq<byte> | |c| == LEAF_NODE_CELL_SIZE witness seq(LEAF_NODE_CELL_SIZE, _ => 0)

  // ---------------------------------------------------------------- common header

  /** get_node_type: the byte at NODE_TYPE_OFFSET, which is also the byte the root flag is kept in. */
  function GetNodeType(p: Page): (t: byte)
    ensures t == p[IS_ROOT_OFFSET]
  {
    p[NODE_TYPE_OFFSET]
  }

  /** is_node_root: the byte at IS_ROOT_OFFSET, read as a bool; it holds exactly when the type is not NODE_INTERNAL. */
  predicate IsNodeRoot(p: Page): (isRoot: bool)
    ensures isRoot <==> GetNodeType(p) != NODE_INTERNAL
  {
    p[IS_ROOT_OFFSET] != 0
  }

  /** The bytes initialize_leaf_node leaves: type NODE_LEAF, then root flag false, then a zero cell count. */
  function InitLeafBytes(p: Page): Page
  {
    Write(Write(Write(p, NODE_TYPE_OFFSET, [NODE_LEAF]), IS_ROOT_OFFSET, [0]), LEAF_NODE_NUM_CELLS_OFFSET, U32Bytes(0))
  }

  /**
   * A freshly initialised leaf holds no cells and is not a root, but since
   * clearing the root flag clears byte 0 its type reads NODE_INTERNAL.
   * Nothing past the header's type byte and cell count changes.
   */
  lemma InitializedLeaf(p: Page)
    ensures GetNodeType(InitLeafBytes(p)) == NODE_INTERNAL && !IsNodeRoot(InitLeafBytes(p))
    ensures LeafNumCells(InitLeafBytes(p)) == 0
    ensures forall k :: NODE_TYPE_OFFSET < k < PAGE_SIZE && !(LEAF_NODE_NUM_CELLS_OFFSET <= k < LEAF_NODE_HEADER_SIZE) ==>
              InitLeafBytes(p)[k] == p[k]
  {
    ReadAfterWrite(Write(Write(p, NODE_TYPE_OFFSET, [NODE_LEAF]), IS_ROOT_OFFSET, [0]), LEAF_NODE_NUM_CELLS_OFFSET, 0);
  }

  /** The bytes initialize_internal_node leaves: type NODE_INTERNAL, root flag false, zero keys. */
  function InitInternalBytes(p: Page): Page
  {
    Write(Write(Write(p, NODE_TYPE_OFFSET, [NODE_INTERNAL]), IS_ROOT_OFFSET, [0]), INTERNAL_NODE_NUM_KEYS_OFFSET, U32Bytes(0))
  }

  /** A freshly initialised internal node has type NODE_INTERNAL, is not a root and holds no keys. */
  lemma InitializedInternal(p: Page)
    ensures GetNodeType(InitInternalBytes(p)) == NODE_INTERNAL && !IsNodeRoot(InitInternalBytes(p))
    ensures InternalNumKeys(InitInternalBytes(p)) == 0
    ensures forall k :: NODE_TYPE_OFFSET < k < PAGE_SIZE && !(INTERNAL_NODE_NUM_KEYS_OFFSET <= k < INTERNAL_NODE_RIGHT_CHILD_OFFSET) ==>
              InitInternalBytes(p)[k] == p[k]
  {
    ReadAfterWrite(Write(Write(p, NODE_TYPE_OFFSET, [NODE_INTERNAL]), IS_ROOT_OFFSET, [0]), INTERNAL_NODE_NUM_KEYS_OFFSET, 0);
  }

  /** set_node_type. */
  method SetNodeType(node: array<byte>, nodeType: byte)
    requires node.Length == PAGE_SIZE
    modifies node
    ensures node[..] == Write(old(node[..]), NODE_TYPE_OFFSET, [nodeType])
  {
    Store(node, NODE_TYPE_OFFSET, [nodeType]);
  }

  /** set_node_root: a bool stored as one byte at IS_ROOT_OFFSET. */
  method SetNodeRoot(node: array<byte>, isRoot: bool)
    requires node.Length == PAGE_SIZE
    modifies node
    ensures node[..] == Write(old(node[..]), IS_ROOT_OFFSET, [if isRoot then 1 else 0])
  {
    Store(node, IS_ROOT_OFFSET, [if isRoot then 1 else 0]);
  }

  /** initialize_leaf_node. */
  method InitializeLeafNode(node: array<byte>)
    requires node.Length == PAGE_SIZE
    modifies node
    ensures node[..] == InitLeafBytes(old(node[..]))
  {
    SetNodeType(node, NODE_LEAF);
    SetNodeRoot(node, false);
    Store(node, LEAF_NODE_NUM_CELLS_OFFSET, U32Bytes(0));
  }

  /** initialize_internal_node. */
  method InitializeInternalNode(node: array<byte>)
    requires node.Length == PAGE_SIZE
    modifies node
    ensures node[..] == InitInternalBytes(old(node[..]))
  {
    SetNodeType(node, NODE_INTERNAL);
    SetNodeRoot(node, false);
    Store(node, INTERNAL_NODE_NUM_KEYS_OFFSET, U32Bytes(0));
  }

  // ---------------------------------------------------------------- leaf nodes

  /** *leaf_node_num_cells(node). */
  function LeafNumCells(p: Page): u32
  {
    ReadU32(p, LEAF_NODE_NUM_CELLS_OFFSET)
  }

  /** leaf_node_cell (and leaf_node_key, which points at the same byte): where cell cellNum begins. */
  function LeafNodeCell(cellNum: nat): (off: nat)
    ensures LEAF_NODE_HEADER_SIZE <= off
    ensures cellNum < LEAF_NODE_MAX_CELLS ==> off + LEAF_NODE_CELL_SIZE <= PAGE_SIZE
  {
    LEAF_NODE_HEADER_SIZE + cellNum * LEAF_NODE_CELL_SIZE
  }

  /** leaf_node_value: the row slot of a cell lies past its key and ends where the next cell begins. */
  function LeafNodeValue(cellNum: nat): (off: nat)
    ensures LeafNodeCell(cellNum) < off
    ensures off + LEAF_NODE_VALUE_SIZE == LeafNodeCell(cellNum + 1)
  {
    LeafNodeCell(cellNum) + LEAF_NODE_KEY_SIZE
  }

  /** Cells are laid out in index order without overlap. */
  lemma CellOrder(i: nat, j: nat)
    requires i < j
    ensures LeafNodeCell(i + 1) <= LeafNodeCell(j)
  {
  }

  /** *leaf_node_key(node, cellNum). */
  function LeafKey(p: Page, cellNum: nat): u32
    requires cellNum < LEAF_NODE_MAX_CELLS
  {
    ReadU32(p, LeafNodeCell(cellNum))
  }

  /**
   * The cell count is the u32 field at LEAF_NODE_NUM_CELLS_OFFSET: a count
   * stored there reads back, and storing back the count read leaves the
   * page as it was.
   */
  lemma LeafNumCellsField(p: Page, n: u32)
    ensures LeafNumCells(Write(p, LEAF_NODE_NUM_CELLS_OFFSET, U32Bytes(n))) == n
    ensures Write(p, LEAF_NODE_NUM_CELLS_OFFSET, U32Bytes(LeafNumCells(p))) == p
  {
    ReadAfterWrite(p, LEAF_NODE_NUM_CELLS_OFFSET, n);
    U32BytesOfRead(p, LEAF_NODE_NUM_CELLS_OFFSET);
  }

  /** The key of cell cellNum is the u32 field at the cell's start, in the same sense. */
  lemma LeafKeyField(p: Page, cellNum: nat, key: u32)
    requires cellNum < LEAF_NODE_MAX_CELLS
    ensures LeafKey(Write(p, LeafNodeCell(cellNum), U32Bytes(key)), cellNum) == key
    ensures Write(p, LeafNodeCell(cellNum), U32Bytes(LeafKey(p, cellNum))) == p
  {
    ReadAfterWrite(p, LeafNodeCell(cellNum), key);
    U32BytesOfRead(p, LeafNodeCell(cellNum));
  }

  /** The LEAF_NODE_CELL_SIZE bytes of cell cellNum. */
  function LeafCell(p: Page, cellNum: nat): Cell
    requires cellNum < LEAF_NODE_MAX_CELLS
  {
    p[LeafNodeCell(cellNum)..][..LEAF_NODE_CELL_SIZE]
  }

  /** The key a cell holds in its key slot. */
  function CellKey(c: Cell): u32
  {
    ReadU32(c, LEAF_NODE_KEY_OFFSET)
  }

  /** The row a cell holds in its value slot, as deserialize_row reads it. */
  function CellRow(c: Cell): Row
  {
    DeserializeRow(c[LEAF_NODE_VALUE_OFFSET..])
  }

  /** The cell leaf_node_insert writes: the key in the key slot, the serialised row in the value slot. */
  function EncodeCell(key: u32, value: Row): (c: Cell)
    ensures CellKey(c) == key && CellRow(c) == value
  {
    assert (U32Bytes(key) + SerializeRow(value))[LEAF_NODE_VALUE_OFFSET..] == SerializeRow(value);
    DeserializeSerialize(value);
    U32Bytes(key) + SerializeRow(value)
  }

  /** The key read through leaf_node_key is the key of the cell. */
  lemma LeafKeyOfCell(p: Page, cellNum: nat)
    requires cellNum < LEAF_NODE_MAX_CELLS
    ensures LeafKey(p, cellNum) == CellKey(LeafCell(p, cellNum))
  {
    assert LeafCell(p, cellNum)[..4] == p[LeafNodeCell(cellNum)..][..4];
  }

  /** The leaf's cell count is within capacity, so all its cells lie inside the page. */
  predicate LeafCellsFit(p: Page)
  {
    LeafNumCells(p) <= LEAF_NODE_MAX_CELLS
  }

  /** The leaf's cells in cell order: the abstraction the leaf algorithms are specified against. */
  function LeafCells(p: Page): (cells: seq<Cell>)
    requires LeafCellsFit(p)
    ensures |cells| == LeafNumCells(p)
    ensures forall i :: 0 <= i < |cells| ==> cells[i] == LeafCell(p, i)
  {
    seq(LeafNumCells(p), i requires 0 <= i < LeafNumCells(p) => LeafCell(p, i))
  }

  function Keys(cells: seq<Cell>): (keys: seq<u32>)
    ensures |keys| == |cells|
    ensures forall i :: 0 <= i < |cells| ==> keys[i] == CellKey(cells[i])
  {
    seq(|cells|, i requires 0 <= i < |cells| => CellKey(cells[i]))
  }

  function RowsOf(cells: seq<Cell>): (rows: seq<Row>)
    ensures |rows| == |cells|
    ensures forall i :: 0 <= i < |cells| ==> rows[i] == CellRow(cells[i])
  {
    seq(|cells|, i requires 0 <= i < |cells| => CellRow(cells[i]))
  }

  /** The keys of the leaf in cell order. */
  function LeafKeys(p: Page): seq<u32>
    requires LeafCellsFit(p)
  {
    Keys(LeafCells(p))
  }

  /** The rows of the leaf in cell order. */
  function LeafRows(p: Page): seq<Row>
    requires LeafCellsFit(p)
  {
    RowsOf(LeafCells(p))
  }

  /** Every cell's key equals the id of the row it holds: true of every cell leaf_node_insert writes. */
  predicate KeysMatchIds(cells: seq<Cell>)
  {
    forall i :: 0 <= i < |cells| ==> CellKey(cells[i]) == CellRow(cells[i]).id
  }

  /**
   * `after` is `before` with its cell array replaced by `cells`: the count
   * field says |cells|, cell j is cells[j], and every byte outside the count
   * field and those cells is as it was.
   */
  ghost predicate LeafHolds(after: Page, before: Page, cells: seq<Cell>)
  {
    && |cells| <= LEAF_NODE_MAX_CELLS
    && LeafNumCells(after) == |cells|
    && (forall j :: 0 <= j < |cells| ==> LeafCell(after, j) == cells[j])
    && (forall k :: 0 <= k < PAGE_SIZE && !(LEAF_NODE_NUM_CELLS_OFFSET <= k < LeafNodeCell(|cells|)) ==> after[k] == before[k])
  }

  /** A page that holds `cells` has them as its cell sequence. */
  lemma LeafHoldsCells(after: Page, before: Page, cells: seq<Cell>)
    requires LeafHolds(after, before, cells)
    ensures LeafCellsFit(after) && LeafCells(after) == cells
  {
  }

  /** Two pages agreeing on the bytes of cell j have the same cell j. */
  lemma SameCell(a: Page, b: Page, j: nat)
    requires j < LEAF_NODE_MAX_CELLS
    requires forall k :: LeafNodeCell(j) <= k < LeafNodeCell(j + 1) ==> a[k] == b[k]
    ensures LeafCell(a, j) == LeafCell(b, j)
  {
  }

  /** A write inside cell j is the same write on the cell's own bytes. */
  lemma CellWrite(p: Page, j: nat, at: nat, b: seq<byte>)
    requires j < LEAF_NODE_MAX_CELLS && at + |b| <= LEAF_NODE_CELL_SIZE
    ensures LeafCell(Write(p, LeafNodeCell(j) + at, b), j) == Write(LeafCell(p, j), at, b)
  {
  }

  /** Writing a key and then a row over a whole cell leaves exactly the encoded cell. */
  lemma CellOverwritten(c: Cell, key: u32, value: Row)
    ensures Write(Write(c, 0, U32Bytes(key)), LEAF_NODE_VALUE_OFFSET, SerializeRow(value)) == EncodeCell(key, value)
  {
  }

  /** A write that misses cell j leaves it as it was. */
  lemma CellAfterWrite(p: Page, off: nat, b: seq<byte>, j: nat)
    requires off + |b| <= PAGE_SIZE && j < LEAF_NODE_MAX_CELLS
    requires off + |b| <= LeafNodeCell(j) || LeafNodeCell(j + 1) <= off
    ensures LeafCell(Write(p, off, b), j) == LeafCell(p, j)
  {
  }

  /** A write of at most one cell's bytes at the start of cell j replaces that prefix of the cell. */
  lemma CellWritten(p: Page, j: nat, b: seq<byte>)
    requires j < LEAF_NODE_MAX_CELLS && |b| <= LEAF_NODE_CELL_SIZE
    ensures LeafCell(Write(p, LeafNodeCell(j), b), j) == b + LeafCell(p, j)[|b|..]
  {
  }

  // ---------------------------------------------------------------- internal nodes

  /** *internal_node_num_keys(node). */
  function InternalNumKeys(p: Page): u32
  {
    ReadU32(p, INTERNAL_NODE_NUM_KEYS_OFFSET)
  }

  /** *internal_node_right_child(node). */
  function InternalRightChild(p: Page): u32
  {
    ReadU32(p, INTERNAL_NODE_RIGHT_CHILD_OFFSET)
  }

  /** The key count of an internal node is the u32 field at INTERNAL_NODE_NUM_KEYS_OFFSET, in the same sense. */
  lemma InternalNumKeysField(p: Page, n: u32)
    ensures InternalNumKeys(Write(p, INTERNAL_NODE_NUM_KEYS_OFFSET, U32Bytes(n))) == n
    ensures Write(p, INTERNAL_NODE_NUM_KEYS_OFFSET, U32Bytes(InternalNumKeys(p))) == p
  {
    ReadAfterWrite(p, INTERNAL_NODE_NUM_KEYS_OFFSET, n);
    U32BytesOfRead(p, INTERNAL_NODE_NUM_KEYS_OFFSET);
  }

  /** The right child is the u32 field at INTERNAL_NODE_RIGHT_CHILD_OFFSET, in the same sense. */
  lemma InternalRightChildField(p: Page, child: u32)
    ensures InternalRightChild(Write(p, INTERNAL_NODE_RIGHT_CHILD_OFFSET, U32Bytes(child))) == child
    ensures Write(p, INTERNAL_NODE_RIGHT_CHILD_OFFSET, U32Bytes(InternalRightChild(p))) == p
  {
    ReadAfterWrite(p, INTERNAL_NODE_RIGHT_CHILD_OFFSET, child);
    U32BytesOfRead(p, INTERNAL_NODE_RIGHT_CHILD_OFFSET);
  }

  /** internal_node_cell: where (child, key) cell cellNum begins, past the internal header. */
  function InternalNodeCell(cellNum: nat): (off: nat)
    ensures INTERNAL_NODE_HEADER_SIZE <= off
  {
    INTERNAL_NODE_HEADER_SIZE + cellNum * INTERNAL_NODE_CELL_SIZE
  }

  /**
   * internal_node_key: the code adds INTERNAL_NODE_CHILD_SIZE to a
   * `uint32_t *`, which advances by that many uint32_t's, i.e. 16 bytes:
   * the slot of key k is the child slot of cell k + 2.
   */
  function InternalNodeKey(keyNum: nat): (off: nat)
    ensures INTERNAL_NODE_HEADER_SIZE < off
    ensures off == InternalNodeCell(keyNum + 2)
  {
    InternalNodeCell(keyNum) + INTERNAL_NODE_CHILD_SIZE * 4
  }

  /**
   * internal_node_child: the slot holding child childNum. Child num_keys is
   * the right child in the header, a smaller index is the child slot of its
   * cell, and a larger index stops the process.
   */
  function InternalNodeChild(p: Page, childNum: nat): (r: Result<nat>)
    ensures r.Ok? <==> childNum <= InternalNumKeys(p)
    ensures r.Err? ==> r.fatal == ChildOutOfRange
    ensures childNum == InternalNumKeys(p) ==> r == Ok(INTERNAL_NODE_RIGHT_CHILD_OFFSET)
    ensures childNum < InternalNumKeys(p) ==> r == Ok(InternalNodeCell(childNum))
  {
    var numKeys := InternalNumKeys(p);
    if childNum > numKeys then Err(ChildOutOfRange)
    else if childNum == numKeys then Ok(INTERNAL_NODE_RIGHT_CHILD_OFFSET)
    else Ok(InternalNodeCell(childNum))
  }

  /** The node kinds get_node_max_key's switch handles. */
  predicate HasMaxKey(p: Page)
  {
    match GetNodeType(p)
    case 0 => 1 <= InternalNumKeys(p) && InternalNodeKey(InternalNumKeys(p) - 1) + 4 <= PAGE_SIZE
    case 1 => 1 <= LeafNumCells(p) <= LEAF_NODE_MAX_CELLS
    case _ => false
  }

  /**
   * get_node_max_key: for a leaf, the key of its last cell, which is its
   * largest key when the keys ascend; for an internal node, the key stored
   * for its last key index, read once without descending into children.
   */
  function GetNodeMaxKey(p: Page): (r: u32)
    requires HasMaxKey(p)
    ensures GetNodeType(p) == NODE_LEAF ==> r == LeafKeys(p)[LeafNumCells(p) - 1]
    ensures GetNodeType(p) == NODE_LEAF && StrictlySorted(LeafKeys(p)) ==> forall k :: k in LeafKeys(p) ==> k <= r
    ensures GetNodeType(p) == NODE_INTERNAL ==> r == ReadU32(p, InternalNodeKey(InternalNumKeys(p) - 1))
  {
    if GetNodeType(p) == NODE_INTERNAL then ReadU32(p, InternalNodeKey(InternalNumKeys(p) - 1))
    else LeafKey(p, LeafNumCells(p) - 1)
  }

  /**
   * The bytes create_new_root leaves in the root page p: an initialised
   * internal node, then the root flag set, one key, child 0 = left, key 0 =
   * maxKey and the right child = right. Everything past those fields keeps
   * p's bytes.
   */
  function NewRootBytes(p: Page, left: u32, right: u32, maxKey: u32): Page
  {
    var q0 := Write(InitInternalBytes(p), IS_ROOT_OFFSET, [1]);
    var q1 := Write(q0, INTERNAL_NODE_NUM_KEYS_OFFSET, U32Bytes(1));
    var q2 := Write(q1, InternalNodeCell(0), U32Bytes(left));
    var q3 := Write(q2, InternalNodeKey(0), U32Bytes(maxKey));
    Write(q3, INTERNAL_NODE_RIGHT_CHILD_OFFSET, U32Bytes(right))
  }

  /**
   * The new root, read as an internal node, has one key, child 0 = left,
   * child 1 (the right child) = right and key 0 = maxKey. Because the root
   * flag is the type byte it reads as a root of type NODE_LEAF, with one
   * cell whose key is the right child's page number. Bytes from the second
   * internal cell on are those of p, except key 0's slot.
   */
  lemma NewRootShape(p: Page, left: u32, right: u32, maxKey: u32)
    ensures var q := NewRootBytes(p, left, right, maxKey);
      && IsNodeRoot(q) && GetNodeType(q) == NODE_LEAF
      && InternalNumKeys(q) == 1
      && InternalNodeChild(q, 0) == Ok(InternalNodeCell(0)) && ReadU32(q, InternalNodeCell(0)) == left
      && InternalNodeChild(q, 1) == Ok(INTERNAL_NODE_RIGHT_CHILD_OFFSET) && InternalRightChild(q) == right
      && ReadU32(q, InternalNodeKey(0)) == maxKey
      && LeafNumCells(q) == 1 && LeafKey(q, 0) == right
      && forall k :: InternalNodeCell(1) <= k < PAGE_SIZE && !(InternalNodeKey(0) <= k < InternalNodeKey(0) + 4) ==> q[k] == p[k]
  {
    var q0 := Write(InitInternalBytes(p), IS_ROOT_OFFSET, [1]);
    var q1 := Write(q0, INTERNAL_NODE_NUM_KEYS_OFFSET, U32Bytes(1));
    var q2 := Write(q1, InternalNodeCell(0), U32Bytes(left));
    var q3 := Write(q2, InternalNodeKey(0), U32Bytes(maxKey));
    var q := Write(q3, INTERNAL_NODE_RIGHT_CHILD_OFFSET, U32Bytes(right));
    ReadAfterWrite(q0, INTERNAL_NODE_NUM_KEYS_OFFSET, 1);
    ReadPastWrite(q1, InternalNodeCell(0), U32Bytes(left), INTERNAL_NODE_NUM_KEYS_OFFSET);
    ReadPastWrite(q2, InternalNodeKey(0), U32Bytes(maxKey), INTERNAL_NODE_NUM_KEYS_OFFSET);
    ReadPastWrite(q3, INTERNAL_NODE_RIGHT_CHILD_OFFSET, U32Bytes(right), INTERNAL_NODE_NUM_KEYS_OFFSET);
    ReadAfterWrite(q1, InternalNodeCell(0), left);
    ReadPastWrite(q2, InternalNodeKey(0), U32Bytes(maxKey), InternalNodeCell(0));
    ReadPastWrite(q3, INTERNAL_NODE_RIGHT_CHILD_OFFSET, U32Bytes(right), InternalNodeCell(0));
    ReadAfterWrite(q2, InternalNodeKey(0), maxKey);
    ReadPastWrite(q3, INTERNAL_NODE_RIGHT_CHILD_OFFSET, U32Bytes(right), InternalNodeKey(0));
    ReadAfterWrite(q3, INTERNAL_NODE_RIGHT_CHILD_OFFSET, right);
  }

  /** create_new_root overwrites the root's first byte, so its result does not depend on it. */
  lemma NewRootIgnoresTypeByte(p: Page, b: byte, left: u32, right: u32, maxKey: u32)
    ensures NewRootBytes(Write(p, NODE_TYPE_OFFSET, [b]), left, right, maxKey) == NewRootBytes(p, left, right, maxKey)
  {
    assert Write(Write(p, NODE_TYPE_OFFSET, [b]), NODE_TYPE_OFFSET, [NODE_INTERNAL]) == Write(p, NODE_TYPE_OFFSET, [NODE_INTERNAL]);
  }

  // ---------------------------------------------------------------- keys in cell order

  /** Keys ascend strictly: sorted, and no key twice. */
  predicate StrictlySorted(keys: seq<u32>)
  {
    forall i, j :: 0 <= i < j < |keys| ==> keys[i] < keys[j]
  }

  /**
   * The number of leading keys below `key`: on ascending keys, the index of
   * `key` if present and otherwise the index of the first larger key.
   */
  function LowerBound(keys: seq<u32>, key: u32): (i: nat)
    ensures i <= |keys|
    ensures forall j :: 0 <= j < i ==> keys[j] < key
    ensures i < |keys| ==> key <= keys[i]
  {
    if keys == [] || key <= keys[0] then 0 else 1 + LowerBound(keys[1..], key)
  }

  /** On ascending keys, any index with only smaller keys before it and no smaller key at it is the lower bound. */
  lemma LowerBoundUnique(keys: seq<u32>, key: u32, i: nat)
    requires StrictlySorted(keys) && i <= |keys|
    requires forall j :: 0 <= j < i ==> keys[j] < key
    requires i < |keys| ==> key <= keys[i]
    ensures LowerBound(keys, key) == i
  {
  }

  /**
   * The cell the binary search of leaf_node_find settles on between lo and
   * hi: the probed index when its key is the key, and otherwise the point
   * where the range closes. It needs no ordering of the keys: whatever the
   * keys, the key is not above the key at i, and unless the key is at i it
   * is above the key just before it, within the range.
   */
  function Bisect(keys: seq<u32>, key: u32, lo: nat, hi: nat): (i: nat)
    requires lo <= hi <= |keys|
    ensures lo <= i <= hi
    ensures i < hi ==> key <= keys[i]
    ensures lo < i && !(i < hi && keys[i] == key) ==> keys[i - 1] < key
    decreases hi - lo
  {
    if lo == hi then lo
    else
      var mid := (lo + hi) / 2;
      if key == keys[mid] then mid
      else if key < keys[mid] then Bisect(keys, key, lo, mid)
      else Bisect(keys, key, mid + 1, hi)
  }

  /**
   * On ascending keys, a search whose range has only smaller keys below it
   * and only larger keys above it ends at the lower bound.
   */
  lemma BisectLowerBound(keys: seq<u32>, key: u32, lo: nat, hi: nat)
    requires StrictlySorted(keys) && lo <= hi <= |keys|
    requires forall j :: 0 <= j < lo ==> keys[j] < key
    requires forall j :: hi <= j < |keys| ==> key < keys[j]
    ensures Bisect(keys, key, lo, hi) == LowerBound(keys, key)
  {
    LowerBoundUnique(keys, key, Bisect(keys, key, lo, hi));
  }

  /** On ascending keys the key is present exactly when it sits at its lower bound. */
  lemma PresentAtLowerBound(keys: seq<u32>, key: u32)
    requires StrictlySorted(keys)
    ensures key in keys <==> (LowerBound(keys, key) < |keys| && keys[LowerBound(keys, key)] == key)
  {
    var lb := LowerBound(keys, key);
    if key in keys {
      var j :| 0 <= j < |keys| && keys[j] == key;
      if j > lb {
        assert false;
      }
    }
  }

  /** s with x inserted at position i. */
  function InsertAt<T>(s: seq<T>, i: nat, x: T): (r: seq<T>)
    requires i <= |s|
    ensures |r| == |s| + 1
    ensures forall j {:trigger r[j]} :: 0 <= j < |r| ==> r[j] == if j < i then s[j] else if j == i then x else s[j - 1]
  {
    s[..i] + [x] + s[i..]
  }

  /** The keys after execute_insert of `key` into a leaf with keys `keys`: unchanged for a duplicate, else inserted at the lower bound. */
  function InsertKey(keys: seq<u32>, key: u32): seq<u32>
  {
    var i := LowerBound(keys, key);
    if i < |keys| && keys[i] == key then keys else InsertAt(keys, i, key)
  }

  /** Inserting a key at its lower bound keeps ascending keys ascending. */
  lemma InsertAtLowerBoundSorted(keys: seq<u32>, key: u32)
    requires StrictlySorted(keys) && key !in keys
    ensures StrictlySorted(InsertAt(keys, LowerBound(keys, key), key))
  {
    var i := LowerBound(keys, key);
    var r := InsertAt(keys, i, key);
    forall a, b | 0 <= a < b < |r| ensures r[a] < r[b] {
      if a == i {
        assert key <= keys[b - 1] && key != keys[b - 1];
      } else if b == i {
        assert r[a] == keys[a];
      } else if a < i && b > i {
        assert keys[a] < key <= keys[b - 1];
      }
    }
  }

  /** Inserting x anywhere keeps every element and adds x. */
  lemma InsertAtElements<T>(s: seq<T>, i: nat, x: T)
    requires i <= |s|
    ensures forall y :: y in InsertAt(s, i, x) <==> y in s || y == x
  {
    assert InsertAt(s, i, x) == s[..i] + [x] + s[i..];
    assert s == s[..i] + s[i..];
  }

  /** Inserting at the lower bound keeps the keys ascending and adds exactly the new key. */
  lemma InsertKeySorted(keys: seq<u32>, key: u32)
    requires StrictlySorted(keys)
    ensures StrictlySorted(InsertKey(keys, key))
    ensures forall k :: k in InsertKey(keys, key) <==> k in keys || k == key
    ensures |InsertKey(keys, key)| == if key in keys then |keys| else |keys| + 1
  {
    PresentAtLowerBound(keys, key);
    if key !in keys {
      InsertAtLowerBoundSorted(keys, key);
      InsertAtElements(keys, LowerBound(keys, key), key);
    }
  }

  /** The keys after inserting each of `ks` in turn, starting from `keys`. */
  function InsertAll(keys: seq<u32>, ks: seq<u32>): seq<u32>
    decreases |ks|
  {
    if ks == [] then keys else InsertAll(InsertKey(keys, ks[0]), ks[1..])
  }

  /** Whatever the order of the inserts, the keys end up ascending and are exactly those inserted. */
  lemma {:induction false} InsertAllSorted(keys: seq<u32>, ks: seq<u32>)
    requires StrictlySorted(keys)
    ensures StrictlySorted(InsertAll(keys, ks))
    ensures forall k :: k in InsertAll(keys, ks) <==> k in keys || k in ks
    decreases |ks|
  {
    if ks != [] {
      InsertKeySorted(keys, ks[0]);
      InsertAllSorted(InsertKey(keys, ks[0]), ks[1..]);
      assert forall k :: k in ks <==> k == ks[0] || k in ks[1..];
    }
  }

  /** Inserting 3, 1 and 2 into an empty leaf gives the keys 1, 2, 3 in cell order. */
  lemma InsertThreeOneTwo()
    ensures InsertAll([], [3, 1, 2]) == [1, 2, 3]
  {
  }

  /** Keys and rows of a cell sequence with a cell inserted. */
  lemma KeysRowsOfInsert(cells: seq<Cell>, i: nat, c: Cell)
    requires i <= |cells|
    ensures Keys(InsertAt(cells, i, c)) == InsertAt(Keys(cells), i, CellKey(c))
    ensures RowsOf(InsertAt(cells, i, c)) == InsertAt(RowsOf(cells), i, CellRow(c))
  {
  }
}
