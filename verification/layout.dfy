/*
 * Layout constants of the store, as declared in include/db.h (row and page
 * sizes, the pager's cache size) and include/btree.h (node headers and
 * bodies). Each derived constant is written out with its value and the
 * expression the header computes it from; HeaderArithmetic proves that
 * every value is that expression, and the lemmas after it check the
 * arithmetic the headers rely on.
 */
module Layout {

  /** One byte of a page buffer. */
  type byte = b: int | 0 <= b < 0x100

  /** A C `uint32_t`. */
  type u32 = x: int | 0 <= x < 0x1_0000_0000

  // Row schema (include/db.h). The username and email columns are C strings,
  // so each field is one byte wider than its column for the terminator.
  const COLUMN_USERNAME_SIZE := 32
  const COLUMN_EMAIL_SIZE := 255
  const TABLE_MAX_PAGES := 100

  const ID_SIZE := 4
  const USERNAME_SIZE := 33  // COLUMN_USERNAME_SIZE + 1
  const EMAIL_SIZE := 256  // COLUMN_EMAIL_SIZE + 1
  const ID_OFFSET := 0
  const USERNAME_OFFSET := 4  // ID_OFFSET + ID_SIZE
  const EMAIL_OFFSET := 37  // USERNAME_OFFSET + USERNAME_SIZE
  const ROW_SIZE := 293  // ID_SIZE + USERNAME_SIZE + EMAIL_SIZE
  const PAGE_SIZE := 4096

  // Node type tags (the enum node_type).
  const NODE_INTERNAL := 0
  const NODE_LEAF := 1

  // Common node header. The root flag is declared at the SAME offset as the
  // node type, so the two one-byte fields share byte 0.
  const NODE_TYPE_SIZE := 1
  const NODE_TYPE_OFFSET := 0
  const IS_ROOT_SIZE := 1
  const IS_ROOT_OFFSET := 0  // NODE_TYPE_OFFSET
  const PARENT_POINTER_SIZE := 4
  const PARENT_POINTER_OFFSET := 1  // IS_ROOT_SIZE + IS_ROOT_OFFSET
  const COMMON_NODE_HEADER_SIZE := 6  // NODE_TYPE_SIZE + IS_ROOT_SIZE + PARENT_POINTER_SIZE

  // Leaf node header and body: no next-leaf field, so the header is 10 bytes.
  const LEAF_NODE_NUM_CELLS_SIZE := 4
  const LEAF_NODE_NUM_CELLS_OFFSET := 6  // COMMON_NODE_HEADER_SIZE
  const LEAF_NODE_HEADER_SIZE := 10  // COMMON_NODE_HEADER_SIZE + LEAF_NODE_NUM_CELLS_SIZE
  const LEAF_NODE_KEY_SIZE := 4
  const LEAF_NODE_KEY_OFFSET := 0
  const LEAF_NODE_VALUE_SIZE := 293  // ROW_SIZE
  const LEAF_NODE_VALUE_OFFSET := 4  // LEAF_NODE_KEY_SIZE + LEAF_NODE_KEY_OFFSET
  const LEAF_NODE_CELL_SIZE := 297  // LEAF_NODE_KEY_SIZE + LEAF_NODE_VALUE_SIZE
  const LEAF_NODE_SPACE_FOR_CELLS := 4086  // PAGE_SIZE - LEAF_NODE_HEADER_SIZE
  const LEAF_NODE_MAX_CELLS := 13  // LEAF_NODE_SPACE_FOR_CELLS / LEAF_NODE_CELL_SIZE
  const LEAF_NODE_RIGHT_SPLIT_COUNT := 7  // (LEAF_NODE_MAX_CELLS + 1) / 2
  const LEAF_NODE_LEFT_SPLIT_COUNT := 7  // (LEAF_NODE_MAX_CELLS + 1) - LEAF_NODE_RIGHT_SPLIT_COUNT

  // Internal node header and body.
  const INTERNAL_NODE_NUM_KEYS_SIZE := 4
  const INTERNAL_NODE_NUM_KEYS_OFFSET := 6  // COMMON_NODE_HEADER_SIZE
  const INTERNAL_NODE_RIGHT_CHILD_SIZE := 4
  const INTERNAL_NODE_RIGHT_CHILD_OFFSET := 10  // INTERNAL_NODE_NUM_KEYS_OFFSET + INTERNAL_NODE_NUM_KEYS_SIZE
  const INTERNAL_NODE_HEADER_SIZE := 14  // COMMON_NODE_HEADER_SIZE + INTERNAL_NODE_NUM_KEYS_SIZE + INTERNAL_NODE_RIGHT_CHILD_SIZE
  const INTERNAL_NODE_KEY_SIZE := 4
  const INTERNAL_NODE_CHILD_SIZE := 4
  const INTERNAL_NODE_CELL_SIZE := 8  // INTERNAL_NODE_CHILD_SIZE + INTERNAL_NODE_KEY_SIZE

  /** Every derived constant is the expression the headers compute it from. */
  lemma HeaderArithmetic()
    ensures USERNAME_SIZE == COLUMN_USERNAME_SIZE + 1
    ensures EMAIL_SIZE == COLUMN_EMAIL_SIZE + 1
    ensures USERNAME_OFFSET == ID_OFFSET + ID_SIZE
    ensures EMAIL_OFFSET == USERNAME_OFFSET + USERNAME_SIZE
    ensures ROW_SIZE == ID_SIZE + USERNAME_SIZE + EMAIL_SIZE
    ensures IS_ROOT_OFFSET == NODE_TYPE_OFFSET
    ensures PARENT_POINTER_OFFSET == IS_ROOT_SIZE + IS_ROOT_OFFSET
    ensures COMMON_NODE_HEADER_SIZE == NODE_TYPE_SIZE + IS_ROOT_SIZE + PARENT_POINTER_SIZE
    ensures LEAF_NODE_NUM_CELLS_OFFSET == COMMON_NODE_HEADER_SIZE
    ensures LEAF_NODE_HEADER_SIZE == COMMON_NODE_HEADER_SIZE + LEAF_NODE_NUM_CELLS_SIZE
    ensures LEAF_NODE_VALUE_SIZE == ROW_SIZE
    ensures LEAF_NODE_VALUE_OFFSET == LEAF_NODE_KEY_SIZE + LEAF_NODE_KEY_OFFSET
    ensures LEAF_NODE_CELL_SIZE == LEAF_NODE_KEY_SIZE + LEAF_NODE_VALUE_SIZE
    ensures LEAF_NODE_SPACE_FOR_CELLS == PAGE_SIZE - LEAF_NODE_HEADER_SIZE
    ensures LEAF_NODE_MAX_CELLS == LEAF_NODE_SPACE_FOR_CELLS / LEAF_NODE_CELL_SIZE
    ensures LEAF_NODE_RIGHT_SPLIT_COUNT == (LEAF_NODE_MAX_CELLS + 1) / 2
    ensures LEAF_NODE_LEFT_SPLIT_COUNT == (LEAF_NODE_MAX_CELLS + 1) - LEAF_NODE_RIGHT_SPLIT_COUNT
    ensures INTERNAL_NODE_NUM_KEYS_OFFSET == COMMON_NODE_HEADER_SIZE
    ensures INTERNAL_NODE_RIGHT_CHILD_OFFSET == INTERNAL_NODE_NUM_KEYS_OFFSET + INTERNAL_NODE_NUM_KEYS_SIZE
    ensures INTERNAL_NODE_HEADER_SIZE == COMMON_NODE_HEADER_SIZE + INTERNAL_NODE_NUM_KEYS_SIZE + INTERNAL_NODE_RIGHT_CHILD_SIZE
    ensures INTERNAL_NODE_CELL_SIZE == INTERNAL_NODE_CHILD_SIZE + INTERNAL_NODE_KEY_SIZE
  {
  }

  /** The row is id, username and email side by side: 4 + 33 + 256 = 293 bytes. */
  lemma RowLayout()
    ensures ID_SIZE == 4 && USERNAME_SIZE == 33 && EMAIL_SIZE == 256
    ensures ID_OFFSET == 0 && USERNAME_OFFSET == ID_OFFSET + ID_SIZE
    ensures EMAIL_OFFSET == USERNAME_OFFSET + USERNAME_SIZE
    ensures EMAIL_OFFSET + EMAIL_SIZE == ROW_SIZE == 293
    ensures ROW_SIZE + LEAF_NODE_KEY_SIZE < PAGE_SIZE == 4096
  {
  }

  /** The common header: type and root flag both at byte 0, parent at 1, six bytes in all. */
  lemma CommonHeaderLayout()
    ensures NODE_TYPE_OFFSET == 0 && IS_ROOT_OFFSET == NODE_TYPE_OFFSET
    ensures PARENT_POINTER_OFFSET == 1
    ensures PARENT_POINTER_OFFSET + PARENT_POINTER_SIZE <= COMMON_NODE_HEADER_SIZE == 6
  {
  }

  /**
   * The leaf layout: the cell count follows the common header, a cell is a
   * 4-byte key at offset 0 followed by the 293-byte row at offset 4, and
   * 13 cells fit after the 10-byte header while a 14th would not.
   */
  lemma LeafLayout()
    ensures LEAF_NODE_NUM_CELLS_OFFSET == COMMON_NODE_HEADER_SIZE == 6
    ensures LEAF_NODE_HEADER_SIZE == 10
    ensures LEAF_NODE_KEY_OFFSET == 0 && LEAF_NODE_VALUE_OFFSET == LEAF_NODE_KEY_SIZE == 4
    ensures LEAF_NODE_CELL_SIZE == LEAF_NODE_KEY_SIZE + ROW_SIZE == 297
    ensures LEAF_NODE_MAX_CELLS == 13
    ensures LEAF_NODE_HEADER_SIZE + LEAF_NODE_MAX_CELLS * LEAF_NODE_CELL_SIZE <= PAGE_SIZE
    ensures LEAF_NODE_HEADER_SIZE + (LEAF_NODE_MAX_CELLS + 1) * LEAF_NODE_CELL_SIZE > PAGE_SIZE
  {
  }

  /**
   * The split counts share the 13 + 1 logical cells evenly (7 and 7), and
   * `i % LEAF_NODE_LEFT_SPLIT_COUNT` is a cell index of the half that cell i
   * goes to.
   */
  lemma SplitCounts()
    ensures LEAF_NODE_LEFT_SPLIT_COUNT + LEAF_NODE_RIGHT_SPLIT_COUNT == LEAF_NODE_MAX_CELLS + 1
    ensures LEAF_NODE_LEFT_SPLIT_COUNT == 7 && LEAF_NODE_RIGHT_SPLIT_COUNT == 7
    ensures LEAF_NODE_LEFT_SPLIT_COUNT >= LEAF_NODE_RIGHT_SPLIT_COUNT
    ensures forall i :: 0 <= i < LEAF_NODE_LEFT_SPLIT_COUNT ==> i % LEAF_NODE_LEFT_SPLIT_COUNT == i
    ensures forall i :: LEAF_NODE_LEFT_SPLIT_COUNT <= i <= LEAF_NODE_MAX_CELLS ==>
              i % LEAF_NODE_LEFT_SPLIT_COUNT == i - LEAF_NODE_LEFT_SPLIT_COUNT < LEAF_NODE_RIGHT_SPLIT_COUNT
  {
  }

  /** The internal layout: key count at 6, right child at 10, 14-byte header, 8-byte cells. */
  lemma InternalLayout()
    ensures INTERNAL_NODE_NUM_KEYS_OFFSET == 6 && INTERNAL_NODE_RIGHT_CHILD_OFFSET == 10
    ensures INTERNAL_NODE_HEADER_SIZE == 14
    ensures INTERNAL_NODE_CELL_SIZE == INTERNAL_NODE_CHILD_SIZE + INTERNAL_NODE_KEY_SIZE == 8
  {
  }
}
