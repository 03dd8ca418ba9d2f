/** The fixed byte layout of rows and leaf pages. Both implementations derive
    the same constants the same way: a row is an id followed by two
    NUL-padded text fields, a page is a 10-byte leaf header followed by
    (key, row) cells. */
module Layout {

  const ID_SIZE: nat := 4
  const USERNAME_SIZE: nat := 32 + 1
  const EMAIL_SIZE: nat := 255 + 1
  const ID_OFFSET: nat := 0
  const USERNAME_OFFSET: nat := ID_OFFSET + ID_SIZE
  const EMAIL_OFFSET: nat := USERNAME_OFFSET + USERNAME_SIZE
  const ROW_SIZE: nat := ID_SIZE + USERNAME_SIZE + EMAIL_SIZE

  const PAGE_SIZE: nat := 4096
  const TABLE_MAX_PAGES: nat := 100

  // Common node header
  const NODE_TYPE_SIZE: nat := 1
  const NODE_TYPE_OFFSET: nat := 0
  const IS_ROOT_SIZE: nat := 1
  const IS_ROOT_OFFSET: nat := NODE_TYPE_SIZE
  const PARENT_POINTER_SIZE: nat := 4
  const PARENT_POINTER_OFFSET: nat := IS_ROOT_OFFSET + IS_ROOT_SIZE
  const COMMON_NODE_HEADER_SIZE: nat := NODE_TYPE_SIZE + IS_ROOT_SIZE + PARENT_POINTER_SIZE

  // Leaf node header
  const LEAF_NODE_NUM_CELLS_SIZE: nat := 4
  const LEAF_NODE_NUM_CELLS_OFFSET: nat := COMMON_NODE_HEADER_SIZE
  const LEAF_NODE_HEADER_SIZE: nat := COMMON_NODE_HEADER_SIZE + LEAF_NODE_NUM_CELLS_SIZE

  // Leaf node body
  const LEAF_NODE_KEY_SIZE: nat := 4
  const LEAF_NODE_KEY_OFFSET: nat := 0
  const LEAF_NODE_VALUE_SIZE: nat := ROW_SIZE
  const LEAF_NODE_VALUE_OFFSET: nat := LEAF_NODE_KEY_OFFSET + LEAF_NODE_KEY_SIZE
  const LEAF_NODE_CELL_SIZE: nat := LEAF_NODE_KEY_SIZE + LEAF_NODE_VALUE_SIZE
  const LEAF_NODE_SPACE_FOR_CELLS: nat := PAGE_SIZE - LEAF_NODE_HEADER_SIZE
  const LEAF_NODE_MAX_CELLS: nat := LEAF_NODE_SPACE_FOR_CELLS / LEAF_NODE_CELL_SIZE

  // Leaf split (Rust only)
  const LEAF_NODE_RIGHT_SPLIT_COUNT: nat := (LEAF_NODE_MAX_CELLS + 1) / 2
  const LEAF_NODE_LEFT_SPLIT_COUNT: nat := (LEAF_NODE_MAX_CELLS + 1) - LEAF_NODE_RIGHT_SPLIT_COUNT

  /** The values the derivations produce, as printed by the `.constants` command. */
  lemma ConstantValues()
    ensures ID_OFFSET == 0 && USERNAME_OFFSET == 4 && EMAIL_OFFSET == 37 && ROW_SIZE == 293
    ensures COMMON_NODE_HEADER_SIZE == 6 && LEAF_NODE_HEADER_SIZE == 10
    ensures LEAF_NODE_CELL_SIZE == 297 && LEAF_NODE_SPACE_FOR_CELLS == 4086
    ensures LEAF_NODE_MAX_CELLS == 13
    ensures LEAF_NODE_LEFT_SPLIT_COUNT == 7 && LEAF_NODE_RIGHT_SPLIT_COUNT == 7
  {
  }

  /** The cells fit in the page after the header, and one more cell would not. */
  lemma CellsFitInPage()
    ensures LEAF_NODE_MAX_CELLS * LEAF_NODE_CELL_SIZE <= LEAF_NODE_SPACE_FOR_CELLS
    ensures (LEAF_NODE_MAX_CELLS + 1) * LEAF_NODE_CELL_SIZE > LEAF_NODE_SPACE_FOR_CELLS
    ensures ROW_SIZE == ID_SIZE + USERNAME_SIZE + EMAIL_SIZE
    ensures LEAF_NODE_CELL_SIZE == LEAF_NODE_KEY_SIZE + ROW_SIZE
  {
  }

  /** Byte offset of cell `i` in a leaf page (C `leaf_node_cell`). */
  function CellOffset(i: nat): (off: nat)
    ensures off >= LEAF_NODE_HEADER_SIZE
    ensures i < LEAF_NODE_MAX_CELLS ==> off + LEAF_NODE_CELL_SIZE <= PAGE_SIZE
  {
    LEAF_NODE_HEADER_SIZE + i * LEAF_NODE_CELL_SIZE
  }

  /** Byte offset of the key of cell `i` (C `leaf_node_key`). */
  function KeyOffset(i: nat): nat
  {
    CellOffset(i) + LEAF_NODE_KEY_OFFSET
  }

  /** Byte offset of the row of cell `i` (C `leaf_node_value`). */
  function ValueOffset(i: nat): nat
  {
    CellOffset(i) + LEAF_NODE_VALUE_OFFSET
  }

  /** Distinct cells occupy disjoint byte ranges, each holding its key before its row. */
  lemma CellsDisjoint(i: nat, j: nat)
    requires i < j
    ensures CellOffset(i) + LEAF_NODE_CELL_SIZE <= CellOffset(j)
    ensures KeyOffset(i) == CellOffset(i)
    ensures ValueOffset(i) == CellOffset(i) + LEAF_NODE_KEY_SIZE
    ensures ValueOffset(i) + LEAF_NODE_VALUE_SIZE == CellOffset(i + 1)
  {
  }
}
