/** The C leaf-node writers of c/db.c over a page buffer (`array<byte>`):
    stores through `leaf_node_num_cells` and `leaf_node_key`,
    `initialize_leaf_node`, and the body of `leaf_node_insert` that shifts
    cells in place. The page layout and its readers are those of LeafNode. */
module CLeafNode {
  import opened Bytes
  import opened Layout
  import opened LeafNode
  import opened CRow

  /** `*leaf_node_num_cells(node) = numCells`: the four count bytes. */
  method SetNumCells(node: array<byte>, numCells: u32)
    requires node.Length >= LEAF_NODE_HEADER_SIZE
    modifies node
    ensures node[..] == WriteNumCells(old(node[..]), numCells)
  {
    WriteU32IsOverwrite(node[..], LEAF_NODE_NUM_CELLS_OFFSET, numCells);
    Memcpy(node, LEAF_NODE_NUM_CELLS_OFFSET, LeBytes(numCells));
  }

  /** `*leaf_node_key(node, cellNum) = key`: the four key bytes of the cell. */
  method SetKey(node: array<byte>, cellNum: nat, key: u32)
    requires KeyOffset(cellNum) + LEAF_NODE_KEY_SIZE <= node.Length
    modifies node
    ensures node[..] == WriteLeafNodeKey(old(node[..]), cellNum, key)
  {
    WriteU32IsOverwrite(node[..], KeyOffset(cellNum), key);
    Memcpy(node, KeyOffset(cellNum), LeBytes(key));
  }

  /** `initialize_leaf_node` (c/db.c:163): only the cell count is set, to 0;
      unlike the Rust version the type and root bytes are not written. */
  method InitializeLeafNode(node: array<byte>)
    requires node.Length == PAGE_SIZE
    modifies node
    ensures NumCells(node[..]) == 0
    ensures forall k :: 0 <= k < PAGE_SIZE && !(LEAF_NODE_NUM_CELLS_OFFSET <= k < LEAF_NODE_HEADER_SIZE) ==> node[k] == old(node[k])
  {
    SetNumCells(node, 0);
  }

  /** The page after the shift loop has copied cell j-1 over cell j for
      j = n, n-1, ..., i+1: the bytes up to cell i+1 as they were, then old
      cells i..n-1, then the bytes after cell n as they were. */
  function ShiftedPage(node: seq<byte>, i: nat, n: nat): (page: seq<byte>)
    requires |node| == PAGE_SIZE && i <= n < LEAF_NODE_MAX_CELLS
    ensures |page| == PAGE_SIZE
  {
    seq(PAGE_SIZE, k requires 0 <= k < PAGE_SIZE =>
      if CellOffset(i) + LEAF_NODE_CELL_SIZE <= k < CellOffset(n) + LEAF_NODE_CELL_SIZE then node[k - LEAF_NODE_CELL_SIZE] else node[k])
  }

  /** Byte k of a shifted page. */
  lemma ShiftedPageAt(node: seq<byte>, i: nat, n: nat, k: nat)
    requires |node| == PAGE_SIZE && i <= n < LEAF_NODE_MAX_CELLS && k < PAGE_SIZE
    ensures CellOffset(i) + LEAF_NODE_CELL_SIZE <= k < CellOffset(n) + LEAF_NODE_CELL_SIZE ==> ShiftedPage(node, i, n)[k] == node[k - LEAF_NODE_CELL_SIZE]
    ensures !(CellOffset(i) + LEAF_NODE_CELL_SIZE <= k < CellOffset(n) + LEAF_NODE_CELL_SIZE) ==> ShiftedPage(node, i, n)[k] == node[k]
  {
  }

  /** Before any copy the page is as it was. */
  lemma ShiftedNone(node: seq<byte>, n: nat)
    requires |node| == PAGE_SIZE && n < LEAF_NODE_MAX_CELLS
    ensures ShiftedPage(node, n, n) == node
  {
    assert node == node[..CellOffset(n + 1)] + node[CellOffset(n + 1)..];
  }

  /** The shifted pages have the shape ShiftedFrom describes. */
  lemma ShiftedPageShape(node: seq<byte>, i: nat, n: nat)
    requires |node| == PAGE_SIZE && i <= n < LEAF_NODE_MAX_CELLS
    ensures ShiftedFrom(node, ShiftedPage(node, i, n), i, n)
  {
    var page := ShiftedPage(node, i, n);
    assert CellOffset(i + 1) == CellOffset(i) + LEAF_NODE_CELL_SIZE;
    assert CellOffset(n + 1) == CellOffset(n) + LEAF_NODE_CELL_SIZE;
    forall k | 0 <= k < PAGE_SIZE && !(CellOffset(i + 1) <= k < CellOffset(n + 1)) ensures page[k] == node[k] {
      ShiftedPageAt(node, i, n, k);
    }
    forall k | CellOffset(i + 1) <= k < CellOffset(n + 1) ensures page[k] == node[k - LEAF_NODE_CELL_SIZE] {
      ShiftedPageAt(node, i, n, k);
    }
  }

  /** Byte k of one copy of the loop. */
  lemma ShiftOnceAt(node: seq<byte>, i: nat, n: nat, k: nat)
    requires |node| == PAGE_SIZE && 0 < i <= n < LEAF_NODE_MAX_CELLS && k < PAGE_SIZE
    ensures Overwrite(ShiftedPage(node, i, n), CellOffset(i), CellAt(node, i - 1))[k] == ShiftedPage(node, i - 1, n)[k]
  {
    var cell := CellAt(node, i - 1);
    var off := CellOffset(i);
    var lo := CellOffset(i - 1);
    assert lo + LEAF_NODE_CELL_SIZE == off;
    ShiftedPageAt(node, i, n, k);
    ShiftedPageAt(node, i - 1, n, k);
    OverwriteAt(ShiftedPage(node, i, n), off, cell, k);
    if off <= k < off + LEAF_NODE_CELL_SIZE {
      assert cell[k - off] == node[lo + (k - off)];
    }
  }

  /** One copy of the loop: cell i-1 has not moved yet, and copying it over
      cell i gives the next shifted page. */
  lemma ShiftOnce(node: seq<byte>, i: nat, n: nat)
    requires |node| == PAGE_SIZE && 0 < i <= n < LEAF_NODE_MAX_CELLS
    ensures CellAt(ShiftedPage(node, i, n), i - 1) == CellAt(node, i - 1)
    ensures Overwrite(ShiftedPage(node, i, n), CellOffset(i), CellAt(node, i - 1)) == ShiftedPage(node, i - 1, n)
  {
    var page := ShiftedPage(node, i, n);
    var lo := CellOffset(i - 1);
    forall k | lo <= k < lo + LEAF_NODE_CELL_SIZE ensures page[k] == node[k] {
      ShiftedPageAt(node, i, n, k);
    }
    assert page[lo..lo + LEAF_NODE_CELL_SIZE] == node[lo..lo + LEAF_NODE_CELL_SIZE];
    var l := Overwrite(page, CellOffset(i), CellAt(node, i - 1));
    var r := ShiftedPage(node, i - 1, n);
    forall k | 0 <= k < PAGE_SIZE ensures l[k] == r[k] {
      ShiftOnceAt(node, i, n, k);
    }
    assert l == r;
  }

  /** The room-making step of `leaf_node_insert` (c/db.c:250-256): when
      cellNum is below the count n, for i from n down to cellNum + 1,
      `memcpy` of cell i-1 over cell i. */
  method ShiftCells(node: array<byte>, cellNum: nat, numCells: nat)
    requires node.Length == PAGE_SIZE && cellNum <= numCells < LEAF_NODE_MAX_CELLS
    modifies node
    ensures node[..] == ShiftedPage(old(node[..]), cellNum, numCells)
  {
    ghost var start := node[..];
    ShiftedNone(start, numCells);
    if cellNum < numCells {
      var i := numCells;
      while i > cellNum
        invariant cellNum <= i <= numCells
        invariant node[..] == ShiftedPage(start, i, numCells)
      {
        ShiftOnce(start, i, numCells);
        var cell := node[CellOffset(i - 1)..CellOffset(i - 1) + LEAF_NODE_CELL_SIZE];
        assert cell == CellAt(ShiftedPage(start, i, numCells), i - 1);
        Memcpy(node, CellOffset(i), cell);
        i := i - 1;
      }
    }
  }

  /** `page` after the stores that follow the shift: the count n+1, then
      the key and the row bytes of cell `at`. */
  function FilledPage(page: seq<byte>, n: nat, at: nat, key: u32, value: seq<byte>): (r: seq<byte>)
    requires |page| == PAGE_SIZE && n < LEAF_NODE_MAX_CELLS && at < LEAF_NODE_MAX_CELLS && |value| == LEAF_NODE_VALUE_SIZE
    ensures |r| == PAGE_SIZE
  {
    Overwrite(WriteLeafNodeKey(WriteNumCells(page, (n + 1) as u32), at, key), ValueOffset(at), value)
  }

  /** Shifting, then the stores of FilledPage, give InsertCell. */
  lemma ShiftedThenInserted(node: seq<byte>, n: nat, at: nat, key: u32, value: seq<byte>)
    requires ValidLeaf(node) && n == NumCells(node) && n < LEAF_NODE_MAX_CELLS
    requires at <= n && |value| == LEAF_NODE_VALUE_SIZE
    ensures FilledPage(ShiftedPage(node, at, n), n, at, key, value) == InsertCell(node, at, MakeCell(key, value))
  {
    ShiftedPageShape(node, at, n);
    InsertSteps(node, ShiftedPage(node, at, n), at, n, key, value);
  }

  /** The stores of `leaf_node_insert` after the shift (c/db.c:258-260):
      the count `numCells + 1`, the key and the row's image in cell `cellNum`. */
  method FillCell(node: array<byte>, numCells: nat, cellNum: nat, key: u32, row: CRow.Row)
    requires node.Length == PAGE_SIZE && numCells < LEAF_NODE_MAX_CELLS && cellNum < LEAF_NODE_MAX_CELLS
    requires WellFormed(row)
    modifies node
    ensures node[..] == FilledPage(old(node[..]), numCells, cellNum, key, Image(row))
  {
    SetNumCells(node, (numCells + 1) as u32);
    SetKey(node, cellNum, key);
    SerializeRow(row, node, ValueOffset(cellNum));
  }

  /** The body of `leaf_node_insert` (c/db.c:250-260) on a node that is not
      full: cells cellNum..n-1 move up one slot in place, highest first;
      the count goes up by one; the key and the row's image fill cell
      `cellNum`. The page ends up as InsertCell describes. */
  method InsertIntoPage(node: array<byte>, cellNum: nat, key: u32, row: CRow.Row)
    requires node.Length == PAGE_SIZE && ValidLeaf(node[..]) && NumCells(node[..]) < LEAF_NODE_MAX_CELLS
    requires cellNum <= NumCells(node[..]) && WellFormed(row)
    modifies node
    ensures node[..] == InsertCell(old(node[..]), cellNum, MakeCell(key, Image(row)))
  {
    ghost var start := node[..];
    var numCells := NumCells(node[..]);
    ShiftedThenInserted(start, numCells, cellNum, key, Image(row));
    ShiftCells(node, cellNum, numCells);
    FillCell(node, numCells, cellNum, key, row);
  }

  /** An insert at the cell count appends: the keys and rows are the old
      ones followed by the new key and row image. */
  lemma AppendContents(node: seq<byte>, key: u32, value: seq<byte>)
    requires ValidLeaf(node) && NumCells(node) < LEAF_NODE_MAX_CELLS && |value| == LEAF_NODE_VALUE_SIZE
    ensures ValidLeaf(InsertCell(node, NumCells(node), MakeCell(key, value)))
    ensures Keys(InsertCell(node, NumCells(node), MakeCell(key, value))) == Keys(node) + [key]
    ensures Values(InsertCell(node, NumCells(node), MakeCell(key, value))) == Values(node) + [value]
  {
    var n := NumCells(node);
    InsertCellContents(node, n, key, value);
    assert Keys(node)[..n] == Keys(node) && Keys(node)[n..] == [];
    assert Values(node)[..n] == Values(node) && Values(node)[n..] == [];
  }
}
