/** A page read as a leaf node: the Rust accessors of src/table.rs as pure
    functions over the page bytes, and the page-level meaning of inserting a
    cell, shared by the Rust and the C insert. */
module LeafNode {
  import opened Bytes
  import opened Layout
  import opened Options

  datatype NodeType = Leaf | Internal

  /** `leaf_node_num_cells`: the u32 at bytes 6..10. */
  function NumCells(node: seq<byte>): u32
    requires |node| >= LEAF_NODE_HEADER_SIZE
  {
    ReadU32(node, LEAF_NODE_NUM_CELLS_OFFSET)
  }

  /** `write_leaf_node_num_cells`: only bytes 6..10 change. */
  function WriteNumCells(node: seq<byte>, numCells: u32): (r: seq<byte>)
    requires |node| >= LEAF_NODE_HEADER_SIZE
    ensures |r| == |node| && NumCells(r) == numCells
    ensures forall i :: 0 <= i < |node| && !(LEAF_NODE_NUM_CELLS_OFFSET <= i < LEAF_NODE_HEADER_SIZE) ==> r[i] == node[i]
  {
    WriteU32(node, LEAF_NODE_NUM_CELLS_OFFSET, numCells)
  }

  /** `get_node_type`: byte 0 is 0 for a leaf and 1 for an internal node;
      any other value panics (None). */
  function GetNodeType(node: seq<byte>): (t: Option<NodeType>)
    requires |node| > NODE_TYPE_OFFSET
    ensures t == None <==> node[NODE_TYPE_OFFSET] > 1
  {
    match node[NODE_TYPE_OFFSET]
    case 0 => Some(Leaf)
    case 1 => Some(Internal)
    case _ => None
  }

  /** `set_node_type`: writes byte 0 and nothing else. */
  function SetNodeType(node: seq<byte>, t: NodeType): (r: seq<byte>)
    requires |node| > NODE_TYPE_OFFSET
    ensures |r| == |node| && GetNodeType(r) == Some(t)
    ensures forall i :: 0 <= i < |node| && i != NODE_TYPE_OFFSET ==> r[i] == node[i]
  {
    node[NODE_TYPE_OFFSET := match t case Leaf => 0 case Internal => 1]
  }

  /** `is_node_root`: byte 1 is non-zero. */
  function IsNodeRoot(node: seq<byte>): bool
    requires |node| > IS_ROOT_OFFSET
  {
    node[IS_ROOT_OFFSET] != 0
  }

  /** `set_node_root`: writes byte 1 (1 or 0) and nothing else. */
  function SetNodeRoot(node: seq<byte>, isRoot: bool): (r: seq<byte>)
    requires |node| > IS_ROOT_OFFSET
    ensures |r| == |node| && IsNodeRoot(r) == isRoot
    ensures forall i :: 0 <= i < |node| && i != IS_ROOT_OFFSET ==> r[i] == node[i]
  {
    node[IS_ROOT_OFFSET := if isRoot then 1 else 0]
  }

  /** `initialize_leaf_node` (Rust): a non-root leaf with no cells; the parent
      pointer and every byte after the header are left as they were. */
  function InitializeLeafNode(node: seq<byte>): (r: seq<byte>)
    requires |node| >= LEAF_NODE_HEADER_SIZE
    ensures |r| == |node|
    ensures GetNodeType(r) == Some(Leaf) && !IsNodeRoot(r) && NumCells(r) == 0
    ensures r[PARENT_POINTER_OFFSET..LEAF_NODE_NUM_CELLS_OFFSET] == node[PARENT_POINTER_OFFSET..LEAF_NODE_NUM_CELLS_OFFSET]
    ensures r[LEAF_NODE_HEADER_SIZE..] == node[LEAF_NODE_HEADER_SIZE..]
  {
    WriteNumCells(SetNodeRoot(SetNodeType(node, Leaf), false), 0)
  }

  /** `leaf_node_key`: the u32 at the start of cell `cellNum`. */
  function LeafNodeKey(node: seq<byte>, cellNum: nat): u32
    requires KeyOffset(cellNum) + LEAF_NODE_KEY_SIZE <= |node|
  {
    ReadU32(node, KeyOffset(cellNum))
  }

  /** `write_leaf_node_key_cell`: only the four key bytes of the cell change. */
  function WriteLeafNodeKey(node: seq<byte>, cellNum: nat, key: u32): (r: seq<byte>)
    requires KeyOffset(cellNum) + LEAF_NODE_KEY_SIZE <= |node|
    ensures |r| == |node| && LeafNodeKey(r, cellNum) == key
    ensures forall i :: 0 <= i < |node| && !(KeyOffset(cellNum) <= i < ValueOffset(cellNum)) ==> r[i] == node[i]
  {
    WriteU32(node, KeyOffset(cellNum), key)
  }

  /** `leaf_node_value`: a copy of the ROW_SIZE bytes after the key of the cell. */
  function LeafNodeValue(node: seq<byte>, cellNum: nat): (v: seq<byte>)
    requires ValueOffset(cellNum) + LEAF_NODE_VALUE_SIZE <= |node|
    ensures |v| == LEAF_NODE_VALUE_SIZE
  {
    node[ValueOffset(cellNum)..ValueOffset(cellNum) + LEAF_NODE_VALUE_SIZE]
  }

  /** The LEAF_NODE_CELL_SIZE bytes of cell `i`: its key, then its row. */
  function CellAt(node: seq<byte>, i: nat): (c: seq<byte>)
    requires CellOffset(i) + LEAF_NODE_CELL_SIZE <= |node|
    ensures |c| == LEAF_NODE_CELL_SIZE
  {
    node[CellOffset(i)..CellOffset(i) + LEAF_NODE_CELL_SIZE]
  }

  /** Writing the key of a cell and then its row bytes, the calls the
      accessor test makes, reads both back. */
  lemma KeyValueRoundTrip(node: seq<byte>, i: nat, key: u32, value: seq<byte>)
    requires CellOffset(i) + LEAF_NODE_CELL_SIZE <= |node| && |value| == LEAF_NODE_VALUE_SIZE
    ensures LeafNodeKey(Overwrite(WriteLeafNodeKey(node, i, key), ValueOffset(i), value), i) == key
    ensures LeafNodeValue(Overwrite(WriteLeafNodeKey(node, i, key), ValueOffset(i), value), i) == value
  {
    var keyed := WriteLeafNodeKey(node, i, key);
    var w := Overwrite(keyed, ValueOffset(i), value);
    assert w[KeyOffset(i)..KeyOffset(i) + 4] == keyed[KeyOffset(i)..KeyOffset(i) + 4];
  }

  /** A cell's bytes: the little-endian key followed by the row bytes. */
  function MakeCell(key: u32, value: seq<byte>): (c: seq<byte>)
    requires |value| == LEAF_NODE_VALUE_SIZE
    ensures |c| == LEAF_NODE_CELL_SIZE
    ensures ReadU32(c, LEAF_NODE_KEY_OFFSET) == key && c[LEAF_NODE_VALUE_OFFSET..] == value
  {
    DecodeEncode(key);
    var c := LeBytes(key) + value;
    assert c[LEAF_NODE_KEY_OFFSET..LEAF_NODE_KEY_OFFSET + 4] == LeBytes(key);
    c
  }

  /** The key and the value of a cell are the two parts of its bytes. */
  lemma CellParts(node: seq<byte>, i: nat)
    requires CellOffset(i) + LEAF_NODE_CELL_SIZE <= |node|
    ensures LeafNodeKey(node, i) == ReadU32(CellAt(node, i), LEAF_NODE_KEY_OFFSET)
    ensures LeafNodeValue(node, i) == CellAt(node, i)[LEAF_NODE_VALUE_OFFSET..]
    ensures CellAt(node, i) == MakeCell(LeafNodeKey(node, i), LeafNodeValue(node, i))
  {
    var c := CellAt(node, i);
    assert c[..4] == node[CellOffset(i)..CellOffset(i) + 4];
    assert c[4..] == LeafNodeValue(node, i);
    assert c[..4] + c[4..] == c;
    EncodeDecode(c[..4]);
  }

  /** A page of PAGE_SIZE bytes whose cell count does not exceed LEAF_NODE_MAX_CELLS. */
  predicate ValidLeaf(node: seq<byte>)
  {
    |node| == PAGE_SIZE && NumCells(node) <= LEAF_NODE_MAX_CELLS
  }

  /** The keys of cells 0..num_cells, in storage order. */
  function Keys(node: seq<byte>): (ks: seq<u32>)
    requires ValidLeaf(node)
    ensures |ks| == NumCells(node)
    ensures forall i :: 0 <= i < |ks| ==> ks[i] == LeafNodeKey(node, i)
  {
    seq(NumCells(node), i requires 0 <= i < NumCells(node) => LeafNodeKey(node, i))
  }

  /** The row bytes of cells 0..num_cells, in storage order. */
  function Values(node: seq<byte>): (vs: seq<seq<byte>>)
    requires ValidLeaf(node)
    ensures |vs| == NumCells(node)
    ensures forall i :: 0 <= i < |vs| ==> vs[i] == LeafNodeValue(node, i)
  {
    seq(NumCells(node), i requires 0 <= i < NumCells(node) => LeafNodeValue(node, i))
  }

  predicate StrictlyAscending(ks: seq<u32>)
  {
    forall i, j :: 0 <= i < j < |ks| ==> ks[i] < ks[j]
  }

  /** Byte-level shape of an insert: `r` is `node` with `cell` placed at slot
      `at`, the bytes of cells at..n-1 one slot higher, and the count bytes
      left free. */
  predicate ShiftedBytes(node: seq<byte>, r: seq<byte>, at: nat, n: nat, cell: seq<byte>)
    requires |node| == |r| == PAGE_SIZE && at <= n < LEAF_NODE_MAX_CELLS && |cell| == LEAF_NODE_CELL_SIZE
  {
    && (forall k {:trigger r[k]} :: 0 <= k < CellOffset(at) && !(LEAF_NODE_NUM_CELLS_OFFSET <= k < LEAF_NODE_HEADER_SIZE) ==> r[k] == node[k])
    && (forall k {:trigger r[k]} :: CellOffset(at) <= k < CellOffset(at + 1) ==> r[k] == cell[k - CellOffset(at)])
    && (forall k {:trigger r[k]} :: CellOffset(at + 1) <= k < CellOffset(n + 1) ==> r[k] == node[k - LEAF_NODE_CELL_SIZE])
    && (forall k {:trigger r[k]} :: CellOffset(n + 1) <= k < PAGE_SIZE ==> r[k] == node[k])
  }

  lemma ShiftedCellsBelow(node: seq<byte>, r: seq<byte>, at: nat, n: nat, cell: seq<byte>, j: nat)
    requires |node| == |r| == PAGE_SIZE && at <= n < LEAF_NODE_MAX_CELLS && |cell| == LEAF_NODE_CELL_SIZE
    requires ShiftedBytes(node, r, at, n, cell) && j < at
    ensures CellAt(r, j) == CellAt(node, j)
  {
    CellsDisjoint(j, at);
    forall t | 0 <= t < LEAF_NODE_CELL_SIZE ensures CellAt(r, j)[t] == CellAt(node, j)[t] {
      assert r[CellOffset(j) + t] == node[CellOffset(j) + t];
    }
  }

  lemma ShiftedCellsAbove(node: seq<byte>, r: seq<byte>, at: nat, n: nat, cell: seq<byte>, j: nat)
    requires |node| == |r| == PAGE_SIZE && at <= n < LEAF_NODE_MAX_CELLS && |cell| == LEAF_NODE_CELL_SIZE
    requires ShiftedBytes(node, r, at, n, cell) && at < j <= n
    ensures CellAt(r, j) == CellAt(node, j - 1)
  {
    CellsDisjoint(at, j);
    CellsDisjoint(j, n + 1);
    forall t | 0 <= t < LEAF_NODE_CELL_SIZE ensures CellAt(r, j)[t] == CellAt(node, j - 1)[t] {
      var k := CellOffset(j) + t;
      assert CellOffset(at + 1) <= k < CellOffset(n + 1);
      assert k - LEAF_NODE_CELL_SIZE == CellOffset(j - 1) + t;
    }
  }

  lemma ShiftedCellNew(node: seq<byte>, r: seq<byte>, at: nat, n: nat, cell: seq<byte>)
    requires |node| == |r| == PAGE_SIZE && at <= n < LEAF_NODE_MAX_CELLS && |cell| == LEAF_NODE_CELL_SIZE
    requires ShiftedBytes(node, r, at, n, cell)
    ensures CellAt(r, at) == cell
    ensures r[..COMMON_NODE_HEADER_SIZE] == node[..COMMON_NODE_HEADER_SIZE]
    ensures r[CellOffset(n + 1)..] == node[CellOffset(n + 1)..]
  {
    forall t | 0 <= t < LEAF_NODE_CELL_SIZE ensures CellAt(r, at)[t] == cell[t] {
      assert r[CellOffset(at) + t] == cell[t];
    }
  }

  /** The body of InsertCell before the count is written has the shifted shape. */
  lemma ShiftedBody(node: seq<byte>, at: nat, n: nat, cell: seq<byte>)
    requires |node| == PAGE_SIZE && at <= n < LEAF_NODE_MAX_CELLS && |cell| == LEAF_NODE_CELL_SIZE
    ensures |node[..CellOffset(at)] + cell + node[CellOffset(at)..CellOffset(n)] + node[CellOffset(n + 1)..]| == PAGE_SIZE
    ensures ShiftedBytes(node, node[..CellOffset(at)] + cell + node[CellOffset(at)..CellOffset(n)] + node[CellOffset(n + 1)..], at, n, cell)
  {
  }

  /** Writing the count keeps the shifted shape. */
  lemma ShiftedWriteCount(node: seq<byte>, body: seq<byte>, at: nat, n: nat, cell: seq<byte>, count: u32)
    requires |node| == |body| == PAGE_SIZE && at <= n < LEAF_NODE_MAX_CELLS && |cell| == LEAF_NODE_CELL_SIZE
    requires ShiftedBytes(node, body, at, n, cell)
    ensures |WriteNumCells(body, count)| == PAGE_SIZE
    ensures ShiftedBytes(node, WriteNumCells(body, count), at, n, cell)
  {
  }

  /** The cell-level reading of the shifted shape. */
  lemma ShiftedCells(node: seq<byte>, r: seq<byte>, at: nat, n: nat, cell: seq<byte>)
    requires |node| == |r| == PAGE_SIZE && at <= n < LEAF_NODE_MAX_CELLS && |cell| == LEAF_NODE_CELL_SIZE
    requires ShiftedBytes(node, r, at, n, cell)
    ensures CellAt(r, at) == cell
    ensures r[..COMMON_NODE_HEADER_SIZE] == node[..COMMON_NODE_HEADER_SIZE]
    ensures r[CellOffset(n + 1)..] == node[CellOffset(n + 1)..]
    ensures forall j :: 0 <= j < at ==> CellAt(r, j) == CellAt(node, j)
    ensures forall j :: at < j <= n ==> CellAt(r, j) == CellAt(node, j - 1)
  {
    ShiftedCellNew(node, r, at, n, cell);
    forall j | 0 <= j < at ensures CellAt(r, j) == CellAt(node, j) {
      ShiftedCellsBelow(node, r, at, n, cell, j);
    }
    forall j | at < j <= n ensures CellAt(r, j) == CellAt(node, j - 1) {
      ShiftedCellsAbove(node, r, at, n, cell, j);
    }
  }

  /** The page after inserting `cell` as cell `at` of a leaf with n < MAX cells:
      the bytes of cells at..n-1 move one slot up, `cell` fills slot `at`, the
      count becomes n+1 and no other byte changes. */
  function InsertCell(node: seq<byte>, at: nat, cell: seq<byte>): (r: seq<byte>)
    requires ValidLeaf(node) && NumCells(node) < LEAF_NODE_MAX_CELLS
    requires at <= NumCells(node) && |cell| == LEAF_NODE_CELL_SIZE
    ensures |r| == PAGE_SIZE && NumCells(r) == NumCells(node) + 1
  {
    var n: nat := NumCells(node);
    var body := node[..CellOffset(at)] + cell + node[CellOffset(at)..CellOffset(n)] + node[CellOffset(n + 1)..];
    ShiftedBody(node, at, n, cell);
    WriteNumCells(body, (n + 1) as u32)
  }

  /** InsertCell byte by byte: it has the shifted shape. */
  lemma InsertCellShifted(node: seq<byte>, at: nat, cell: seq<byte>)
    requires ValidLeaf(node) && NumCells(node) < LEAF_NODE_MAX_CELLS
    requires at <= NumCells(node) && |cell| == LEAF_NODE_CELL_SIZE
    ensures ShiftedBytes(node, InsertCell(node, at, cell), at, NumCells(node), cell)
  {
    var n: nat := NumCells(node);
    var body := node[..CellOffset(at)] + cell + node[CellOffset(at)..CellOffset(n)] + node[CellOffset(n + 1)..];
    ShiftedBody(node, at, n, cell);
    ShiftedWriteCount(node, body, at, n, cell, (n + 1) as u32);
  }

  /** InsertCell cell by cell: cells below `at` and the common header stay,
      `cell` is cell `at`, cell j in (at, n] is the old cell j-1, and the bytes
      after cell n are untouched. */
  lemma InsertCellCells(node: seq<byte>, at: nat, cell: seq<byte>)
    requires ValidLeaf(node) && NumCells(node) < LEAF_NODE_MAX_CELLS
    requires at <= NumCells(node) && |cell| == LEAF_NODE_CELL_SIZE
    ensures InsertCell(node, at, cell)[..COMMON_NODE_HEADER_SIZE] == node[..COMMON_NODE_HEADER_SIZE]
    ensures CellAt(InsertCell(node, at, cell), at) == cell
    ensures forall j :: 0 <= j < at ==> CellAt(InsertCell(node, at, cell), j) == CellAt(node, j)
    ensures forall j :: at < j <= NumCells(node) ==> CellAt(InsertCell(node, at, cell), j) == CellAt(node, j - 1)
    ensures InsertCell(node, at, cell)[CellOffset(NumCells(node) + 1)..] == node[CellOffset(NumCells(node) + 1)..]
  {
    InsertCellShifted(node, at, cell);
    ShiftedCells(node, InsertCell(node, at, cell), at, NumCells(node), cell);
  }

  /** Equal cell counts mean equal count bytes. */
  lemma NumCellsBytes(a: seq<byte>, b: seq<byte>)
    requires |a| >= LEAF_NODE_HEADER_SIZE && |b| >= LEAF_NODE_HEADER_SIZE
    requires NumCells(a) == NumCells(b)
    ensures a[LEAF_NODE_NUM_CELLS_OFFSET..LEAF_NODE_HEADER_SIZE] == b[LEAF_NODE_NUM_CELLS_OFFSET..LEAF_NODE_HEADER_SIZE]
  {
    EncodeDecode(a[LEAF_NODE_NUM_CELLS_OFFSET..LEAF_NODE_HEADER_SIZE]);
    EncodeDecode(b[LEAF_NODE_NUM_CELLS_OFFSET..LEAF_NODE_HEADER_SIZE]);
  }

  /** A page is determined by its common header, its cell count, its first
      `n` cells and the bytes after them. */
  lemma PageExtensionality(a: seq<byte>, b: seq<byte>, n: nat)
    requires |a| == |b| == PAGE_SIZE && n <= LEAF_NODE_MAX_CELLS
    requires a[..COMMON_NODE_HEADER_SIZE] == b[..COMMON_NODE_HEADER_SIZE]
    requires NumCells(a) == NumCells(b)
    requires forall j :: 0 <= j < n ==> CellAt(a, j) == CellAt(b, j)
    requires a[CellOffset(n)..] == b[CellOffset(n)..]
    ensures a == b
  {
    NumCellsBytes(a, b);
    forall k | 0 <= k < PAGE_SIZE ensures a[k] == b[k] {
      if k < COMMON_NODE_HEADER_SIZE {
        assert a[..COMMON_NODE_HEADER_SIZE][k] == b[..COMMON_NODE_HEADER_SIZE][k];
      } else if k < LEAF_NODE_HEADER_SIZE {
        assert a[LEAF_NODE_NUM_CELLS_OFFSET..LEAF_NODE_HEADER_SIZE][k - 6] == b[LEAF_NODE_NUM_CELLS_OFFSET..LEAF_NODE_HEADER_SIZE][k - 6];
      } else if k < CellOffset(n) {
        var j := (k - LEAF_NODE_HEADER_SIZE) / LEAF_NODE_CELL_SIZE;
        var t := (k - LEAF_NODE_HEADER_SIZE) % LEAF_NODE_CELL_SIZE;
        assert CellOffset(j) + t == k;
        assert CellAt(a, j)[t] == CellAt(b, j)[t];
      } else {
        assert a[CellOffset(n)..][k - CellOffset(n)] == b[CellOffset(n)..][k - CellOffset(n)];
      }
    }
  }

  /** Cell j of a page after InsertCell with the cell (key, value). */
  lemma InsertCellEntry(node: seq<byte>, at: nat, key: u32, value: seq<byte>, j: nat)
    requires ValidLeaf(node) && NumCells(node) < LEAF_NODE_MAX_CELLS
    requires at <= NumCells(node) && |value| == LEAF_NODE_VALUE_SIZE && j <= NumCells(node)
    ensures LeafNodeKey(InsertCell(node, at, MakeCell(key, value)), j)
            == if j < at then LeafNodeKey(node, j) else if j == at then key else LeafNodeKey(node, j - 1)
    ensures LeafNodeValue(InsertCell(node, at, MakeCell(key, value)), j)
            == if j < at then LeafNodeValue(node, j) else if j == at then value else LeafNodeValue(node, j - 1)
  {
    var r := InsertCell(node, at, MakeCell(key, value));
    InsertCellCells(node, at, MakeCell(key, value));
    CellParts(r, j);
    if j < at {
      CellParts(node, j);
    } else if j > at {
      CellParts(node, j - 1);
    }
  }

  /** After InsertCell with the cell (key, value), the keys and the rows are
      the old ones with `key` and `value` placed at position `at`. */
  lemma InsertCellContents(node: seq<byte>, at: nat, key: u32, value: seq<byte>)
    requires ValidLeaf(node) && NumCells(node) < LEAF_NODE_MAX_CELLS
    requires at <= NumCells(node) && |value| == LEAF_NODE_VALUE_SIZE
    ensures ValidLeaf(InsertCell(node, at, MakeCell(key, value)))
    ensures Keys(InsertCell(node, at, MakeCell(key, value))) == Keys(node)[..at] + [key] + Keys(node)[at..]
    ensures Values(InsertCell(node, at, MakeCell(key, value))) == Values(node)[..at] + [value] + Values(node)[at..]
  {
    var r := InsertCell(node, at, MakeCell(key, value));
    var ks := Keys(node)[..at] + [key] + Keys(node)[at..];
    var vs := Values(node)[..at] + [value] + Values(node)[at..];
    forall j | 0 <= j < NumCells(r)
      ensures Keys(r)[j] == ks[j] && Values(r)[j] == vs[j]
    {
      InsertCellEntry(node, at, key, value, j);
    }
  }

  /** Two pages that agree outside the bytes lo..hi agree on every cell
      that lies wholly outside that range. */
  lemma CellsOutside(a: seq<byte>, b: seq<byte>, lo: nat, hi: nat)
    requires |a| == |b|
    requires forall k :: 0 <= k < |a| && !(lo <= k < hi) ==> a[k] == b[k]
    ensures forall j :: CellOffset(j) + LEAF_NODE_CELL_SIZE <= |a| && (CellOffset(j) + LEAF_NODE_CELL_SIZE <= lo || hi <= CellOffset(j)) ==> CellAt(a, j) == CellAt(b, j)
  {
    forall j | CellOffset(j) + LEAF_NODE_CELL_SIZE <= |a| && (CellOffset(j) + LEAF_NODE_CELL_SIZE <= lo || hi <= CellOffset(j))
      ensures CellAt(a, j) == CellAt(b, j)
    {
      forall t | 0 <= t < LEAF_NODE_CELL_SIZE ensures CellAt(a, j)[t] == CellAt(b, j)[t] {
        assert a[CellOffset(j) + t] == b[CellOffset(j) + t];
      }
    }
  }

  /** Writing the key of cell `i` and then its row writes the whole cell. */
  lemma WriteCellParts(node: seq<byte>, i: nat, key: u32, value: seq<byte>)
    requires CellOffset(i) + LEAF_NODE_CELL_SIZE <= |node| && |value| == LEAF_NODE_VALUE_SIZE
    ensures Overwrite(WriteLeafNodeKey(node, i, key), ValueOffset(i), value) == Overwrite(node, CellOffset(i), MakeCell(key, value))
  {
    var a := Overwrite(WriteLeafNodeKey(node, i, key), ValueOffset(i), value);
    var c := MakeCell(key, value);
    var b := Overwrite(node, CellOffset(i), c);
    forall k | 0 <= k < |node| ensures a[k] == b[k] {
      if CellOffset(i) <= k < ValueOffset(i) {
        assert c[..4] == LeBytes(key);
        assert a[CellOffset(i)..CellOffset(i) + 4][k - CellOffset(i)] == c[..4][k - CellOffset(i)];
        assert b[CellOffset(i)..CellOffset(i) + LEAF_NODE_CELL_SIZE][k - CellOffset(i)] == c[k - CellOffset(i)];
      } else if ValueOffset(i) <= k < CellOffset(i) + LEAF_NODE_CELL_SIZE {
        assert a[ValueOffset(i)..ValueOffset(i) + LEAF_NODE_VALUE_SIZE][k - ValueOffset(i)] == value[k - ValueOffset(i)];
        assert b[CellOffset(i)..CellOffset(i) + LEAF_NODE_CELL_SIZE][k - CellOffset(i)] == c[k - CellOffset(i)];
      }
    }
  }

  /** Two pages with the same shifted shape and the same count are equal. */
  lemma ShiftedUnique(node: seq<byte>, a: seq<byte>, b: seq<byte>, at: nat, n: nat, cell: seq<byte>)
    requires |node| == |a| == |b| == PAGE_SIZE && at <= n < LEAF_NODE_MAX_CELLS && |cell| == LEAF_NODE_CELL_SIZE
    requires ShiftedBytes(node, a, at, n, cell) && ShiftedBytes(node, b, at, n, cell)
    requires NumCells(a) == NumCells(b)
    ensures a == b
  {
    NumCellsBytes(a, b);
    forall k | 0 <= k < PAGE_SIZE ensures a[k] == b[k] {
      if LEAF_NODE_NUM_CELLS_OFFSET <= k < LEAF_NODE_HEADER_SIZE {
        assert a[LEAF_NODE_NUM_CELLS_OFFSET..LEAF_NODE_HEADER_SIZE][k - 6] == b[LEAF_NODE_NUM_CELLS_OFFSET..LEAF_NODE_HEADER_SIZE][k - 6];
      }
    }
  }

  /** Part way through the right shift of an insert at `at` into a leaf of
      `n` cells: the bytes from cell i+1 to cell n hold the old bytes one cell
      lower, all other bytes are the old ones. */
  predicate ShiftedFrom(node: seq<byte>, page: seq<byte>, i: nat, n: nat)
    requires |node| == |page| == PAGE_SIZE && n < LEAF_NODE_MAX_CELLS
  {
    && (forall k {:trigger page[k]} :: 0 <= k < PAGE_SIZE && !(CellOffset(i + 1) <= k < CellOffset(n + 1)) ==> page[k] == node[k])
    && (forall k {:trigger page[k]} :: CellOffset(i + 1) <= k < CellOffset(n + 1) ==> page[k] == node[k - LEAF_NODE_CELL_SIZE])
  }

  /** One step of the shift: copying old cell i-1 over slot i extends the
      shifted range down to slot i. */
  lemma ShiftStep(node: seq<byte>, page: seq<byte>, i: nat, n: nat)
    requires |node| == |page| == PAGE_SIZE && 0 < i <= n < LEAF_NODE_MAX_CELLS
    requires ShiftedFrom(node, page, i, n)
    ensures |Overwrite(page, CellOffset(i), CellAt(node, i - 1))| == PAGE_SIZE
    ensures ShiftedFrom(node, Overwrite(page, CellOffset(i), CellAt(node, i - 1)), i - 1, n)
  {
    var cell := CellAt(node, i - 1);
    var r := Overwrite(page, CellOffset(i), cell);
    forall k | 0 <= k < PAGE_SIZE
      ensures !(CellOffset(i) <= k < CellOffset(n + 1)) ==> r[k] == node[k]
      ensures CellOffset(i) <= k < CellOffset(n + 1) ==> r[k] == node[k - LEAF_NODE_CELL_SIZE]
    {
      if CellOffset(i) <= k < CellOffset(i + 1) {
        assert r[CellOffset(i)..CellOffset(i) + LEAF_NODE_CELL_SIZE][k - CellOffset(i)] == cell[k - CellOffset(i)];
      } else {
        assert r[k] == page[k];
      }
    }
  }

  /** Shifted bytes, a new count and then the new cell give the shifted shape. */
  lemma ShiftedThenCell(node: seq<byte>, shifted: seq<byte>, at: nat, n: nat, cell: seq<byte>, count: u32)
    requires |node| == |shifted| == PAGE_SIZE && at <= n < LEAF_NODE_MAX_CELLS && |cell| == LEAF_NODE_CELL_SIZE
    requires ShiftedFrom(node, shifted, at, n)
    ensures |Overwrite(WriteNumCells(shifted, count), CellOffset(at), cell)| == PAGE_SIZE
    ensures ShiftedBytes(node, Overwrite(WriteNumCells(shifted, count), CellOffset(at), cell), at, n, cell)
  {
    var counted := WriteNumCells(shifted, count);
    var r := Overwrite(counted, CellOffset(at), cell);
    forall k | 0 <= k < PAGE_SIZE
      ensures k < CellOffset(at) && !(LEAF_NODE_NUM_CELLS_OFFSET <= k < LEAF_NODE_HEADER_SIZE) ==> r[k] == node[k]
      ensures CellOffset(at) <= k < CellOffset(at + 1) ==> r[k] == cell[k - CellOffset(at)]
      ensures CellOffset(at + 1) <= k < CellOffset(n + 1) ==> r[k] == node[k - LEAF_NODE_CELL_SIZE]
      ensures CellOffset(n + 1) <= k ==> r[k] == node[k]
    {
      if CellOffset(at) <= k < CellOffset(at + 1) {
        assert r[CellOffset(at)..CellOffset(at) + LEAF_NODE_CELL_SIZE][k - CellOffset(at)] == cell[k - CellOffset(at)];
      } else if !(LEAF_NODE_NUM_CELLS_OFFSET <= k < LEAF_NODE_HEADER_SIZE) {
        assert r[k] == counted[k] == shifted[k];
      }
    }
  }

  /** The steps both leaf inserts take -- shift the bytes of cells at..n-1 up
      by one slot, write the count n+1, write the key and then the row of cell
      `at` -- produce InsertCell. */
  lemma InsertSteps(node: seq<byte>, shifted: seq<byte>, at: nat, n: nat, key: u32, value: seq<byte>)
    requires ValidLeaf(node) && n == NumCells(node) && n < LEAF_NODE_MAX_CELLS
    requires at <= n && |value| == LEAF_NODE_VALUE_SIZE && |shifted| == PAGE_SIZE
    requires ShiftedFrom(node, shifted, at, n)
    ensures Overwrite(WriteLeafNodeKey(WriteNumCells(shifted, (n + 1) as u32), at, key), ValueOffset(at), value)
            == InsertCell(node, at, MakeCell(key, value))
  {
    var cell := MakeCell(key, value);
    var counted := WriteNumCells(shifted, (n + 1) as u32);
    WriteCellParts(counted, at, key, value);
    ShiftedThenCell(node, shifted, at, n, cell, (n + 1) as u32);
    InsertCellShifted(node, at, cell);
    ShiftedUnique(node, Overwrite(counted, CellOffset(at), cell), InsertCell(node, at, cell), at, n, cell);
  }
}
