/** The Rust leaf-node operations of src/table.rs that work on whole pages:
    writing a cell's row, copying a cell, the insert with its right shift, the
    split that spreads fourteen cells over two pages, and the binary search.
    A Rust page is a `Vec<u8>` owned by the pager and reached through one
    `&mut` borrow at a time, so it is modelled as a value: each operation
    takes the page and returns the page it leaves behind. */
module RustLeaf {
  import opened Bytes
  import opened Layout
  import opened RowCodec
  import opened LeafNode

  /** `write_leaf_node_value`: the bytes of `value`, one at a time, from the row
      offset of cell `cellNum` on. */
  method WriteLeafNodeValue(node: seq<byte>, cellNum: nat, value: seq<byte>) returns (r: seq<byte>)
    requires ValueOffset(cellNum) + |value| <= |node|
    ensures r == Overwrite(node, ValueOffset(cellNum), value)
    ensures |value| == LEAF_NODE_VALUE_SIZE ==> LeafNodeValue(r, cellNum) == value
  {
    r := node;
    var pos := ValueOffset(cellNum);
    var i := 0;
    while i < |value|
      invariant 0 <= i <= |value| && pos == ValueOffset(cellNum) + i
      invariant |r| == |node|
      invariant forall k :: 0 <= k < |node| && !(ValueOffset(cellNum) <= k < pos) ==> r[k] == node[k]
      invariant forall k :: ValueOffset(cellNum) <= k < pos ==> r[k] == value[k - ValueOffset(cellNum)]
    {
      r := r[pos := value[i]];
      pos := pos + 1;
      i := i + 1;
    }
    OverwriteUnique(node, ValueOffset(cellNum), value, r);
  }

  /** `copy_leaf_node_cell`: the LEAF_NODE_CELL_SIZE bytes of cell `fromCell`
      of `nodeFrom` copied over cell `toCell` of `nodeTo`. */
  method CopyLeafNodeCell(nodeFrom: seq<byte>, fromCell: nat, nodeTo: seq<byte>, toCell: nat) returns (r: seq<byte>)
    requires CellOffset(fromCell) + LEAF_NODE_CELL_SIZE <= |nodeFrom|
    requires CellOffset(toCell) + LEAF_NODE_CELL_SIZE <= |nodeTo|
    ensures r == Overwrite(nodeTo, CellOffset(toCell), CellAt(nodeFrom, fromCell))
  {
    var fromOffset := CellOffset(fromCell);
    var toOffset := CellOffset(toCell);
    r := nodeTo;
    for i := 0 to LEAF_NODE_CELL_SIZE
      invariant |r| == |nodeTo|
      invariant forall k :: 0 <= k < |nodeTo| && !(toOffset <= k < toOffset + i) ==> r[k] == nodeTo[k]
      invariant forall k :: toOffset <= k < toOffset + i ==> r[k] == nodeFrom[k - toOffset + fromOffset]
    {
      r := r[i + toOffset := nodeFrom[i + fromOffset]];
    }
    OverwriteUnique(nodeTo, toOffset, CellAt(nodeFrom, fromCell), r);
  }

  /** `Cursor::leaf_node_insert` on a node that is not full (lines 409-428):
      a clone of the page gets cells cell_num..n-1 of the original, highest
      first, one slot higher; then the count n+1, the key and the serialized
      row of cell `cellNum`; the clone is copied back over the page. */
  method LeafNodeInsertPage(node: seq<byte>, cellNum: nat, key: u32, row: Row) returns (r: seq<byte>)
    requires ValidLeaf(node) && NumCells(node) < LEAF_NODE_MAX_CELLS
    requires cellNum <= NumCells(node) && Serializable(row)
    ensures r == InsertCell(node, cellNum, MakeCell(key, SerializedRow(row)))
  {
    var numCells := NumCells(node);
    var newNode := node;
    var i: nat := numCells;
    if cellNum < numCells {
      while i > cellNum
        invariant cellNum <= i <= numCells
        invariant |newNode| == PAGE_SIZE
        invariant ShiftedFrom(node, newNode, i, numCells)
      {
        ShiftStep(node, newNode, i, numCells);
        newNode := Overwrite(newNode, CellOffset(i), CellAt(node, i - 1));
        i := i - 1;
      }
    }
    assert i == cellNum;
    ghost var shifted := newNode;
    newNode := WriteNumCells(newNode, numCells + 1);
    newNode := WriteLeafNodeKey(newNode, cellNum, key);
    var value := Serialize(row);
    r := WriteLeafNodeValue(newNode, cellNum, value);
    InsertSteps(node, shifted, cellNum, numCells as nat, key, value);
  }

  // ---------------------------------------------------------------- split

  /** The cells of slots 0..LEAF_NODE_MAX_CELLS-1 of a page. */
  function OldCells(node: seq<byte>): (cs: seq<seq<byte>>)
    requires |node| == PAGE_SIZE
    ensures |cs| == LEAF_NODE_MAX_CELLS
    ensures forall j :: 0 <= j < LEAF_NODE_MAX_CELLS ==> cs[j] == CellAt(node, j)
  {
    seq(LEAF_NODE_MAX_CELLS, j requires 0 <= j < LEAF_NODE_MAX_CELLS => CellAt(node, j))
  }

  /** The LEAF_NODE_MAX_CELLS + 1 cells a split spreads over two pages: the
      old cells with the new cell placed at `cellNum`. */
  function SplitSource(node: seq<byte>, cellNum: nat, cell: seq<byte>): (cs: seq<seq<byte>>)
    requires |node| == PAGE_SIZE && cellNum <= LEAF_NODE_MAX_CELLS
    ensures |cs| == LEAF_NODE_MAX_CELLS + 1
    ensures forall j :: 0 <= j < |cs| ==>
      cs[j] == if j < cellNum then CellAt(node, j) else if j == cellNum then cell else CellAt(node, j - 1)
  {
    OldCells(node)[..cellNum] + [cell] + OldCells(node)[cellNum..]
  }

  /** Slots lo..width-1 of `page` hold `want`; every byte outside those slots
      is the byte of `base`. */
  predicate FilledFrom(base: seq<byte>, page: seq<byte>, lo: nat, want: seq<seq<byte>>, width: nat)
    requires |base| == |page| == PAGE_SIZE && lo <= width <= LEAF_NODE_MAX_CELLS && |want| == width
  {
    && (forall k {:trigger page[k]} :: 0 <= k < PAGE_SIZE && !(CellOffset(lo) <= k < CellOffset(width)) ==> page[k] == base[k])
    && (forall j {:trigger CellAt(page, j)} :: lo <= j < width ==> CellAt(page, j) == want[j])
  }

  /** Writing `want[lo]` over slot lo extends the filled slots down to lo. */
  lemma FillStep(base: seq<byte>, page: seq<byte>, lo: nat, want: seq<seq<byte>>, width: nat, c: seq<byte>)
    requires |base| == |page| == PAGE_SIZE && lo < width <= LEAF_NODE_MAX_CELLS && |want| == width
    requires FilledFrom(base, page, lo + 1, want, width) && c == want[lo] && |c| == LEAF_NODE_CELL_SIZE
    ensures |Overwrite(page, CellOffset(lo), c)| == PAGE_SIZE
    ensures FilledFrom(base, Overwrite(page, CellOffset(lo), c), lo, want, width)
  {
    var r := Overwrite(page, CellOffset(lo), c);
    CellsOutside(r, page, CellOffset(lo), CellOffset(lo + 1));
    forall j | lo <= j < width ensures CellAt(r, j) == want[j] {
      if j > lo {
        CellsDisjoint(lo, j);
      }
    }
  }

  /** The slots outside the filled range still hold the cells of `base`. */
  lemma FilledKeeps(base: seq<byte>, page: seq<byte>, lo: nat, want: seq<seq<byte>>, width: nat, m: nat)
    requires |base| == |page| == PAGE_SIZE && lo <= width <= LEAF_NODE_MAX_CELLS && |want| == width
    requires FilledFrom(base, page, lo, want, width)
    requires m < LEAF_NODE_MAX_CELLS && (m < lo || width <= m)
    ensures CellAt(page, m) == CellAt(base, m)
  {
    CellsOutside(page, base, CellOffset(lo), CellOffset(width));
    if m < lo {
      CellsDisjoint(m, lo);
    }
  }

  /** Writing the cell count of a filled page keeps its header, its cells and its tail. */
  lemma FilledCount(base: seq<byte>, page: seq<byte>, want: seq<seq<byte>>, width: nat, count: u32)
    requires |base| == |page| == PAGE_SIZE && width <= LEAF_NODE_MAX_CELLS && |want| == width
    requires FilledFrom(base, page, 0, want, width)
    ensures |WriteNumCells(page, count)| == PAGE_SIZE && NumCells(WriteNumCells(page, count)) == count
    ensures forall j :: 0 <= j < width ==> CellAt(WriteNumCells(page, count), j) == want[j]
    ensures WriteNumCells(page, count)[..COMMON_NODE_HEADER_SIZE] == base[..COMMON_NODE_HEADER_SIZE]
    ensures WriteNumCells(page, count)[CellOffset(width)..] == base[CellOffset(width)..]
  {
    var r := WriteNumCells(page, count);
    CellsOutside(r, page, LEAF_NODE_NUM_CELLS_OFFSET, LEAF_NODE_HEADER_SIZE);
    assert r[..COMMON_NODE_HEADER_SIZE] == base[..COMMON_NODE_HEADER_SIZE] by {
      forall k | 0 <= k < COMMON_NODE_HEADER_SIZE ensures r[k] == base[k] {
        assert r[k] == page[k];
      }
    }
    assert r[CellOffset(width)..] == base[CellOffset(width)..] by {
      forall k | CellOffset(width) <= k < PAGE_SIZE ensures r[k] == base[k] {
        assert r[k] == page[k];
      }
    }
  }

  /** The cell a split moves into position `i` of the combined sequence:
      the new cell at `cellNum`, otherwise old cell i-1 above it and old cell
      i below it. */
  function SplitFrom(i: nat, cellNum: nat): (from: nat)
    ensures from == i || from + 1 == i
  {
    if i > cellNum then i - 1 else i
  }

  /** One step of the split loop (lines 361-385): slot `idx` of `dest` gets
      either the key `row.id` and the serialized row (when i == cellNum) or
      the cell `SplitFrom(i, cellNum)` of `source`, a clone of the old page. */
  method PlaceCell(source: seq<byte>, dest: seq<byte>, idx: nat, i: nat, cellNum: nat, row: Row) returns (r: seq<byte>)
    requires |source| == PAGE_SIZE && |dest| == PAGE_SIZE && idx < LEAF_NODE_MAX_CELLS
    requires i != cellNum ==> SplitFrom(i, cellNum) < LEAF_NODE_MAX_CELLS
    requires Serializable(row)
    ensures r == Overwrite(dest, CellOffset(idx),
                           if i == cellNum then MakeCell(row.id, SerializedRow(row)) else CellAt(source, SplitFrom(i, cellNum)))
  {
    if i == cellNum {
      var rowData := Serialize(row);
      WriteCellParts(dest, idx, row.id, rowData);
      r := WriteLeafNodeKey(dest, idx, row.id);
      r := WriteLeafNodeValue(r, idx, rowData);
    } else {
      r := CopyLeafNodeCell(source, SplitFrom(i, cellNum), dest, idx);
    }
  }

  /** The cell a step places is cell `i` of the combined sequence, as long as
      the old page still holds the old cells below the filled slots. */
  lemma PlacedIsSource(oldNode: seq<byte>, left: seq<byte>, i: nat, cellNum: nat, cell: seq<byte>, wantLeft: seq<seq<byte>>, lo: nat)
    requires |oldNode| == PAGE_SIZE && |left| == PAGE_SIZE
    requires i <= LEAF_NODE_MAX_CELLS && cellNum <= LEAF_NODE_MAX_CELLS && |wantLeft| == 7
    requires lo == (if i + 1 < 7 then i + 1 else 7) && FilledFrom(oldNode, left, lo, wantLeft, 7)
    ensures i != cellNum ==> SplitFrom(i, cellNum) < LEAF_NODE_MAX_CELLS
    ensures (if i == cellNum then cell else CellAt(left, SplitFrom(i, cellNum))) == SplitSource(oldNode, cellNum, cell)[i]
  {
    if i != cellNum {
      ConstantValues();
      FilledKeeps(oldNode, left, lo, wantLeft, 7, SplitFrom(i, cellNum));
    }
  }

  /** `leaf_node_split_and_insert`, the distribution of the cells (lines
      355-391): for i from LEAF_NODE_MAX_CELLS down to 0, the i-th cell of the
      combined sequence goes to slot i % LEFT_SPLIT_COUNT of the old page
      (i < LEFT_SPLIT_COUNT) or of the new page; the source cell is read from
      a clone of the old page as it is at that moment, and the new cell is
      `row.id` with the serialized row. Then both counts are written. */
  method LeafNodeSplit(oldNode: seq<byte>, newNode: seq<byte>, cellNum: nat, row: Row) returns (left: seq<byte>, right: seq<byte>)
    requires |oldNode| == PAGE_SIZE && |newNode| == PAGE_SIZE
    requires cellNum <= LEAF_NODE_MAX_CELLS && Serializable(row)
    ensures |left| == PAGE_SIZE && |right| == PAGE_SIZE
    ensures NumCells(left) == LEAF_NODE_LEFT_SPLIT_COUNT && NumCells(right) == LEAF_NODE_RIGHT_SPLIT_COUNT
    ensures forall j :: 0 <= j < LEAF_NODE_LEFT_SPLIT_COUNT ==>
      CellAt(left, j) == SplitSource(oldNode, cellNum, MakeCell(row.id, SerializedRow(row)))[j]
    ensures forall j :: 0 <= j < LEAF_NODE_RIGHT_SPLIT_COUNT ==>
      CellAt(right, j) == SplitSource(oldNode, cellNum, MakeCell(row.id, SerializedRow(row)))[LEAF_NODE_LEFT_SPLIT_COUNT + j]
    ensures left[..COMMON_NODE_HEADER_SIZE] == oldNode[..COMMON_NODE_HEADER_SIZE]
    ensures left[CellOffset(LEAF_NODE_LEFT_SPLIT_COUNT)..] == oldNode[CellOffset(LEAF_NODE_LEFT_SPLIT_COUNT)..]
    ensures right[..COMMON_NODE_HEADER_SIZE] == newNode[..COMMON_NODE_HEADER_SIZE]
    ensures right[CellOffset(LEAF_NODE_RIGHT_SPLIT_COUNT)..] == newNode[CellOffset(LEAF_NODE_RIGHT_SPLIT_COUNT)..]
  {
    ConstantValues();
    ghost var newCell := MakeCell(row.id, SerializedRow(row));
    ghost var cs := SplitSource(oldNode, cellNum, newCell);
    ghost var wantLeft := cs[..LEAF_NODE_LEFT_SPLIT_COUNT];
    ghost var wantRight := cs[LEAF_NODE_LEFT_SPLIT_COUNT..];
    left := oldNode;
    right := newNode;
    var i := LEAF_NODE_MAX_CELLS + 1;
    ghost var leftLo: nat := 7;
    ghost var rightLo: nat := 7;
    while i > 0
      invariant 0 <= i <= LEAF_NODE_MAX_CELLS + 1
      invariant leftLo == (if i < 7 then i else 7) && rightLo == (if i < 7 then 0 else i - 7)
      invariant |left| == PAGE_SIZE && |right| == PAGE_SIZE
      invariant FilledFrom(oldNode, left, leftLo, wantLeft, 7)
      invariant FilledFrom(newNode, right, rightLo, wantRight, 7)
    {
      i := i - 1;
      var indexWithinNode := i % LEAF_NODE_LEFT_SPLIT_COUNT;
      assert indexWithinNode == if i >= 7 then i - 7 else i;
      var oldCopy := left;
      PlacedIsSource(oldNode, left, i, cellNum, newCell, wantLeft, leftLo);
      ghost var c := if i == cellNum then newCell else CellAt(oldCopy, SplitFrom(i, cellNum));
      if i >= LEAF_NODE_LEFT_SPLIT_COUNT {
        assert rightLo == indexWithinNode + 1;
        FillStep(newNode, right, indexWithinNode, wantRight, 7, c);
        right := PlaceCell(oldCopy, right, indexWithinNode, i, cellNum, row);
        rightLo := indexWithinNode;
      } else {
        assert leftLo == indexWithinNode + 1;
        FillStep(oldNode, left, indexWithinNode, wantLeft, 7, c);
        left := PlaceCell(oldCopy, left, indexWithinNode, i, cellNum, row);
        leftLo := indexWithinNode;
      }
    }
    assert leftLo == 0 && rightLo == 0;
    FilledCount(oldNode, left, wantLeft, 7, LEAF_NODE_LEFT_SPLIT_COUNT as u32);
    FilledCount(newNode, right, wantRight, 7, LEAF_NODE_RIGHT_SPLIT_COUNT as u32);
    left := WriteNumCells(left, LEAF_NODE_LEFT_SPLIT_COUNT as u32);
    right := WriteNumCells(right, LEAF_NODE_RIGHT_SPLIT_COUNT as u32);
  }

  // ---------------------------------------------------------------- search

  /** The insertion point of `key` in a key sequence: the number of leading
      keys below it. */
  function LowerBound(ks: seq<u32>, key: u32): (pos: nat)
    ensures pos <= |ks|
    ensures forall j :: 0 <= j < pos ==> ks[j] < key
    ensures pos < |ks| ==> ks[pos] >= key
  {
    if ks == [] || ks[0] >= key then 0 else 1 + LowerBound(ks[1..], key)
  }

  /** A position with only smaller keys before it and no smaller key at it
      is the insertion point. */
  lemma {:induction false} LowerBoundUnique(ks: seq<u32>, key: u32, pos: nat)
    requires pos <= |ks|
    requires forall j :: 0 <= j < pos ==> ks[j] < key
    requires pos < |ks| ==> ks[pos] >= key
    ensures LowerBound(ks, key) == pos
  {
    if pos > 0 {
      LowerBoundUnique(ks[1..], key, pos - 1);
    }
  }

  /** In strictly ascending keys, `key` is present exactly when it sits at
      its insertion point. */
  lemma LowerBoundFinds(ks: seq<u32>, key: u32)
    requires StrictlyAscending(ks)
    ensures key in ks <==> LowerBound(ks, key) < |ks| && ks[LowerBound(ks, key)] == key
  {
    var pos := LowerBound(ks, key);
    if key in ks {
      var j :| 0 <= j < |ks| && ks[j] == key;
      assert !(j < pos);
    }
  }

  /** In strictly ascending keys, every key before position `idx` is below the key at `idx`. */
  lemma AscendingBelow(ks: seq<u32>, idx: nat)
    requires StrictlyAscending(ks) && idx < |ks|
    ensures forall j :: 0 <= j < idx ==> ks[j] < ks[idx]
  {
  }

  /** A sequence that holds `ks` with `key` placed at `pos` is strictly
      ascending when the keys before `pos` are below `key` and the rest above it. */
  lemma AscendingWithInserted(ks: seq<u32>, key: u32, pos: nat, r: seq<u32>)
    requires StrictlyAscending(ks) && pos <= |ks| && |r| == |ks| + 1
    requires forall x :: 0 <= x < pos ==> r[x] == ks[x]
    requires r[pos] == key
    requires forall x :: pos < x < |r| ==> r[x] == ks[x - 1]
    requires forall j :: 0 <= j < pos ==> ks[j] < key
    requires pos < |ks| ==> key < ks[pos]
    ensures StrictlyAscending(r)
  {
    forall i, j | 0 <= i < j < |r| ensures r[i] < r[j] {
      if pos < i {
        assert ks[i - 1] < ks[j - 1];
      } else if i == pos {
        if pos < j - 1 {
          assert ks[pos] < ks[j - 1];
        }
      } else if pos < j {
        if pos < j - 1 {
          assert ks[pos] < ks[j - 1];
        }
      } else if j < pos {
        assert ks[i] < ks[j];
      }
    }
  }

  /** Inserting an absent key at its insertion point keeps the keys strictly ascending. */
  lemma InsertAtLowerBound(ks: seq<u32>, key: u32)
    requires StrictlyAscending(ks) && key !in ks
    ensures LowerBound(ks, key) <= |ks|
    ensures StrictlyAscending(ks[..LowerBound(ks, key)] + [key] + ks[LowerBound(ks, key)..])
  {
    var pos := LowerBound(ks, key);
    var r := ks[..pos] + [key] + ks[pos..];
    forall x | 0 <= x < pos ensures r[x] == ks[x] {
      assert r[x] == ks[..pos][x];
    }
    forall x | pos < x < |r| ensures r[x] == ks[x - 1] {
      assert r[x] == ks[pos..][x - pos - 1];
    }
    if pos < |ks| {
      assert ks[pos] != key;
    }
    AscendingWithInserted(ks, key, pos, r);
  }

  /** What a binary search can promise whatever the order of the keys:
      `pos` holds `key`, or `pos` lies between a smaller key and a larger one
      (a missing neighbour counts as either). */
  predicate SearchResult(ks: seq<u32>, key: u32, pos: nat)
    requires pos <= |ks|
  {
    || (pos < |ks| && ks[pos] == key)
    || ((pos == 0 || ks[pos - 1] < key) && (pos == |ks| || key < ks[pos]))
  }

  /** On strictly ascending keys a search result is the insertion point:
      every key before it is below `key` and every key from it on is at least `key`. */
  lemma SearchResultIsLowerBound(ks: seq<u32>, key: u32, pos: nat)
    requires pos <= |ks| && StrictlyAscending(ks) && SearchResult(ks, key, pos)
    ensures pos == LowerBound(ks, key)
    ensures forall j :: 0 <= j < pos ==> ks[j] < key
    ensures forall j :: pos <= j < |ks| ==> ks[j] >= key
  {
    if pos < |ks| && ks[pos] == key {
      AscendingBelow(ks, pos);
    } else if pos > 0 {
      AscendingBelow(ks, pos - 1);
    }
    LowerBoundUnique(ks, key, pos);
    forall j | pos <= j < |ks| ensures ks[j] >= key {
      if pos < j {
        assert ks[pos] < ks[j];
      }
    }
  }

  /** `Table::leaf_node_find` on the page (lines 528-556): binary search over
      [min_index, one_past_max_index), returning as soon as a key matches,
      otherwise the final `min_index`. */
  method LeafNodeFind(node: seq<byte>, key: u32) returns (cellNum: nat)
    requires ValidLeaf(node)
    ensures cellNum <= NumCells(node)
    ensures SearchResult(Keys(node), key, cellNum)
  {
    ghost var ks := Keys(node);
    var numCells := NumCells(node);
    var minIndex: nat := 0;
    var onePastMaxIndex: nat := numCells;
    while onePastMaxIndex != minIndex
      invariant minIndex <= onePastMaxIndex <= numCells == |ks|
      invariant minIndex == 0 || ks[minIndex - 1] < key
      invariant onePastMaxIndex == numCells || key < ks[onePastMaxIndex]
      decreases onePastMaxIndex - minIndex
    {
      var index := (minIndex + onePastMaxIndex) / 2;
      var keyAtIndex := LeafNodeKey(node, index);
      if key == keyAtIndex {
        return index;
      }
      if key < keyAtIndex {
        onePastMaxIndex := index;
      } else {
        minIndex := index + 1;
      }
    }
    cellNum := minIndex;
  }
}
