/** The executor of src/main.rs: `execute_insert`, `execute_select` and
    `db_close` over the Rust table. */
module RustExecutor {
  import opened Bytes
  import opened Layout
  import opened Options
  import opened RowCodec
  import opened LeafNode
  import opened RustLeaf
  import opened DbFile
  import opened RustPager
  import opened RustTable

  datatype ExecuteResult = Success | DuplicateKey | TableFull

  /** `ks` with `key` placed at its lower bound, the position
      `leaf_node_find` gives on ascending keys. */
  function SortedInsert(ks: seq<u32>, key: u32): (r: seq<u32>)
    ensures |r| == |ks| + 1
  {
    var pos := LowerBound(ks, key);
    ks[..pos] + [key] + ks[pos..]
  }

  /** Inserting a new key into strictly ascending keys keeps them strictly
      ascending and adds exactly that key. */
  lemma SortedInsertContents(ks: seq<u32>, key: u32)
    requires StrictlyAscending(ks) && key !in ks
    ensures StrictlyAscending(SortedInsert(ks, key))
    ensures multiset(SortedInsert(ks, key)) == multiset(ks) + multiset{key}
  {
    var pos := LowerBound(ks, key);
    InsertAtLowerBound(ks, key);
    assert ks == ks[..pos] + ks[pos..];
  }

  /** Inserting 3, 1 and 2 stores 1, 2, 3. */
  lemma InsertOrderIrrelevant()
    ensures SortedInsert(SortedInsert(SortedInsert([], 3), 1), 2) == [1, 2, 3]
  {
    LowerBoundUnique([], 3, 0);
    assert SortedInsert([], 3) == [3];
    LowerBoundUnique([3], 1, 0);
    assert SortedInsert([3], 1) == [1, 3];
    LowerBoundUnique([1, 3], 2, 1);
    assert SortedInsert([1, 3], 2) == [1] + [2] + [3];
  }

  /** Node type is read from the common header, which an insert keeps. */
  lemma TypeFromHeader(a: seq<byte>, b: seq<byte>)
    requires |a| >= COMMON_NODE_HEADER_SIZE && |b| >= COMMON_NODE_HEADER_SIZE
    requires a[..COMMON_NODE_HEADER_SIZE] == b[..COMMON_NODE_HEADER_SIZE]
    ensures GetNodeType(a) == GetNodeType(b)
  {
    assert a[NODE_TYPE_OFFSET] == a[..COMMON_NODE_HEADER_SIZE][NODE_TYPE_OFFSET];
  }

  /** What `execute_insert` promises about the root page, before and after,
      for its result. The root must be a leaf (`find_node` panics otherwise:
      None). A full root gives TableFull and a key already at the find
      position DuplicateKey; both leave the root as it was. Success adds one
      cell and keeps the node type. On strictly ascending keys DuplicateKey
      means exactly that the key is present, and Success stores the keys with
      the new one in sorted position and the serialized row beside it. */
  ghost predicate InsertOutcome(before: seq<byte>, after: seq<byte>, row: Row, result: Option<ExecuteResult>)
    requires ValidLeaf(before) && ValidLeaf(after) && Serializable(row)
  {
    && (result.None? <==> GetNodeType(before) != Some(Leaf))
    && (result == Some(TableFull) <==> GetNodeType(before) == Some(Leaf) && NumCells(before) >= LEAF_NODE_MAX_CELLS)
    && (result != Some(Success) ==> after == before)
    && (result == Some(DuplicateKey) ==> row.id in Keys(before))
    && (result == Some(Success) ==> NumCells(after) == NumCells(before) + 1 && GetNodeType(after) == GetNodeType(before))
    && (StrictlyAscending(Keys(before)) && GetNodeType(before) == Some(Leaf) ==>
          (result == Some(DuplicateKey) <==> NumCells(before) < LEAF_NODE_MAX_CELLS && row.id in Keys(before)))
    && (StrictlyAscending(Keys(before)) && result == Some(Success) ==>
          && StrictlyAscending(Keys(after))
          && Keys(after) == SortedInsert(Keys(before), row.id)
          && Values(after) == Values(before)[..LowerBound(Keys(before), row.id)]
                              + [SerializedRow(row)]
                              + Values(before)[LowerBound(Keys(before), row.id)..])
  }

  /** The cell of `row` going in at a find position `at` of a leaf that is
      not full and has no `row.id` there is the Success outcome. */
  lemma InsertedRoot(before: seq<byte>, at: nat, row: Row, after: seq<byte>)
    requires ValidLeaf(before) && NumCells(before) < LEAF_NODE_MAX_CELLS && at <= NumCells(before)
    requires GetNodeType(before) == Some(Leaf) && Serializable(row)
    requires SearchResult(Keys(before), row.id, at)
    requires StrictlyAscending(Keys(before)) ==> row.id !in Keys(before)
    requires after == InsertCell(before, at, MakeCell(row.id, SerializedRow(row)))
    ensures ValidLeaf(after) && InsertOutcome(before, after, row, Some(Success))
  {
    InsertCellContents(before, at, row.id, SerializedRow(row));
    InsertCellCells(before, at, MakeCell(row.id, SerializedRow(row)));
    TypeFromHeader(after, before);
    if StrictlyAscending(Keys(before)) {
      SearchResultIsLowerBound(Keys(before), row.id, at);
      SortedInsertContents(Keys(before), row.id);
    }
  }

  /** A leaf whose find position already holds `row.id` is the DuplicateKey
      outcome. */
  lemma DuplicateOutcome(before: seq<byte>, at: nat, row: Row)
    requires ValidLeaf(before) && NumCells(before) < LEAF_NODE_MAX_CELLS && at < NumCells(before)
    requires GetNodeType(before) == Some(Leaf) && Serializable(row)
    requires Keys(before)[at] == row.id
    ensures InsertOutcome(before, before, row, Some(DuplicateKey))
  {
  }

  /** On strictly ascending keys, a find position that does not hold `key`
      means `key` is absent. */
  lemma NotAtFindPosition(ks: seq<u32>, key: u32, pos: nat)
    requires pos <= |ks| && SearchResult(ks, key, pos)
    requires pos < |ks| ==> ks[pos] != key
    ensures StrictlyAscending(ks) ==> key !in ks
  {
    if StrictlyAscending(ks) {
      SearchResultIsLowerBound(ks, key, pos);
      LowerBoundFinds(ks, key);
    }
  }

  /** The last step of `execute_insert` (src/main.rs:118): find the
      position again and insert the row's cell there. */
  method InsertAtFindPosition(table: Table, row: Row)
    requires table.Ready() && Serializable(row)
    requires GetNodeType(table.Root()) == Some(Leaf) && NumCells(table.Root()) < LEAF_NODE_MAX_CELLS
    requires StrictlyAscending(Keys(table.Root())) ==> row.id !in Keys(table.Root())
    modifies table.pager
    ensures table.Ready() && table.pager.file == old(table.pager.file)
    ensures forall q :: 0 < q < TABLE_MAX_PAGES ==> table.pager.View(q) == old(table.pager.View(q))
    ensures InsertOutcome(old(table.Root()), table.Root(), row, Some(Success))
  {
    ghost var before := table.Root();
    var cursor := table.FindNode(row.id);
    var at := cursor.value.cellNum;
    assert table.Root() == before && cursor.value.Page() == before;
    var inserted := cursor.value.LeafNodeInsert(row.id, row);
    assert table.Root() == cursor.value.Page();
    InsertedRoot(before, at, row, table.Root());
  }

  /** `execute_insert` (src/main.rs:102-120): the outcome InsertOutcome
      describes; the table stays Ready, a valid table stays valid, and no
      page other than the root changes. */
  method ExecuteInsert(table: Table, row: Row) returns (result: Option<ExecuteResult>)
    requires table.Ready() && Serializable(row)
    modifies table.pager
    ensures table.Ready() && table.pager.file == old(table.pager.file)
    ensures forall q :: 0 < q < TABLE_MAX_PAGES ==> table.pager.View(q) == old(table.pager.View(q))
    ensures InsertOutcome(old(table.Root()), table.Root(), row, result)
    ensures old(table.Valid()) ==> table.Valid()
  {
    ghost var before := table.Root();
    var keyToInsert := row.id;
    var cursor := table.FindNode(keyToInsert);
    if cursor.None? {
      return None;
    }
    var cellNum := cursor.value.cellNum;
    var rootNode := table.pager.GetPage(table.rootPageNum);
    var numCells := NumCells(rootNode.value);
    if numCells >= LEAF_NODE_MAX_CELLS {
      return Some(TableFull);
    }
    if cellNum < numCells {
      var keyAtIndex := LeafNodeKey(rootNode.value, cellNum);
      if keyAtIndex == keyToInsert {
        DuplicateOutcome(before, cellNum, row);
        return Some(DuplicateKey);
      }
    }
    NotAtFindPosition(Keys(before), keyToInsert, cellNum);
    InsertAtFindPosition(table, row);
    result := Some(Success);
  }

  /** `execute_select` (src/main.rs:122-130): walk a cursor from the start of
      the table to its end. The printed rows are returned, in storage order:
      exactly the rows of the root's cells; nothing changes. */
  method ExecuteSelect(table: Table) returns (rows: seq<Row>)
    requires table.Ready()
    modifies table.pager
    ensures table.Ready() && table.pager.file == old(table.pager.file)
    ensures forall q :: 0 <= q < TABLE_MAX_PAGES ==> table.pager.View(q) == old(table.pager.View(q))
    ensures rows == StoredRows(table.Root())
  {
    var cursor := table.Start();
    rows := [];
    while !cursor.endOfTable
      invariant table.Ready() && table.pager.file == old(table.pager.file)
      invariant forall q :: 0 <= q < TABLE_MAX_PAGES ==> table.pager.View(q) == old(table.pager.View(q))
      invariant cursor.table == table && cursor.pageNum == table.rootPageNum
      invariant cursor.cellNum <= NumCells(table.Root())
      invariant cursor.endOfTable <==> cursor.cellNum >= NumCells(table.Root())
      invariant rows == StoredRows(table.Root())[..cursor.cellNum]
      decreases NumCells(table.Root()) - cursor.cellNum
    {
      ghost var root := table.Root();
      var row := cursor.GetRow();
      assert table.Root() == root;
      rows := rows + [row];
      assert rows == StoredRows(root)[..cursor.cellNum + 1];
      cursor.Advance();
      assert table.Root() == root;
    }
  }

  /** Flushing whole pages into a file of whole pages keeps it whole pages. */
  lemma {:induction false} FlushKeepsWholePages(file: seq<byte>, pages: seq<Option<seq<byte>>>, limit: nat)
    requires limit <= |pages| && PagesWellSized(pages) && |file| % PAGE_SIZE == 0
    ensures |FlushUpTo(file, pages, limit)| % PAGE_SIZE == 0
  {
    if limit > 0 {
      FlushKeepsWholePages(file, pages, limit - 1);
      var f := FlushUpTo(file, pages, limit - 1);
      if pages[limit - 1].Some? {
        var end := PageOffset(limit - 1) + PAGE_SIZE;
        assert end == limit * PAGE_SIZE;
        assert end % PAGE_SIZE == 0;
        var w := WriteAt(f, PageOffset(limit - 1), pages[limit - 1].value);
        assert |w| == end || |w| == |f|;
      }
    }
  }

  /** `db_close` (src/main.rs:143-145) with the corrected `flush_all`: every
      resident page is now in the file, and a file of whole pages stays one. */
  method DbClose(table: Table)
    requires table.pager.Valid()
    modifies table.pager
    ensures table.pager.Valid() && table.pager.pages == old(table.pager.pages)
    ensures forall q :: 0 <= q < TABLE_MAX_PAGES && table.pager.pages[q].Some? ==>
              PageOffset(q) + PAGE_SIZE <= |table.pager.file| && FilePage(table.pager.file, q) == table.pager.pages[q].value
    ensures old(|table.pager.file|) % PAGE_SIZE == 0 ==> |table.pager.file| % PAGE_SIZE == 0
  {
    table.FlushAll();
    forall q | 0 <= q < TABLE_MAX_PAGES && table.pager.pages[q].Some?
      ensures PageOffset(q) + PAGE_SIZE <= |table.pager.file|
    {
      FlushedPageHolds(old(table.pager.file), table.pager.pages, TABLE_MAX_PAGES, q);
    }
    if old(|table.pager.file|) % PAGE_SIZE == 0 {
      FlushKeepsWholePages(old(table.pager.file), table.pager.pages, TABLE_MAX_PAGES);
    }
  }

  /** `db_close` (src/main.rs:143-145) as written: `flush_all` writes only
      the resident pages below `num_pages`, the page count of the file when
      it was opened, and those read back from the file; when the file was
      opened empty, closing leaves it as it was. */
  method DbCloseAsWritten(table: Table)
    requires table.pager.Valid() && table.pager.numPages <= TABLE_MAX_PAGES
    modifies table.pager
    ensures table.pager.Valid() && table.pager.pages == old(table.pager.pages)
    ensures table.pager.file == FlushUpTo(old(table.pager.file), table.pager.pages, table.pager.numPages)
    ensures forall q :: 0 <= q < table.pager.numPages && table.pager.pages[q].Some? ==>
              FilePage(table.pager.file, q) == table.pager.pages[q].value
    ensures table.pager.numPages == 0 ==> table.pager.file == old(table.pager.file)
  {
    table.FlushAllAsWritten();
    FlushedPagesReadBack(old(table.pager.file), table.pager.pages, table.pager.numPages);
  }

  /** Data survives closing and reopening (test.py:93-113): after `db_close`,
      the table opened on the file sees every page that was resident as it
      was in memory. */
  method CloseAndReopen(table: Table) returns (reopened: Option<Table>)
    requires table.pager.Valid() && |table.pager.file| % PAGE_SIZE == 0
    modifies table.pager
    ensures reopened.Some? && reopened.value.pager.Valid()
    ensures forall q :: 0 <= q < TABLE_MAX_PAGES && old(table.pager.pages[q]).Some? ==>
              reopened.value.pager.View(q) == old(table.pager.pages[q]).value
  {
    DbClose(table);
    var file := table.pager.file;
    reopened := Table.New(file);
  }

  /** The flush as written (`flush_all` over `0..num_pages`) loses a fresh
      database: for an empty file `num_pages` is 0, so no page is written,
      and page 0 reads back as zeros even when the resident root holds a
      cell. */
  lemma FlushAsWrittenLosesFreshTable(pages: seq<Option<seq<byte>>>)
    requires |pages| == TABLE_MAX_PAGES && PagesWellSized(pages)
    requires pages[0].Some? && NumCells(pages[0].value) > 0
    ensures FlushUpTo([], pages, 0) == []
    ensures FilePage(FlushUpTo([], pages, 0), 0) != pages[0].value
    ensures FilePage(FlushUpTo([], pages, TABLE_MAX_PAGES), 0) == pages[0].value
  {
    var z := FilePage([], 0);
    assert z[LEAF_NODE_NUM_CELLS_OFFSET..LEAF_NODE_HEADER_SIZE] == [0, 0, 0, 0];
    assert NumCells(z) == 0;
    FlushedPagesReadBack([], pages, TABLE_MAX_PAGES);
  }
}
