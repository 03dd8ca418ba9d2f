/** The C table, cursor and executor of c/db.c: `db_open`, `table_start`,
    `table_end`, `cursor_value`, `cursor_advance`, `leaf_node_insert`,
    `execute_insert`, `execute_select` and `db_close`. Pages are the
    `malloc`'d buffers of the C pager, reached by pointer and changed in
    place. */
module CTable {
  import opened Bytes
  import opened Layout
  import opened LeafNode
  import opened CRow
  import opened CLeafNode
  import opened DbFile
  import opened CPager

  datatype ExecuteResult = Success | TableFull

  /** The rows of the cells of a leaf page, in storage order, as
      `deserialize_row` copies them out. */
  function StoredRows(page: seq<byte>): (rows: seq<CRow.Row>)
    requires ValidLeaf(page)
    ensures |rows| == NumCells(page)
    ensures forall i :: 0 <= i < |rows| ==> rows[i] == Decode(Values(page)[i])
  {
    seq(NumCells(page), i requires 0 <= i < NumCells(page) => Decode(Values(page)[i]))
  }

  /** The page an `execute_insert` that succeeds leaves: the row's cell
      placed at the end, at index `num_cells`. */
  function Appended(page: seq<byte>, row: CRow.Row): (r: seq<byte>)
    requires ValidLeaf(page) && NumCells(page) < LEAF_NODE_MAX_CELLS && WellFormed(row)
    ensures ValidLeaf(r) && NumCells(r) == NumCells(page) + 1
  {
    InsertCell(page, NumCells(page), MakeCell(row.id, Image(row)))
  }

  /** Appending a row adds it after the rows already stored. */
  lemma AppendedRows(page: seq<byte>, row: CRow.Row)
    requires ValidLeaf(page) && NumCells(page) < LEAF_NODE_MAX_CELLS && WellFormed(row)
    ensures StoredRows(Appended(page, row)) == StoredRows(page) + [row]
  {
    AppendContents(page, row.id, Image(row));
    DecodeImage(row);
  }

  predicate AllWellFormed(rows: seq<CRow.Row>)
  {
    forall i :: 0 <= i < |rows| ==> WellFormed(rows[i])
  }

  /** The page after a run of successful inserts of `rows`, first to last. */
  function AppendedAll(page: seq<byte>, rows: seq<CRow.Row>): (r: seq<byte>)
    requires ValidLeaf(page) && NumCells(page) + |rows| <= LEAF_NODE_MAX_CELLS && AllWellFormed(rows)
    ensures ValidLeaf(r) && NumCells(r) == NumCells(page) + |rows|
    decreases |rows|
  {
    if rows == [] then page else AppendedAll(Appended(page, rows[0]), rows[1..])
  }

  /** Adding the head of `s` and then its tail adds `s`. */
  lemma HeadThenTail<T>(prefix: seq<T>, s: seq<T>)
    requires s != []
    ensures (prefix + [s[0]]) + s[1..] == prefix + s
  {
    assert s == [s[0]] + s[1..];
  }

  /** Insert-then-select (test.py:35-47): after inserting `rows` one by
      one, a select yields the rows already there followed by `rows` in the
      order they were inserted. */
  lemma {:induction false} SelectAfterInserts(page: seq<byte>, rows: seq<CRow.Row>)
    requires ValidLeaf(page) && NumCells(page) + |rows| <= LEAF_NODE_MAX_CELLS && AllWellFormed(rows)
    ensures StoredRows(AppendedAll(page, rows)) == StoredRows(page) + rows
    decreases |rows|
  {
    if rows != [] {
      var next := Appended(page, rows[0]);
      assert AppendedAll(page, rows) == AppendedAll(next, rows[1..]);
      SelectAfterInserts(next, rows[1..]);
      AppendedRows(page, rows[0]);
      assert StoredRows(AppendedAll(page, rows)) == (StoredRows(page) + [rows[0]]) + rows[1..];
      HeadThenTail(StoredRows(page), rows);
    }
  }

  class Table {
    const pager: Pager
    const rootPageNum: nat

    constructor (p: Pager)
      ensures pager == p && rootPageNum == 0
    {
      pager := p;
      rootPageNum := 0;
    }

    /** The pager is consistent and the root page is resident. */
    ghost predicate Loaded()
      reads this, pager, pager.pages
    {
      pager.Valid() && rootPageNum == 0 && pager.pages[rootPageNum] != null
    }

    /** The pager is consistent and the bytes of the root page are known:
        it is resident, or the file holds the whole of page 0, which
        `get_page` reads in on a miss. */
    ghost predicate Known()
      reads this, pager, pager.pages
    {
      pager.Valid() && rootPageNum == 0 && (pager.pages[rootPageNum] != null || PAGE_SIZE <= |pager.file|)
    }

    /** The root page as `get_page` returns it: the resident buffer, or else
        page 0 of the file. */
    ghost function Root(): (page: seq<byte>)
      reads this, pager, pager.pages, pager.Frame()
      requires Known()
      ensures |page| == PAGE_SIZE
      ensures pager.pages[rootPageNum] == null ==> page == FilePage(pager.file, 0)
    {
      if pager.pages[rootPageNum] != null then pager.pages[rootPageNum][..] else FilePage(pager.file, 0)
    }

    /** Besides Known, the root holds at most LEAF_NODE_MAX_CELLS cells. */
    ghost predicate Ready()
      reads this, pager, pager.pages, pager.Frame()
    {
      Known() && ValidLeaf(Root())
    }

    /** `table_start` (c/db.c:263-274): a cursor at cell 0 of the root, at
        the end of the table exactly when the root has no cells. The root is
        loaded into a new buffer if it was not resident, and then holds
        page 0 of the file when the file has a whole page 0; a resident root
        is not reloaded. */
    method Start() returns (cursor: Cursor)
      requires pager.Valid() && rootPageNum == 0
      modifies pager.pages
      ensures Loaded()
      ensures old(pager.pages[rootPageNum]) != null ==> pager.pages[..] == old(pager.pages[..])
      ensures old(pager.pages[rootPageNum]) == null ==>
        fresh(pager.pages[rootPageNum]) && pager.pages[..] == old(pager.pages[..])[rootPageNum := pager.pages[rootPageNum]]
      ensures old(Known()) ==> Root() == old(Root())
      ensures fresh(cursor) && cursor.table == this && cursor.pageNum == rootPageNum
      ensures cursor.cellNum == 0 && (cursor.endOfTable <==> NumCells(Root()) == 0)
    {
      var rootNode := pager.GetPage(rootPageNum);
      var numCells := NumCells(rootNode.value[..]);
      cursor := new Cursor(this, rootPageNum, 0, numCells == 0);
    }

    /** `table_end` (c/db.c:276-286): a cursor one past the last cell of the
        root, always at the end of the table. */
    method End() returns (cursor: Cursor)
      requires pager.Valid() && rootPageNum == 0
      modifies pager.pages
      ensures Loaded()
      ensures old(pager.pages[rootPageNum]) != null ==> pager.pages[..] == old(pager.pages[..])
      ensures old(pager.pages[rootPageNum]) == null ==>
        fresh(pager.pages[rootPageNum]) && pager.pages[..] == old(pager.pages[..])[rootPageNum := pager.pages[rootPageNum]]
      ensures old(Known()) ==> Root() == old(Root())
      ensures fresh(cursor) && cursor.table == this && cursor.pageNum == rootPageNum
      ensures cursor.cellNum == NumCells(Root()) && cursor.endOfTable
    {
      var rootNode := pager.GetPage(rootPageNum);
      var numCells := NumCells(rootNode.value[..]);
      cursor := new Cursor(this, rootPageNum, numCells, true);
    }
  }

  class Cursor {
    const table: Table
    const pageNum: nat
    var cellNum: nat
    var endOfTable: bool

    constructor (t: Table, page: nat, cell: nat, atEnd: bool)
      ensures table == t && pageNum == page && cellNum == cell && endOfTable == atEnd
    {
      table := t;
      pageNum := page;
      cellNum := cell;
      endOfTable := atEnd;
    }

    /** `cursor_value` (c/db.c:314-318): the page of the cursor, loaded if
        need be, and the offset of the row of its cell in that page. */
    method Value() returns (page: array<byte>, offset: nat)
      requires table.pager.Valid() && pageNum < TABLE_MAX_PAGES
      modifies table.pager.pages
      ensures table.pager.Valid() && table.pager.pages[pageNum] == page && page.Length == PAGE_SIZE
      ensures old(table.pager.pages[pageNum]) != null ==> table.pager.pages[..] == old(table.pager.pages[..])
      ensures offset == ValueOffset(cellNum)
    {
      var node := table.pager.GetPage(pageNum);
      page := node.value;
      offset := ValueOffset(cellNum);
    }

    /** `cursor_advance` (c/db.c:320-328): the cell number goes up by one and
        the end flag is set once it reaches the page's cell count; the flag is
        never cleared. */
    method Advance()
      requires table.pager.Valid() && pageNum < TABLE_MAX_PAGES
      modifies this, table.pager.pages
      ensures table.pager.Valid() && table.pager.pages[pageNum] != null
      ensures old(table.pager.pages[pageNum]) != null ==> table.pager.pages[..] == old(table.pager.pages[..])
      ensures cellNum == old(cellNum) + 1
      ensures endOfTable <==> old(endOfTable) || cellNum >= NumCells(table.pager.pages[pageNum][..])
    {
      var node := table.pager.GetPage(pageNum);
      cellNum := cellNum + 1;
      if cellNum >= NumCells(node.value[..]) {
        endOfTable := true;
      }
    }

    /** `leaf_node_insert` (c/db.c:241-261) at the cursor's cell of its
        resident page. A full node ends the process (false) and nothing
        changes; otherwise the page becomes InsertCell of the cell holding
        `key` and the row's image: cells cellNum..n-1 one slot up, the count
        n+1, the new cell at cellNum. */
    method LeafNodeInsert(key: u32, row: CRow.Row) returns (ok: bool)
      requires table.pager.Valid() && pageNum < TABLE_MAX_PAGES && WellFormed(row)
      requires table.pager.pages[pageNum] != null && cellNum <= NumCells(table.pager.pages[pageNum][..])
      modifies table.pager.pages, table.pager.pages[pageNum]
      ensures table.pager.Valid() && table.pager.pages[..] == old(table.pager.pages[..])
      ensures ok <==> old(NumCells(table.pager.pages[pageNum][..])) < LEAF_NODE_MAX_CELLS
      ensures !ok ==> table.pager.pages[pageNum][..] == old(table.pager.pages[pageNum][..])
      ensures ok ==> table.pager.pages[pageNum][..]
                     == InsertCell(old(table.pager.pages[pageNum][..]), cellNum, MakeCell(key, Image(row)))
    {
      var maybeNode := table.pager.GetPage(pageNum);
      var node := maybeNode.value;
      var numCells := NumCells(node[..]);
      if numCells >= LEAF_NODE_MAX_CELLS {
        return false;
      }
      InsertIntoPage(node, cellNum, key, row);
      ok := true;
    }
  }

  /** `db_open` (c/db.c:441-453) once the file is open: a pager whose
      `num_pages` holds `pageCount`, and a table rooted at page 0. When that
      count is 0 the root is loaded and given a cell count of 0, so the table
      is empty; otherwise no page is loaded yet, and the root is page 0 of
      the file once `get_page` reads it in. */
  method DbOpen(dbFile: seq<byte>, pageCount: u32) returns (table: Table)
    ensures fresh(table) && fresh(table.pager) && fresh(table.pager.pages)
    ensures table.pager.Valid() && table.rootPageNum == 0 && table.pager.file == dbFile
    ensures table.pager.numPages == pageCount
    ensures pageCount == 0 ==> table.Ready() && NumCells(table.Root()) == 0 && StoredRows(table.Root()) == []
    ensures pageCount != 0 ==> forall p :: 0 <= p < TABLE_MAX_PAGES ==> table.pager.pages[p] == null
    ensures pageCount != 0 ==> (table.Known() <==> PAGE_SIZE <= |dbFile|)
    ensures pageCount != 0 && PAGE_SIZE <= |dbFile| ==> table.Root() == FilePage(dbFile, 0)
  {
    var pager := new Pager(dbFile, pageCount);
    table := new Table(pager);
    if pager.numPages == 0 {
      var rootNode := pager.GetPage(0);
      CLeafNode.InitializeLeafNode(rootNode.value);
    }
  }

  /** `execute_insert` (c/db.c:402-416) on a table whose root is resident
      or read in whole from the file; a root that was not resident is
      resident afterwards. A root with LEAF_NODE_MAX_CELLS cells or more
      gives TableFull and its bytes do not change; otherwise the row's cell
      is appended at index `num_cells` (through `table_end`), whatever its
      key. */
  method ExecuteInsert(table: Table, row: CRow.Row) returns (result: ExecuteResult)
    requires table.Known() && WellFormed(row)
    modifies table.pager.pages, table.pager.pages[table.rootPageNum]
    ensures table.Loaded()
    ensures old(table.pager.pages[table.rootPageNum]) != null ==> table.pager.pages[..] == old(table.pager.pages[..])
    ensures old(table.pager.pages[table.rootPageNum]) == null ==>
      fresh(table.pager.pages[table.rootPageNum])
      && table.pager.pages[..] == old(table.pager.pages[..])[table.rootPageNum := table.pager.pages[table.rootPageNum]]
    ensures result == TableFull <==> old(NumCells(table.Root())) >= LEAF_NODE_MAX_CELLS
    ensures result == TableFull ==> table.Root() == old(table.Root())
    ensures result == Success ==> old(ValidLeaf(table.Root())) && table.Root() == Appended(old(table.Root()), row)
    ensures result == Success ==> StoredRows(table.Root()) == old(StoredRows(table.Root())) + [row]
  {
    ghost var before := table.Root();
    var maybeNode := table.pager.GetPage(table.rootPageNum);
    if NumCells(maybeNode.value[..]) >= LEAF_NODE_MAX_CELLS {
      return TableFull;
    }
    var cursor := table.End();
    var ok := cursor.LeafNodeInsert(row.id, row);
    AppendedRows(before, row);
    result := Success;
  }

  /** `execute_select` (c/db.c:418-430): a cursor from the start of the
      table to its end, each cell's row copied out with `deserialize_row`.
      The printed rows are returned: exactly the rows of the root's cells, in
      storage order. A root that was not resident is read in; no other slot
      and no page's bytes change. */
  method ExecuteSelect(table: Table) returns (rows: seq<CRow.Row>)
    requires table.Ready()
    modifies table.pager.pages
    ensures table.Loaded() && table.Ready() && table.Root() == old(table.Root())
    ensures old(table.pager.pages[table.rootPageNum]) != null ==> table.pager.pages[..] == old(table.pager.pages[..])
    ensures old(table.pager.pages[table.rootPageNum]) == null ==>
      fresh(table.pager.pages[table.rootPageNum])
      && table.pager.pages[..] == old(table.pager.pages[..])[table.rootPageNum := table.pager.pages[table.rootPageNum]]
    ensures rows == StoredRows(table.Root())
  {
    var cursor := table.Start();
    rows := ScanRows(table, cursor);
  }

  /** The loop of `execute_select` (c/db.c:422-426) on a resident root,
      from a cursor made by `table_start`: the rows of the root's cells, in
      storage order. No slot and no page changes. */
  method ScanRows(table: Table, cursor: Cursor) returns (rows: seq<CRow.Row>)
    requires table.Loaded() && table.Ready()
    requires cursor.table == table && cursor.pageNum == table.rootPageNum && cursor.cellNum == 0
    requires cursor.endOfTable <==> NumCells(table.Root()) == 0
    modifies cursor, table.pager.pages
    ensures table.Loaded() && table.pager.pages[..] == old(table.pager.pages[..])
    ensures rows == StoredRows(table.Root())
  {
    ghost var root := table.Root();
    rows := [];
    while !cursor.endOfTable
      invariant table.Loaded() && table.pager.pages[..] == old(table.pager.pages[..]) && table.Root() == root
      invariant cursor.table == table && cursor.pageNum == table.rootPageNum
      invariant cursor.cellNum <= NumCells(root)
      invariant cursor.endOfTable <==> cursor.cellNum >= NumCells(root)
      invariant rows == StoredRows(root)[..cursor.cellNum]
      decreases NumCells(root) - cursor.cellNum
    {
      var page, offset := cursor.Value();
      var row := DeserializeRow(page, offset);
      assert page[offset..offset + ROW_SIZE] == Values(root)[cursor.cellNum];
      rows := rows + [row];
      cursor.Advance();
    }
  }

  /** The first loop of `db_close` (c/db.c:290-297): every resident page
      below `num_pages` is written at its offset, in increasing order, and
      its slot emptied; the slots from `num_pages` on are kept. */
  method FlushAndRelease(pager: Pager)
    requires pager.Valid() && pager.numPages <= TABLE_MAX_PAGES
    modifies pager, pager.pages
    ensures pager.Valid()
    ensures pager.file == FlushUpTo(old(pager.file), old(pager.Snapshot()), pager.numPages)
    ensures forall p :: 0 <= p < pager.numPages ==> pager.pages[p] == null
    ensures forall p :: pager.numPages <= p < TABLE_MAX_PAGES ==> pager.pages[p] == old(pager.pages[p])
  {
    ghost var snap := pager.Snapshot();
    for i := 0 to pager.numPages
      invariant pager.Valid()
      invariant pager.file == FlushUpTo(old(pager.file), snap, i)
      invariant forall p :: 0 <= p < i ==> pager.pages[p] == null
      invariant forall p :: i <= p < TABLE_MAX_PAGES ==> pager.pages[p] == old(pager.pages[p])
      invariant forall p :: i <= p < TABLE_MAX_PAGES ==> (snap[p].None? <==> pager.pages[p] == null)
      invariant forall p :: i <= p < TABLE_MAX_PAGES && pager.pages[p] != null ==> snap[p].value == pager.pages[p][..]
    {
      if pager.pages[i] == null {
        assert FlushUpTo(old(pager.file), snap, i + 1) == FlushUpTo(old(pager.file), snap, i);
        continue;
      }
      ghost var before := pager.file;
      var flushed := pager.Flush(i);
      assert FlushUpTo(old(pager.file), snap, i + 1) == WriteAt(before, PageOffset(i), snap[i].value);
      pager.pages[i] := null;
    }
  }

  /** `db_close` (c/db.c:288-312), with the result of `close` given as
      `closeOk`. The first loop writes every resident page below
      `num_pages` at its offset and empties its slot; a failed `close` ends
      the process (false); otherwise the second loop empties every slot
      left. `num_pages` must not exceed the number of slots, since the loop
      indexes `pages` with it. */
  method DbClose(table: Table, closeOk: bool) returns (ok: bool)
    requires table.pager.Valid() && table.pager.numPages <= TABLE_MAX_PAGES
    modifies table.pager, table.pager.pages
    ensures ok == closeOk
    ensures table.pager.file == FlushUpTo(old(table.pager.file), old(table.pager.Snapshot()), table.pager.numPages)
    ensures forall q :: 0 <= q < table.pager.numPages && old(table.pager.pages[q]) != null ==>
              FilePage(table.pager.file, q) == old(table.pager.pages[q][..])
    ensures forall p :: 0 <= p < TABLE_MAX_PAGES && (ok || p < table.pager.numPages) ==> table.pager.pages[p] == null
    ensures forall p :: table.pager.numPages <= p < TABLE_MAX_PAGES && !ok ==> table.pager.pages[p] == old(table.pager.pages[p])
  {
    var pager := table.pager;
    ghost var snap := pager.Snapshot();
    FlushAndRelease(pager);
    FlushedPagesReadBack(old(pager.file), snap, pager.numPages);
    if !closeOk {
      return false;
    }
    for i := 0 to TABLE_MAX_PAGES
      invariant pager.Valid() && pager.file == FlushUpTo(old(pager.file), snap, pager.numPages)
      invariant forall p :: 0 <= p < TABLE_MAX_PAGES && (p < i || p < pager.numPages) ==> pager.pages[p] == null
    {
      if pager.pages[i] != null {
        pager.pages[i] := null;
      }
    }
    ok := true;
  }
}
