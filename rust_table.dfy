/** The Rust `Table` and `Cursor` of src/table.rs. A table is a pager whose
    page 0 is the root, a single leaf node; a cursor names a cell of a page
    of its table and whether it has gone past the last cell. */
module RustTable {
  import opened Bytes
  import opened Layout
  import opened Options
  import opened RowCodec
  import opened LeafNode
  import opened RustLeaf
  import opened DbFile
  import opened RustPager

  /** The rows of the cells of a leaf page, in storage order, as
      `Row::deserialize` reads them. */
  function StoredRows(page: seq<byte>): (rows: seq<Row>)
    requires ValidLeaf(page)
    ensures |rows| == NumCells(page)
    ensures forall i :: 0 <= i < |rows| ==> rows[i] == DecodeRow(Values(page)[i])
  {
    seq(NumCells(page), i requires 0 <= i < NumCells(page) => DecodeRow(Values(page)[i]))
  }

  class Table {
    const pager: Pager
    const rootPageNum: nat

    /** The pager is consistent and the root page reads as a leaf with at
        most LEAF_NODE_MAX_CELLS cells. */
    ghost predicate Ready()
      reads this, pager
    {
      pager.Valid() && rootPageNum == 0 && ValidLeaf(pager.View(rootPageNum))
    }

    /** What the Rust operations keep: besides Ready, the root is typed as a
        leaf and its keys are strictly ascending. */
    ghost predicate Valid()
      reads this, pager
    {
      Ready() && GetNodeType(Root()) == Some(Leaf) && StrictlyAscending(Keys(Root()))
    }

    /** The contents of the root page. */
    ghost function Root(): (page: seq<byte>)
      reads this, pager
      requires pager.Valid() && rootPageNum < TABLE_MAX_PAGES
      ensures |page| == PAGE_SIZE
    {
      pager.View(rootPageNum)
    }

    constructor (p: Pager)
      ensures pager == p && rootPageNum == 0
    {
      pager := p;
      rootPageNum := 0;
    }

    /** `Table::new` (lines 450-461): open the pager; when the file has no
        pages, load page 0 and initialize it as an empty, non-root leaf. An
        empty file gives a valid empty table; otherwise every page reads as
        the file's page. */
    static method New(dbFile: seq<byte>) returns (r: Option<Table>)
      ensures r.Some? <==> |dbFile| % PAGE_SIZE == 0
      ensures r.Some? ==> fresh(r.value) && fresh(r.value.pager)
      ensures r.Some? ==> r.value.pager.Valid() && r.value.rootPageNum == 0 && r.value.pager.file == dbFile
      ensures r.Some? && |dbFile| == 0 ==> r.value.Valid() && NumCells(r.value.Root()) == 0 && !IsNodeRoot(r.value.Root())
      ensures r.Some? && |dbFile| > 0 ==> forall p :: 0 <= p < TABLE_MAX_PAGES ==> r.value.pager.View(p) == FilePage(dbFile, p)
    {
      var maybePager := Pager.Open(dbFile);
      if maybePager.None? {
        return None;
      }
      var pager := maybePager.value;
      assert |dbFile| > 0 ==> pager.numPages > 0;
      if pager.numPages == 0 {
        var rootNode := pager.GetPage(0);
        pager.WritePage(0, InitializeLeafNode(rootNode.value));
      }
      var table := new Table(pager);
      r := Some(table);
    }

    /** `Table::start` (lines 497-511): a cursor at cell 0 of the root, at the
        end of the table exactly when the root has no cells. */
    method Start() returns (cursor: Cursor)
      requires Ready()
      modifies pager
      ensures Ready() && pager.file == old(pager.file)
      ensures forall q :: 0 <= q < TABLE_MAX_PAGES ==> pager.View(q) == old(pager.View(q))
      ensures fresh(cursor) && cursor.table == this && cursor.pageNum == rootPageNum
      ensures cursor.cellNum == 0 && (cursor.endOfTable <==> NumCells(Root()) == 0)
    {
      var pageNum := rootPageNum;
      var rootNode := pager.GetPage(rootPageNum);
      var numCells := NumCells(rootNode.value);
      cursor := new Cursor(this, pageNum, 0, numCells == 0);
    }

    /** `Table::leaf_node_find` (lines 527-557): a cursor at the cell the
        binary search over page `pageNum` returns, not at the end. */
    method LeafNodeFind(pageNum: nat, key: u32) returns (cursor: Cursor)
      requires pager.Valid() && pageNum < TABLE_MAX_PAGES && ValidLeaf(pager.View(pageNum))
      modifies pager
      ensures pager.Valid() && pager.file == old(pager.file)
      ensures forall q :: 0 <= q < TABLE_MAX_PAGES ==> pager.View(q) == old(pager.View(q))
      ensures fresh(cursor) && cursor.table == this && cursor.pageNum == pageNum && !cursor.endOfTable
      ensures cursor.cellNum <= NumCells(pager.View(pageNum))
      ensures SearchResult(Keys(pager.View(pageNum)), key, cursor.cellNum)
    {
      var node := pager.GetPage(pageNum);
      var cellNum := RustLeaf.LeafNodeFind(node.value, key);
      cursor := new Cursor(this, pageNum, cellNum, false);
    }

    /** `Table::find_node` (lines 513-525): search the root when it is a leaf;
        an internal root panics, and so does a type byte other than 0 or 1
        (None). On strictly ascending keys the cursor is at the insertion point. */
    method FindNode(key: u32) returns (cursor: Option<Cursor>)
      requires Ready()
      modifies pager
      ensures Ready() && pager.file == old(pager.file)
      ensures forall q :: 0 <= q < TABLE_MAX_PAGES ==> pager.View(q) == old(pager.View(q))
      ensures cursor.Some? <==> GetNodeType(Root()) == Some(Leaf)
      ensures cursor.Some? ==> fresh(cursor.value) && cursor.value.table == this && cursor.value.pageNum == rootPageNum
      ensures cursor.Some? ==> !cursor.value.endOfTable && cursor.value.cellNum <= NumCells(Root())
      ensures cursor.Some? ==> SearchResult(Keys(Root()), key, cursor.value.cellNum)
      ensures cursor.Some? && StrictlyAscending(Keys(Root())) ==> cursor.value.cellNum == LowerBound(Keys(Root()), key)
    {
      var pageNum := rootPageNum;
      var rootNode := pager.GetPage(rootPageNum);
      match GetNodeType(rootNode.value)
      case Some(Leaf) =>
        var c := LeafNodeFind(pageNum, key);
        if StrictlyAscending(Keys(Root())) {
          SearchResultIsLowerBound(Keys(Root()), key, c.cellNum);
        }
        cursor := Some(c);
      case Some(Internal) =>
        cursor := None;
      case None =>
        cursor := None;
    }

    /** The loop of `Table::flush_all` as written (lines 559-568): only slots
        below `num_pages`, the page count of the file when it was opened. */
    method FlushAllAsWritten()
      requires pager.Valid() && pager.numPages <= TABLE_MAX_PAGES
      modifies pager
      ensures pager.Valid() && pager.pages == old(pager.pages)
      ensures pager.file == FlushUpTo(old(pager.file), pager.pages, pager.numPages)
    {
      pager.FlushSlots(pager.numPages);
    }

    /** `flush_all` over every slot: each resident page is written to the
        file, where it reads back as it was in memory. */
    method FlushAll()
      requires pager.Valid()
      modifies pager
      ensures pager.Valid() && pager.pages == old(pager.pages)
      ensures pager.file == FlushUpTo(old(pager.file), pager.pages, TABLE_MAX_PAGES)
      ensures forall q :: 0 <= q < TABLE_MAX_PAGES && pager.pages[q].Some? ==> FilePage(pager.file, q) == pager.pages[q].value
    {
      pager.FlushSlots(TABLE_MAX_PAGES);
      FlushedPagesReadBack(old(pager.file), pager.pages, TABLE_MAX_PAGES);
    }
  }

  class Cursor {
    const table: Table
    const pageNum: nat
    var cellNum: nat
    var endOfTable: bool

    constructor (t: Table, page: nat, cell: nat, atEnd: bool)
      ensures table == t && pageNum == page && cellNum == cell && endOfTable == atEnd
    {
      table := t;
      pageNum := page;
      cellNum := cell;
      endOfTable := atEnd;
    }

    /** The contents of the cursor's page. */
    ghost function Page(): (page: seq<byte>)
      reads this, table, table.pager
      requires table.pager.Valid() && pageNum < TABLE_MAX_PAGES
      ensures |page| == PAGE_SIZE
    {
      table.pager.View(pageNum)
    }

    /** `Cursor::value` and `get_row` (lines 335-345): the row stored in the
        cursor's cell. */
    method GetRow() returns (row: Row)
      requires table.pager.Valid() && pageNum < TABLE_MAX_PAGES && cellNum < LEAF_NODE_MAX_CELLS
      modifies table.pager
      ensures table.pager.Valid() && table.pager.file == old(table.pager.file)
      ensures forall q :: 0 <= q < TABLE_MAX_PAGES ==> table.pager.View(q) == old(table.pager.View(q))
      ensures row == DecodeRow(LeafNodeValue(Page(), cellNum))
    {
      var node := table.pager.GetPage(pageNum);
      var value := LeafNodeValue(node.value, cellNum);
      row := Deserialize(value, 0);
      assert value[0..ROW_SIZE] == value;
    }

    /** `Cursor::advance` (lines 431-440): the cell number goes up by one,
        and the end flag is set once it reaches the page's cell count; it is
        never cleared. */
    method Advance()
      requires table.pager.Valid() && pageNum < TABLE_MAX_PAGES
      modifies this, table.pager
      ensures table.pager.Valid() && table.pager.file == old(table.pager.file)
      ensures forall q :: 0 <= q < TABLE_MAX_PAGES ==> table.pager.View(q) == old(table.pager.View(q))
      ensures cellNum == old(cellNum) + 1
      ensures endOfTable <==> old(endOfTable) || cellNum >= NumCells(Page())
    {
      var node := table.pager.GetPage(pageNum);
      cellNum := cellNum + 1;
      var numCells := NumCells(node.value);
      if cellNum >= numCells {
        endOfTable := true;
      }
    }

    /** `Cursor::leaf_node_insert` (lines 401-429) at the cursor's cell. A
        node that is not full gets the cell of `key` and the serialized row
        at `cellNum`, the later cells one slot up (RustLeaf.LeafNodeInsertPage).
        A full node would be split (false), which is not modelled here:
        nothing changes. */
    method LeafNodeInsert(key: u32, row: Row) returns (inserted: bool)
      requires table.pager.Valid() && pageNum < TABLE_MAX_PAGES && ValidLeaf(Page())
      requires cellNum <= NumCells(Page()) && Serializable(row)
      modifies table.pager
      ensures table.pager.Valid() && table.pager.file == old(table.pager.file)
      ensures inserted <==> old(NumCells(Page())) < LEAF_NODE_MAX_CELLS
      ensures inserted ==> Page() == InsertCell(old(Page()), cellNum, MakeCell(key, SerializedRow(row)))
      ensures !inserted ==> Page() == old(Page())
      ensures forall q :: 0 <= q < TABLE_MAX_PAGES && q != pageNum ==> table.pager.View(q) == old(table.pager.View(q))
    {
      var node := table.pager.GetPage(pageNum);
      var numCells := NumCells(node.value);
      if numCells >= LEAF_NODE_MAX_CELLS {
        return false;
      }
      var newNode := LeafNodeInsertPage(node.value, cellNum, key, row);
      table.pager.WritePage(pageNum, newNode);
      inserted := true;
    }
  }
}
