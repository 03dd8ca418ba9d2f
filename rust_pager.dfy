/** The Rust pager of src/table.rs: a table of TABLE_MAX_PAGES optional page
    buffers in front of the database file. The file is its sequence of
    bytes; a seek followed by one `read` or `write_all` is modelled as
    reading or writing the bytes at that offset (a `read` that returns
    fewer bytes than are available is not modelled). Program exits and
    panics are `None` results. */
module RustPager {
  import opened Bytes
  import opened Layout
  import opened Options
  import opened DbFile

  /** The buffer `_load_page(p)` installs (lines 643-657): a page read from
      the file when p is at most the rounded page count of `fileLength`,
      otherwise a fresh zeroed page. */
  function LoadedPage(file: seq<byte>, fileLength: nat, p: nat): (page: seq<byte>)
    ensures |page| == PAGE_SIZE
  {
    if p <= RoundedPages(fileLength) then FilePage(file, p) else Zeros(PAGE_SIZE)
  }

  /** While the file still has the length it was opened with, the branch in
      `_load_page` makes no difference: a page past the end reads as zeros. */
  lemma LoadedIsFilePage(file: seq<byte>, p: nat)
    ensures LoadedPage(file, |file|, p) == FilePage(file, p)
  {
    if p > RoundedPages(|file|) {
      forall k | 0 <= k < PAGE_SIZE ensures FilePage(file, p)[k] == 0 {
        assert PageOffset(p) >= RoundedPages(|file|) * PAGE_SIZE;
      }
    }
  }

  /** The page cache. `file` is the database file, `fileLength` and
      `numPages` are fixed when it is opened, `pages` has TABLE_MAX_PAGES slots. */
  class Pager {
    var file: seq<byte>
    const fileLength: nat
    const numPages: nat
    var pages: seq<Option<seq<byte>>>

    ghost predicate Valid()
      reads this
    {
      && |pages| == TABLE_MAX_PAGES
      && PagesWellSized(pages)
      && fileLength % PAGE_SIZE == 0
      && numPages == fileLength / PAGE_SIZE
    }

    /** The contents page `p` has for the program: the resident buffer, or
        the buffer a load would install. */
    ghost function View(p: nat): (page: seq<byte>)
      reads this
      requires Valid() && p < TABLE_MAX_PAGES
      ensures |page| == PAGE_SIZE
    {
      match pages[p]
      case Some(buf) => buf
      case None => LoadedPage(file, fileLength, p)
    }

    /** `Pager::new` once the file is open and its length is a whole number
        of pages: TABLE_MAX_PAGES empty slots. */
    constructor (dbFile: seq<byte>)
      requires |dbFile| % PAGE_SIZE == 0
      ensures Valid() && file == dbFile && fileLength == |dbFile| && numPages == |dbFile| / PAGE_SIZE
      ensures forall p :: 0 <= p < TABLE_MAX_PAGES ==> pages[p] == None
    {
      file := dbFile;
      fileLength := |dbFile|;
      numPages := |dbFile| / PAGE_SIZE;
      var slots: seq<Option<seq<byte>>> := [];
      for i := 0 to TABLE_MAX_PAGES
        invariant |slots| == i && forall p :: 0 <= p < i ==> slots[p] == None
      {
        slots := slots + [None];
      }
      pages := slots;
    }

    /** `Pager::new` (lines 582-606): exits (None) when the file is not a
        whole number of pages; otherwise a pager in which every page reads
        as the file's page. */
    static method Open(dbFile: seq<byte>) returns (r: Option<Pager>)
      ensures r.Some? <==> |dbFile| % PAGE_SIZE == 0
      ensures r.Some? ==> fresh(r.value) && r.value.Valid() && r.value.file == dbFile
      ensures r.Some? ==> r.value.fileLength == |dbFile| && r.value.numPages == |dbFile| / PAGE_SIZE
      ensures r.Some? ==> forall p :: 0 <= p < TABLE_MAX_PAGES ==> r.value.View(p) == FilePage(dbFile, p)
    {
      if |dbFile| % PAGE_SIZE != 0 {
        return None;
      }
      var pager := new Pager(dbFile);
      forall p | 0 <= p < TABLE_MAX_PAGES ensures pager.View(p) == FilePage(dbFile, p) {
        LoadedIsFilePage(dbFile, p);
      }
      r := Some(pager);
    }

    /** `_load_page` (lines 642-658): installs LoadedPage in slot `p`. */
    method LoadPage(p: nat)
      requires Valid() && p < TABLE_MAX_PAGES
      modifies this
      ensures Valid() && file == old(file)
      ensures pages == old(pages)[p := Some(LoadedPage(file, fileLength, p))]
    {
      if p <= RoundedPages(fileLength) {
        var buf := FilePage(file, p);
        pages := pages[p := Some(buf)];
      } else {
        pages := pages[p := Some(Zeros(PAGE_SIZE))];
      }
    }

    /** `get_page` (lines 671-684). A page number above TABLE_MAX_PAGES ends
        the process at the bound check, and page TABLE_MAX_PAGES ends it at
        the index into the slot vector: None exactly when p >= TABLE_MAX_PAGES.
        Otherwise the result is the page's contents, which no page's
        contents change: a resident page is returned without a load and the
        slots stay as they were; a missing one is loaded into its slot and
        no other slot changes. */
    method GetPage(p: nat) returns (page: Option<seq<byte>>)
      requires Valid()
      modifies this
      ensures Valid() && file == old(file)
      ensures page.None? <==> p >= TABLE_MAX_PAGES
      ensures p < TABLE_MAX_PAGES ==> page == Some(old(View(p))) && pages[p] == page
      ensures forall q :: 0 <= q < TABLE_MAX_PAGES ==> View(q) == old(View(q))
      ensures p < TABLE_MAX_PAGES && old(pages[p]).Some? ==> pages == old(pages)
      ensures p >= TABLE_MAX_PAGES ==> pages == old(pages)
      ensures forall q :: 0 <= q < TABLE_MAX_PAGES && q != p ==> pages[q] == old(pages[q])
    {
      if p > TABLE_MAX_PAGES {
        return None;
      }
      if p >= |pages| {
        return None;
      }
      if pages[p].None? {
        LoadPage(p);
      }
      page := pages[p];
    }

    /** A write through the `&mut Page` that `get_page` hands out: the
        resident buffer of slot `p` becomes `page`. */
    method WritePage(p: nat, page: seq<byte>)
      requires Valid() && p < TABLE_MAX_PAGES && pages[p].Some? && |page| == PAGE_SIZE
      modifies this
      ensures Valid() && file == old(file)
      ensures pages == old(pages)[p := Some(page)]
      ensures View(p) == page && forall q :: 0 <= q < TABLE_MAX_PAGES && q != p ==> View(q) == old(View(q))
    {
      pages := pages[p := Some(page)];
    }

    /** `flush_page` (lines 608-627): a resident page is written at its
        offset; flushing an empty slot ends the process (false). */
    method FlushPage(p: nat) returns (ok: bool)
      requires Valid() && p < TABLE_MAX_PAGES
      modifies this
      ensures Valid() && pages == old(pages)
      ensures ok <==> pages[p].Some?
      ensures file == if ok then WriteAt(old(file), PageOffset(p), pages[p].value) else old(file)
    {
      match pages[p]
      case Some(page) =>
        file := WriteAt(file, PageOffset(p), page);
        ok := true;
      case None =>
        ok := false;
    }

    /** The loop of `Table::flush_all` (lines 559-568) over slots 0..limit-1:
        every resident slot is flushed, in order. */
    method FlushSlots(limit: nat)
      requires Valid() && limit <= TABLE_MAX_PAGES
      modifies this
      ensures Valid() && pages == old(pages)
      ensures file == FlushUpTo(old(file), pages, limit)
    {
      for i := 0 to limit
        invariant Valid() && pages == old(pages)
        invariant file == FlushUpTo(old(file), pages, i)
      {
        match pages[i]
        case Some(_) =>
          var ok := FlushPage(i);
        case None =>
      }
    }
  }
}
