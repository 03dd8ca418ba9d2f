/** The C pager of c/db.c: a fixed array of TABLE_MAX_PAGES page pointers
    in front of the database file, each null or a PAGE_SIZE buffer from
    `malloc`. The file is its sequence of bytes; `lseek` followed by one
    `read` or `write` reads or writes the bytes at that offset (a short
    `read` or `write` is not modelled). A call that ends the process is a
    `None` or `false` result. */
module CPager {
  import opened Bytes
  import opened Layout
  import opened Options
  import opened DbFile

  /** `pager->file_length = file_length` stores the `off_t` length in a
      `uint32_t`: lengths below 2^32 are kept, longer ones wrap. */
  function FileLength32(length: nat): (x: u32)
    ensures length < 0x1_0000_0000 ==> x == length
    ensures (length - x) % 0x1_0000_0000 == 0
  {
    length % 0x1_0000_0000
  }

  /** The bytes one `read` of PAGE_SIZE bytes at the offset of page `p`
      transfers: the file's bytes from there on, at most PAGE_SIZE of them. */
  function ReadBytes(file: seq<byte>, p: nat): (r: seq<byte>)
    ensures |r| <= PAGE_SIZE
    ensures |r| == 0 || PageOffset(p) + |r| <= |file|
    ensures |r| == PAGE_SIZE || PageOffset(p) + |r| >= |file|
    ensures forall k :: 0 <= k < |r| ==> PageOffset(p) + k < |file| && r[k] == file[PageOffset(p) + k]
  {
    var off := PageOffset(p);
    if off >= |file| then []
    else if |file| - off < PAGE_SIZE then file[off..]
    else file[off..off + PAGE_SIZE]
  }

  /** What a `read` transfers is the part of the zero-filled page image
      (FilePage) that lies inside the file; the rest of that image is zeros. */
  lemma ReadBytesInFilePage(file: seq<byte>, p: nat)
    ensures FilePage(file, p)[..|ReadBytes(file, p)|] == ReadBytes(file, p)
    ensures forall k :: |ReadBytes(file, p)| <= k < PAGE_SIZE ==> FilePage(file, p)[k] == 0
  {
    var r := ReadBytes(file, p);
    assert forall k :: 0 <= k < |r| ==> FilePage(file, p)[k] == r[k];
  }

  /** The bound check of `get_page` as written (c/db.c:212): the process
      goes on unless `page_num > TABLE_MAX_PAGES`. */
  predicate GetPageGuardPassesAsWritten(p: nat)
  {
    !(p > TABLE_MAX_PAGES)
  }

  /** The check lets through a page number with no slot: for a pager in
      its valid state, the page number equal to the number of slots in
      `pages` passes the check, and `pages[page_num]` is then one past the
      end of the table. */
  lemma GetPageGuardAdmitsMissingSlot(pager: Pager)
    requires pager.Valid()
    ensures GetPageGuardPassesAsWritten(pager.pages.Length)
    ensures exists p: nat :: GetPageGuardPassesAsWritten(p) && p >= pager.pages.Length
  {
    assert GetPageGuardPassesAsWritten(pager.pages.Length);
  }

  class Pager {
    var file: seq<byte>
    const fileLength: u32
    const numPages: u32
    const pages: array<array?<byte>>

    /** The page buffers currently in the slots. */
    ghost function Frame(): (s: set<object>)
      reads this, pages
      ensures forall p :: 0 <= p < pages.Length && pages[p] != null ==> pages[p] in s
    {
      set p | 0 <= p < pages.Length && pages[p] != null :: pages[p]
    }

    /** TABLE_MAX_PAGES slots; every buffer is a page and no buffer sits in
        two slots. */
    ghost predicate Valid()
      reads this, pages
    {
      && pages.Length == TABLE_MAX_PAGES
      && (forall p :: 0 <= p < TABLE_MAX_PAGES && pages[p] != null ==> pages[p].Length == PAGE_SIZE)
      && (forall p, q :: 0 <= p < q < TABLE_MAX_PAGES && pages[p] != null ==> pages[p] != pages[q])
    }

    /** The contents of the slots as values: None for a null slot. */
    ghost function Snapshot(): (s: seq<Option<seq<byte>>>)
      reads this, pages, Frame()
      requires Valid()
      ensures |s| == TABLE_MAX_PAGES && PagesWellSized(s)
      ensures forall p :: 0 <= p < TABLE_MAX_PAGES ==> (s[p].None? <==> pages[p] == null)
      ensures forall p :: 0 <= p < TABLE_MAX_PAGES && pages[p] != null ==> s[p].value == pages[p][..]
    {
      seq(TABLE_MAX_PAGES, p reads this, pages, Frame() requires 0 <= p < TABLE_MAX_PAGES && Valid() =>
        if pages[p] == null then None else Some(pages[p][..]))
    }

    /** `pager_open` (c/db.c:165-189) once the file is open: its length, cut
        to 32 bits, and TABLE_MAX_PAGES null slots. The function never
        assigns `num_pages`, which keeps whatever the allocation held; that
        value is the parameter `pageCount`. */
    constructor (dbFile: seq<byte>, pageCount: u32)
      ensures Valid() && file == dbFile && fileLength == FileLength32(|dbFile|) && numPages == pageCount
      ensures fresh(pages) && forall p :: 0 <= p < TABLE_MAX_PAGES ==> pages[p] == null
    {
      file := dbFile;
      fileLength := FileLength32(|dbFile|);
      numPages := pageCount;
      pages := new array?<byte>[TABLE_MAX_PAGES];
      new;
      for i := 0 to TABLE_MAX_PAGES
        invariant file == dbFile
        invariant forall p :: 0 <= p < i ==> pages[p] == null
      {
        pages[i] := null;
      }
    }

    /** `get_page` (c/db.c:211-239) with its bound check corrected to
        `page_num >= TABLE_MAX_PAGES`: None exactly for a page number
        without a slot. A resident page is returned as it is and nothing
        changes. On a miss a new buffer goes into slot `p`; when `p` is at
        most the file's page count rounded up, the bytes a `read` at the
        page's offset transfers are at its start. The rest of the buffer is
        what `malloc` left there, about which nothing is known. */
    method GetPage(p: nat) returns (page: Option<array<byte>>)
      requires Valid()
      modifies pages
      ensures Valid() && file == old(file)
      ensures page.None? <==> p >= TABLE_MAX_PAGES
      ensures page.None? ==> pages[..] == old(pages[..])
      ensures page.Some? ==> pages[p] == page.value && page.value.Length == PAGE_SIZE
      ensures page.Some? && old(pages[p]) != null ==> page.value == old(pages[p]) && pages[..] == old(pages[..])
      ensures page.Some? && old(pages[p]) == null ==> fresh(page.value) && pages[..] == old(pages[..])[p := page.value]
      ensures page.Some? && old(pages[p]) == null && p <= RoundedPages(fileLength) ==>
        page.value[..|ReadBytes(file, p)|] == ReadBytes(file, p)
      ensures page.Some? && old(pages[p]) == null && p <= RoundedPages(fileLength) && PageOffset(p) + PAGE_SIZE <= |file| ==>
        page.value[..] == FilePage(file, p)
    {
      if p >= TABLE_MAX_PAGES {
        return None;
      }
      if pages[p] == null {
        var buffer := new byte[PAGE_SIZE];
        var filePages := fileLength / PAGE_SIZE;
        if fileLength % PAGE_SIZE != 0 {
          filePages := filePages + 1;
        }
        if p <= filePages {
          ReadInto(buffer, p);
        }
        pages[p] := buffer;
      }
      page := Some(pages[p]);
    }

    /** The `lseek` and `read` of `get_page` (c/db.c:228-233): the bytes the file holds
        from the page's offset, at most a page, go to the start of `buffer`;
        when the file holds the whole page, the buffer is that page. */
    method ReadInto(buffer: array<byte>, p: nat)
      requires buffer.Length == PAGE_SIZE
      modifies buffer
      ensures buffer[..|ReadBytes(file, p)|] == ReadBytes(file, p)
      ensures PageOffset(p) + PAGE_SIZE <= |file| ==> buffer[..] == FilePage(file, p)
    {
      var bytes := ReadBytes(file, p);
      ghost var before := buffer[..];
      Memcpy(buffer, 0, bytes);
      assert buffer[..|bytes|] == Overwrite(before, 0, bytes)[0..|bytes|];
      if PageOffset(p) + PAGE_SIZE <= |file| {
        ReadBytesInFilePage(file, p);
        assert buffer[..] == buffer[..|bytes|];
      }
    }

    /** `pager_flush` (c/db.c:191-209): a null slot ends the process
        (false); otherwise the whole page is written at its offset. */
    method Flush(p: nat) returns (ok: bool)
      requires Valid() && p < TABLE_MAX_PAGES
      modifies this
      ensures ok <==> pages[p] != null
      ensures Valid() && file == (if ok then WriteAt(old(file), PageOffset(p), pages[p][..]) else old(file))
    {
      if pages[p] == null {
        return false;
      }
      file := WriteAt(file, PageOffset(p), pages[p][..]);
      ok := true;
    }
  }
}
