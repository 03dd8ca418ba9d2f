/** The database file as a sequence of bytes, shared by the Rust and C
    models: reading a page at its offset, writing bytes at an offset, and
    the file after a run of page flushes. */
module DbFile {
  import opened Bytes
  import opened Layout
  import opened Options

  /** Byte offset of page `p` in the file. */
  function PageOffset(p: nat): nat
  {
    p * PAGE_SIZE
  }

  /** Pages occupy disjoint byte ranges: a page ends at or before the
      offset of every later page. */
  lemma PagesDisjoint(p: nat, q: nat)
    requires p < q
    ensures PageOffset(p) + PAGE_SIZE <= PageOffset(q)
  {
  }

  /** What one `read` of PAGE_SIZE bytes at the offset of page `p` leaves in
      a zeroed buffer: the file's bytes where there are any, zeros past the end. */
  function FilePage(file: seq<byte>, p: nat): (page: seq<byte>)
    ensures |page| == PAGE_SIZE
    ensures forall k :: 0 <= k < PAGE_SIZE ==>
      page[k] == if PageOffset(p) + k < |file| then file[PageOffset(p) + k] else 0
  {
    var off := PageOffset(p);
    var avail: nat := if off >= |file| then 0 else if |file| - off < PAGE_SIZE then |file| - off else PAGE_SIZE;
    if avail == 0 then Zeros(PAGE_SIZE)
    else
      var page := file[off..off + avail] + Zeros(PAGE_SIZE - avail);
      assert forall k :: 0 <= k < avail ==> page[k] == file[off..off + avail][k];
      page
  }

  /** The number of pages a file of `fileLength` bytes is taken to have
      when a missing page is loaded: its length in pages, rounded up. */
  function RoundedPages(fileLength: nat): (n: nat)
    ensures n * PAGE_SIZE >= fileLength && (n == 0 || (n - 1) * PAGE_SIZE < fileLength)
  {
    if fileLength % PAGE_SIZE == 0 then fileLength / PAGE_SIZE else fileLength / PAGE_SIZE + 1
  }

  /** The file after a seek to `off` and a write of all of `data` (Rust
      `write_all`, C `write`): `data` at `off`, the old bytes elsewhere,
      and zeros in any gap between the old end and `off`. */
  function WriteAt(file: seq<byte>, off: nat, data: seq<byte>): (r: seq<byte>)
    ensures |r| == if off + |data| > |file| then off + |data| else |file|
    ensures forall k :: off <= k < off + |data| ==> r[k] == data[k - off]
    ensures forall k :: 0 <= k < |r| && !(off <= k < off + |data|) ==> r[k] == if k < |file| then file[k] else 0
  {
    var base := if off > |file| then file + Zeros(off - |file|) else file;
    var tail := if off + |data| < |base| then base[off + |data|..] else [];
    var r := base[..off] + data + tail;
    assert forall k :: 0 <= k < off ==> r[k] == base[k];
    assert forall k :: off <= k < off + |data| ==> r[k] == data[k - off];
    assert forall k :: off + |data| <= k < |r| ==> r[k] == tail[k - off - |data|];
    r
  }

  /** A page written at its offset reads back as itself. */
  lemma WriteThenRead(file: seq<byte>, p: nat, page: seq<byte>)
    requires |page| == PAGE_SIZE
    ensures FilePage(WriteAt(file, PageOffset(p), page), p) == page
  {
    var r := WriteAt(file, PageOffset(p), page);
    forall k | 0 <= k < PAGE_SIZE ensures FilePage(r, p)[k] == page[k] {
      assert r[PageOffset(p) + k] == page[PageOffset(p) + k - PageOffset(p)];
    }
  }

  /** Page `q` lies wholly inside `file` and holds `page`. */
  predicate Holds(file: seq<byte>, q: nat, page: seq<byte>)
  {
    && |page| == PAGE_SIZE
    && PageOffset(q) + PAGE_SIZE <= |file|
    && forall k :: 0 <= k < PAGE_SIZE ==> file[PageOffset(q) + k] == page[k]
  }

  /** Writing another page keeps a page that lies wholly inside the file. */
  lemma WriteKeeps(file: seq<byte>, p: nat, data: seq<byte>, q: nat, page: seq<byte>)
    requires |data| == PAGE_SIZE && p != q && Holds(file, q, page)
    ensures Holds(WriteAt(file, PageOffset(p), data), q, page)
  {
    var r := WriteAt(file, PageOffset(p), data);
    forall k | 0 <= k < PAGE_SIZE ensures r[PageOffset(q) + k] == page[k] {
      if p < q {
        assert PageOffset(p) + PAGE_SIZE <= PageOffset(q);
      } else {
        assert PageOffset(q) + PAGE_SIZE <= PageOffset(p);
      }
    }
  }

  /** A page that lies wholly inside the file is what a read of it returns. */
  lemma HoldsRead(file: seq<byte>, q: nat, page: seq<byte>)
    requires Holds(file, q, page)
    ensures FilePage(file, q) == page
  {
  }

  /** Every slot holds either no page or a PAGE_SIZE buffer. */
  predicate PagesWellSized(pages: seq<Option<seq<byte>>>)
  {
    forall p :: 0 <= p < |pages| && pages[p].Some? ==> |pages[p].value| == PAGE_SIZE
  }

  /** The file after `flush_page(i)` for every resident slot i < limit, in
      increasing order (the loop of `flush_all` in src/table.rs and the first
      loop of `db_close` in c/db.c). */
  function FlushUpTo(file: seq<byte>, pages: seq<Option<seq<byte>>>, limit: nat): (r: seq<byte>)
    requires limit <= |pages| && PagesWellSized(pages)
    ensures |r| >= |file|
    decreases limit
  {
    if limit == 0 then file
    else
      var f := FlushUpTo(file, pages, limit - 1);
      match pages[limit - 1]
      case Some(page) => WriteAt(f, PageOffset(limit - 1), page)
      case None => f
  }

  /** After flushing the slots below `limit`, a resident page below it lies
      wholly in the file and holds what it held in memory. */
  lemma {:induction false} FlushedPageHolds(file: seq<byte>, pages: seq<Option<seq<byte>>>, limit: nat, q: nat)
    requires limit <= |pages| && PagesWellSized(pages)
    requires q < limit && pages[q].Some?
    ensures Holds(FlushUpTo(file, pages, limit), q, pages[q].value)
  {
    var f := FlushUpTo(file, pages, limit - 1);
    if q == limit - 1 {
      WriteThenRead(f, q, pages[q].value);
    } else {
      FlushedPageHolds(file, pages, limit - 1, q);
      if pages[limit - 1].Some? {
        WriteKeeps(f, limit - 1, pages[limit - 1].value, q, pages[q].value);
      }
    }
  }

  /** After flushing the slots below `limit`, every resident page below it
      reads back from the file as it was in memory. */
  lemma FlushedPagesReadBack(file: seq<byte>, pages: seq<Option<seq<byte>>>, limit: nat)
    requires limit <= |pages| && PagesWellSized(pages)
    ensures forall q :: 0 <= q < limit && pages[q].Some? ==> FilePage(FlushUpTo(file, pages, limit), q) == pages[q].value
  {
    forall q | 0 <= q < limit && pages[q].Some? ensures FilePage(FlushUpTo(file, pages, limit), q) == pages[q].value {
      FlushedPageHolds(file, pages, limit, q);
      HoldsRead(FlushUpTo(file, pages, limit), q, pages[q].value);
    }
  }

}
