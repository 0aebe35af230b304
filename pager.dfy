/**
 * The pager and the file-backed table of src/pager.rs: a cache of up to
 * TABLE_MAX_PAGES page buffers over a backing file, filled lazily by
 * `get_page` and written back by the table's teardown.
 */
module Paging {
  import opened Constants
  import opened Wrappers
  import opened Layout
  import opened FileImage
  import opened Persistence

  /** `PageError`; its I/O and integer-conversion variants belong to the OS file layer, which is not modelled. */
  datatype PageError = FetchOutOfBounds(pageNum: nat)

  /** The bound check of `get_page` as written: it rejects only page numbers above TABLE_MAX_PAGES. */
  predicate PassesBoundCheckAsWritten(pageNum: nat) {
    !(pageNum > TABLE_MAX_PAGES)
  }

  /** TABLE_MAX_PAGES is the one page number that passes the written check without being an index of the page array. */
  lemma BoundCheckAsWrittenAdmitsEnd(pages: Slots, pageNum: nat)
    ensures PassesBoundCheckAsWritten(pageNum) && !(pageNum < |pages|) <==> pageNum == TABLE_MAX_PAGES
  {
  }

  /**
   * The buffer `get_page` puts into an empty slot: a zeroed page, overwritten
   * by one read at `pageNum * PAGE_SIZE` when the page number is at most the
   * page count of the file length seen at open.
   */
  function LoadPage(file: seq<u8>, fileLength: nat, pageNum: nat): Page {
    if pageNum <= NumPages(fileLength) then ReadPage(file, pageNum * PAGE_SIZE) else Zeros(PAGE_SIZE)
  }

  /**
   * While the file has the length seen at open, a loaded page is the file's
   * bytes at the page's offset followed by zeros: skipping the read for pages
   * past the end changes nothing, and the bound `<=` (rather than `<`) only
   * adds a read at the end of the file, which finds no bytes.
   */
  lemma LoadPageReads(file: seq<u8>, pageNum: nat)
    ensures LoadPage(file, |file|, pageNum) == ReadPage(file, pageNum * PAGE_SIZE)
  {
    if pageNum > NumPages(|file|) {
      assert |file| <= NumPages(|file|) * PAGE_SIZE <= pageNum * PAGE_SIZE;
      assert ReadPage(file, pageNum * PAGE_SIZE) == Zeros(PAGE_SIZE);
    }
  }

  /** A slot's page, or the page `get_page` would load into it. */
  function PageOrLoad(slot: Option<Page>, file: seq<u8>, fileLength: nat, pageNum: nat): Page {
    if slot.Some? then slot.value else LoadPage(file, fileLength, pageNum)
  }

  /** The ROW_SIZE bytes row `r` reads through `row_slot`. */
  function RowView(pages: Slots, file: seq<u8>, fileLength: nat, r: nat): (b: seq<u8>)
    requires r < TABLE_MAX_ROWS
    ensures |b| == ROW_SIZE
  {
    PagesCoverMaxRows(r);
    PageOrLoad(pages[PageNumber(r)], file, fileLength, PageNumber(r))[ByteOffset(r)..ByteOffset(r) + ROW_SIZE]
  }

  /** Byte `i` of a row's view is the byte at the row's offset plus `i` in its page. */
  lemma RowViewByte(pages: Slots, file: seq<u8>, fileLength: nat, r: nat, i: nat)
    requires r < TABLE_MAX_ROWS && i < ROW_SIZE
    ensures PageNumber(r) < TABLE_MAX_PAGES
    ensures RowView(pages, file, fileLength, r)[i] == PageOrLoad(pages[PageNumber(r)], file, fileLength, PageNumber(r))[ByteOffset(r) + i]
  {
    PagesCoverMaxRows(r);
  }

  /** `struct Pager`: the backing file, its length when opened, and the page slots. */
  class Pager {
    var file: seq<u8>
    const fileLength: nat
    const pages: array<Option<Page>>

    ghost predicate Valid()
      reads this
    {
      pages.Length == TABLE_MAX_PAGES
    }

    /** `Pager::new` on a file holding `contents`: its length is recorded and every page slot is empty. */
    constructor Open(contents: seq<u8>)
      ensures Valid() && fresh(pages)
      ensures file == contents && fileLength == |contents|
      ensures forall i :: 0 <= i < pages.Length ==> pages[i].None?
    {
      file := contents;
      fileLength := |contents|;
      pages := new Option<Page>[TABLE_MAX_PAGES](_ => None);
    }

    /**
     * `get_page`, with the bound check corrected to `>=`: a page number outside
     * the page array is refused and nothing changes. An empty slot is filled
     * with LoadPage; a filled slot is left as it is, so a second call reads
     * nothing again and earlier writes into the buffer stay. The caller reaches
     * the page through `pages[pageNum]`.
     */
    method GetPage(pageNum: nat) returns (r: Outcome<PageError>)
      requires Valid()
      modifies pages
      ensures r.Fail? <==> pageNum >= TABLE_MAX_PAGES
      ensures r.Fail? ==> r.error == FetchOutOfBounds(pageNum) && pages[..] == old(pages[..])
      ensures r.Pass? ==> pages[pageNum] == if old(pages[pageNum]).None? then Some(LoadPage(file, fileLength, pageNum))
                                            else old(pages[pageNum])
      ensures forall i :: 0 <= i < pages.Length && i != pageNum ==> pages[i] == old(pages[i])
    {
      if pageNum >= TABLE_MAX_PAGES {
        return Fail(FetchOutOfBounds(pageNum));
      }
      if pages[pageNum].None? {
        var page := Zeros(PAGE_SIZE);
        var numPages := fileLength / PAGE_SIZE;
        if fileLength % PAGE_SIZE != 0 {
          numPages := numPages + 1;
        }
        if pageNum <= numPages {
          page := ReadPage(file, pageNum * PAGE_SIZE);
        }
        pages[pageNum] := Some(page);
      }
      return Pass;
    }

    /**
     * `flush`: when the slot holds a page, its first `size` bytes are written
     * at `pageNum * PAGE_SIZE`; an empty slot writes nothing. The page slots
     * do not change.
     */
    method Flush(pageNum: nat, size: nat)
      requires Valid() && pageNum < TABLE_MAX_PAGES && size <= PAGE_SIZE
      modifies this`file
      ensures file == if pages[pageNum].Some? then WriteAt(old(file), pageNum * PAGE_SIZE, pages[pageNum].value[..size])
                      else old(file)
    {
      if pages[pageNum].Some? {
        file := WriteAt(file, pageNum * PAGE_SIZE, pages[pageNum].value[..size]);
      }
    }
  }

  /** `struct Table` of src/pager.rs: a row count over a pager. */
  class Table {
    var numRows: nat
    const pager: Pager

    ghost predicate Valid()
      reads this, pager
    {
      pager.Valid()
    }

    /**
     * `Table::new` on a file holding `contents`, with the row count taken per
     * page (RowsInFile) so that it matches what teardown writes; the count as
     * written, `file_length / ROW_SIZE`, is RowCountAsWritten.
     */
    constructor Open(contents: seq<u8>)
      ensures Valid() && fresh(pager) && fresh(pager.pages)
      ensures pager.file == contents && pager.fileLength == |contents|
      ensures numRows == RowsInFile(|contents|)
      ensures forall i :: 0 <= i < pager.pages.Length ==> pager.pages[i].None?
    {
      pager := new Pager.Open(contents);
      numRows := RowsInFile(|contents|);
    }

    /**
     * `Table::row_slot`: loads the row's page if needed and gives the page
     * number and the in-page offset of the row's ROW_SIZE bytes, which hold
     * the bytes the row read before. The `unwrap` of the source panics for a
     * page number outside the page array; the requires excludes that.
     */
    method RowSlot(rowNum: nat) returns (pageNum: nat, byteOffset: nat)
      requires Valid() && rowNum < TABLE_MAX_ROWS
      modifies pager.pages
      ensures pageNum == PageNumber(rowNum) && byteOffset == ByteOffset(rowNum)
      ensures pageNum < TABLE_MAX_PAGES && byteOffset + ROW_SIZE <= PAGE_SIZE
      ensures pager.pages[pageNum] == if old(pager.pages[pageNum]).None? then Some(LoadPage(pager.file, pager.fileLength, pageNum))
                                      else old(pager.pages[pageNum])
      ensures forall i :: 0 <= i < pager.pages.Length && i != pageNum ==> pager.pages[i] == old(pager.pages[i])
      ensures pager.pages[pageNum].value[byteOffset..byteOffset + ROW_SIZE]
              == RowView(old(pager.pages[..]), pager.file, pager.fileLength, rowNum)
    {
      PagesCoverMaxRows(rowNum);
      pageNum := rowNum / ROWS_PER_PAGE;
      var r := pager.GetPage(pageNum);
      assert r.Pass?;
      byteOffset := (rowNum % ROWS_PER_PAGE) * ROW_SIZE;
    }

    /**
     * `impl Drop for Table`: flushes each loaded page below the first partly
     * used one with PAGE_SIZE bytes, then that page, if loaded, with its rows'
     * bytes, and empties every slot. The file ends up as Teardown describes,
     * which TeardownFlushes shows to be the effect of the flushes FlushPlan
     * lists. With more than TABLE_MAX_ROWS rows the source indexes past the
     * page array and panics; the requires excludes that.
     */
    method Close()
      requires Valid() && numRows <= TABLE_MAX_ROWS
      modifies pager`file, pager.pages
      ensures pager.file == Teardown(old(pager.file), old(pager.pages[..]), numRows)
      ensures forall i :: 0 <= i < pager.pages.Length ==> pager.pages[i].None?
    {
      DerivedConstants();
      ghost var file0 := pager.file;
      ghost var pages0: Slots := pager.pages[..];
      var numFullPages := numRows / ROWS_PER_PAGE;
      for i := 0 to numFullPages
        invariant pager.file == FullPass(file0, pages0, i)
        invariant forall j :: 0 <= j < i ==> pager.pages[j].None?
        invariant forall j :: i <= j < TABLE_MAX_PAGES ==> pager.pages[j] == pages0[j]
      {
        if pager.pages[i].None? {
          continue;
        }
        pager.Flush(i, PAGE_SIZE);
        pager.pages[i] := None;
      }
      var numAdditionalRows := numRows % ROWS_PER_PAGE;
      if numAdditionalRows > 0 {
        var pageNum := numFullPages;
        if pager.pages[pageNum].Some? {
          pager.Flush(pageNum, numAdditionalRows * ROW_SIZE);
          pager.pages[pageNum] := None;
        }
      }
      for i := 0 to pager.pages.Length
        modifies pager.pages
        invariant forall j :: 0 <= j < i ==> pager.pages[j].None?
      {
        pager.pages[i] := None;
      }
    }
  }

  /** The page slots of a freshly opened table. */
  function EmptySlots(): (s: Slots)
    ensures forall i :: 0 <= i < |s| ==> s[i].None?
  {
    seq(TABLE_MAX_PAGES, _ => None)
  }

  /**
   * Teardown followed by a reopen reads back every row the table held: each
   * row of a loaded page from the bytes teardown wrote, each row of a page
   * never loaded from the file as it was.
   */
  lemma ReopenReadsSameRows(file: seq<u8>, pages: Slots, numRows: nat, r: nat)
    requires numRows <= TABLE_MAX_ROWS && r < numRows
    ensures RowView(EmptySlots(), Persist(file, pages, numRows), |Persist(file, pages, numRows)|, r)
            == RowView(pages, file, |file|, r)
  {
    forall i | 0 <= i < ROW_SIZE
      ensures RowView(EmptySlots(), Persist(file, pages, numRows), |Persist(file, pages, numRows)|, r)[i]
              == RowView(pages, file, |file|, r)[i]
    {
      ReopenReadsSameByte(file, pages, numRows, r, i);
      RowViewByte(EmptySlots(), Persist(file, pages, numRows), |Persist(file, pages, numRows)|, r, i);
      RowViewByte(pages, file, |file|, r, i);
    }
  }

  /** Byte `i` of row `r` in the reopened table, as in ReopenReadsSameRows. */
  lemma ReopenReadsSameByte(file: seq<u8>, pages: Slots, numRows: nat, r: nat, i: nat)
    requires numRows <= TABLE_MAX_ROWS && r < numRows && i < ROW_SIZE
    ensures PageNumber(r) < TABLE_MAX_PAGES
    ensures LoadPage(Persist(file, pages, numRows), |Persist(file, pages, numRows)|, PageNumber(r))[ByteOffset(r) + i]
            == PageOrLoad(pages[PageNumber(r)], file, |file|, PageNumber(r))[ByteOffset(r) + i]
  {
    PagesCoverMaxRows(r);
    if pages[PageNumber(r)].Some? {
      PersistRow(file, pages, numRows, r, i);
    } else {
      RowSlotInPage(r);
      assert (FileOffset(r) + i) / PAGE_SIZE == PageNumber(r);
      PersistUnloaded(file, pages, numRows, FileOffset(r) + i);
    }
    ReloadedByte(file, pages, Persist(file, pages, numRows), r, i);
  }

  /**
   * Byte `i` of row `r` reads the same from a file `persisted` that holds the
   * byte of a loaded page at the row's offset, or else keeps the old file's
   * byte, as from the old file with the old page slots.
   */
  lemma ReloadedByte(file: seq<u8>, pages: Slots, persisted: seq<u8>, r: nat, i: nat)
    requires r < TABLE_MAX_ROWS && i < ROW_SIZE && |file| <= |persisted|
    requires PageNumber(r) < TABLE_MAX_PAGES
    requires pages[PageNumber(r)].Some? ==>
      FileOffset(r) + i < |persisted| && persisted[FileOffset(r) + i] == pages[PageNumber(r)].value[ByteOffset(r) + i]
    requires pages[PageNumber(r)].None? && FileOffset(r) + i < |persisted| ==>
      persisted[FileOffset(r) + i] == if FileOffset(r) + i < |file| then file[FileOffset(r) + i] else 0
    ensures LoadPage(persisted, |persisted|, PageNumber(r))[ByteOffset(r) + i]
            == PageOrLoad(pages[PageNumber(r)], file, |file|, PageNumber(r))[ByteOffset(r) + i]
  {
    LoadPageViaFile(persisted, r, i);
    LoadPageViaFile(file, r, i);
  }

  /** Byte `i` of row `r` in a page loaded from an unchanged file is the file's byte at the row's offset, or zero past its end. */
  lemma LoadPageViaFile(file: seq<u8>, r: nat, i: nat)
    requires i < ROW_SIZE
    ensures (FileOffset(r) + i) / PAGE_SIZE == PageNumber(r)
    ensures LoadPage(file, |file|, PageNumber(r))[ByteOffset(r) + i]
            == if FileOffset(r) + i < |file| then file[FileOffset(r) + i] else 0
  {
    RowSlotInPage(r);
    LoadPageReads(file, PageNumber(r));
    assert PageNumber(r) * PAGE_SIZE + (ByteOffset(r) + i) == FileOffset(r) + i;
  }

  /**
   * When the file was no longer than the rows and the last row's page is
   * loaded, the reopened table counts exactly the rows it held; the count as
   * written is right only below 196 rows.
   */
  lemma ReopenCountsRows(file: seq<u8>, pages: Slots, numRows: nat)
    requires 0 < numRows <= TABLE_MAX_ROWS && pages[PageNumber(numRows - 1)].Some?
    requires |file| <= FileOffset(numRows)
    ensures RowsInFile(|Persist(file, pages, numRows)|) == numRows
    ensures RowCountAsWritten(|Persist(file, pages, numRows)|) == numRows <==> numRows < 196
  {
    PersistLength(file, pages, numRows);
    RowsInFileOfPersisted(numRows);
    RowCountAsWrittenExact(numRows);
  }
}
