/**
 * What the pager-backed table's teardown (`impl Drop for Table` in
 * src/pager.rs) writes to the file: the list of `flush(page, size)` calls it
 * makes, the file those calls leave behind, and how many rows a reopen of
 * that file counts.
 */
module Persistence {
  import opened Constants
  import opened Layout
  import opened FileImage

  /** One `flush(pageNum, size)`: write the first `size` bytes of page `pageNum` at `pageNum * PAGE_SIZE`. */
  datatype FlushWrite = FlushWrite(pageNum: nat, size: nat)

  /** The flush writes: its page is loaded and `size` is at most the page length (`flush` writes nothing for an empty slot). */
  predicate Writes(pages: Slots, w: FlushWrite) {
    w.pageNum < TABLE_MAX_PAGES && pages[w.pageNum].Some? && w.size <= PAGE_SIZE
  }

  /** Every flush targets a loaded page slot and writes a non-empty prefix of it. */
  predicate Fits(pages: Slots, plan: seq<FlushWrite>) {
    forall j :: 0 <= j < |plan| ==> Writes(pages, plan[j]) && 0 < plan[j].size
  }

  /** Pages are flushed in increasing order, so no page is flushed twice. */
  predicate Increasing(plan: seq<FlushWrite>) {
    forall i, j :: 0 <= i < j < |plan| ==> plan[i].pageNum < plan[j].pageNum
  }

  /** The first pass: every loaded page below `k`, in order, with all PAGE_SIZE bytes. */
  function FullPlan(pages: Slots, k: nat): seq<FlushWrite>
    requires k <= TABLE_MAX_PAGES
  {
    if k == 0 then []
    else FullPlan(pages, k - 1) + if pages[k - 1].Some? then [FlushWrite(k - 1, PAGE_SIZE)] else []
  }

  /** The first pass flushes pages below `k` only, in increasing order, each with all PAGE_SIZE bytes. */
  lemma {:induction false} FullPlanShape(pages: Slots, k: nat)
    requires k <= TABLE_MAX_PAGES
    ensures Fits(pages, FullPlan(pages, k)) && Increasing(FullPlan(pages, k))
    ensures forall j :: 0 <= j < |FullPlan(pages, k)| ==> FullPlan(pages, k)[j].pageNum < k && FullPlan(pages, k)[j].size == PAGE_SIZE
  {
    if k > 0 {
      FullPlanShape(pages, k - 1);
    }
  }

  /** The second pass: the page holding the last rows, when it is partly used and loaded, with exactly its rows' bytes. */
  function PartialPlan(pages: Slots, numRows: nat): seq<FlushWrite>
    requires numRows <= TABLE_MAX_ROWS
  {
    if numRows % ROWS_PER_PAGE > 0 && pages[numRows / ROWS_PER_PAGE].Some? then
      [FlushWrite(numRows / ROWS_PER_PAGE, (numRows % ROWS_PER_PAGE) * ROW_SIZE)]
    else []
  }

  /** The flushes the teardown of a table with `numRows` rows makes, in order. */
  function FlushPlan(pages: Slots, numRows: nat): seq<FlushWrite>
    requires numRows <= TABLE_MAX_ROWS
  {
    LastPageInRange(numRows);
    FullPlan(pages, numRows / ROWS_PER_PAGE) + PartialPlan(pages, numRows)
  }

  /** The teardown flushes only loaded pages, each once, in increasing order, each with a non-empty prefix. */
  lemma FlushPlanShape(pages: Slots, numRows: nat)
    requires numRows <= TABLE_MAX_ROWS
    ensures Fits(pages, FlushPlan(pages, numRows)) && Increasing(FlushPlan(pages, numRows))
  {
    LastPageInRange(numRows);
    FullPlanShape(pages, numRows / ROWS_PER_PAGE);
    assert ByteOffset(numRows) == (numRows % ROWS_PER_PAGE) * ROW_SIZE;
    assert numRows % ROWS_PER_PAGE > 0 ==> ByteOffset(numRows) > 0;
  }

  lemma {:induction false} FullPlanEntries(pages: Slots, k: nat, e: FlushWrite)
    requires k <= TABLE_MAX_PAGES
    ensures e in FullPlan(pages, k) <==> e.pageNum < k && pages[e.pageNum].Some? && e.size == PAGE_SIZE
  {
    if k > 0 {
      FullPlanEntries(pages, k - 1, e);
    }
  }

  /**
   * The teardown flushes page `p` with `size` bytes exactly when `p` is loaded
   * and either holds only full-page rows (all PAGE_SIZE bytes) or is the partly
   * used last page (its rows' bytes). Unloaded pages are never written.
   */
  lemma FlushPlanEntries(pages: Slots, numRows: nat, e: FlushWrite)
    requires numRows <= TABLE_MAX_ROWS
    ensures e in FlushPlan(pages, numRows) <==>
      && e.pageNum < TABLE_MAX_PAGES && pages[e.pageNum].Some?
      && (|| (e.pageNum < numRows / ROWS_PER_PAGE && e.size == PAGE_SIZE)
          || (numRows % ROWS_PER_PAGE > 0 && e.pageNum == numRows / ROWS_PER_PAGE
              && e.size == (numRows % ROWS_PER_PAGE) * ROW_SIZE))
  {
    FullPlanEntries(pages, numRows / ROWS_PER_PAGE, e);
  }

  function Last(plan: seq<FlushWrite>): FlushWrite
    requires |plan| > 0
  {
    plan[|plan| - 1]
  }

  /** The byte just past the range a flush writes. */
  function End(e: FlushWrite): nat {
    e.pageNum * PAGE_SIZE + e.size
  }

  /** The file after performing the flushes of `plan` in order; a flush of an empty slot writes nothing. */
  function ApplyFlushes(file: seq<u8>, pages: Slots, plan: seq<FlushWrite>): (r: seq<u8>)
    ensures |file| <= |r|
    decreases |plan|
  {
    if |plan| == 0 then file
    else if Writes(pages, Last(plan)) then
      WriteAt(ApplyFlushes(file, pages, plan[..|plan| - 1]), Last(plan).pageNum * PAGE_SIZE,
              pages[Last(plan).pageNum].value[..Last(plan).size])
    else ApplyFlushes(file, pages, plan[..|plan| - 1])
  }

  /** Byte `k` after the last flush of a plan: the flushed byte inside its range, otherwise the byte the earlier flushes left. */
  lemma ApplyFlushesLastByte(file: seq<u8>, pages: Slots, plan: seq<FlushWrite>, k: nat)
    requires |plan| > 0 && Writes(pages, Last(plan)) && 0 < Last(plan).size
    requires k < End(Last(plan)) || k < |ApplyFlushes(file, pages, plan[..|plan| - 1])|
    ensures k < |ApplyFlushes(file, pages, plan)|
    ensures ApplyFlushes(file, pages, plan)[k]
            == if Last(plan).pageNum * PAGE_SIZE <= k < End(Last(plan)) then pages[Last(plan).pageNum].value[k - Last(plan).pageNum * PAGE_SIZE]
               else if k < |ApplyFlushes(file, pages, plan[..|plan| - 1])| then ApplyFlushes(file, pages, plan[..|plan| - 1])[k]
               else 0
  {
    var w := Last(plan);
    WriteAtByte(ApplyFlushes(file, pages, plan[..|plan| - 1]), w.pageNum * PAGE_SIZE, pages[w.pageNum].value[..w.size], k);
  }

  /** A byte inside the range of one of the flushes holds the flushed page's byte. */
  lemma {:induction false} ApplyFlushesCovered(file: seq<u8>, pages: Slots, plan: seq<FlushWrite>, j: nat, k: nat)
    requires Fits(pages, plan) && Increasing(plan) && j < |plan|
    requires plan[j].pageNum * PAGE_SIZE <= k < End(plan[j])
    ensures k < |ApplyFlushes(file, pages, plan)|
    ensures ApplyFlushes(file, pages, plan)[k] == pages[plan[j].pageNum].value[k - plan[j].pageNum * PAGE_SIZE]
  {
    var prefix := plan[..|plan| - 1];
    assert Writes(pages, Last(plan)) && 0 < Last(plan).size;
    if j < |plan| - 1 {
      assert prefix[j] == plan[j];
      assert Fits(pages, prefix) && Increasing(prefix);
      ApplyFlushesCovered(file, pages, prefix, j, k);
      assert End(plan[j]) <= Last(plan).pageNum * PAGE_SIZE;
    }
    ApplyFlushesLastByte(file, pages, plan, k);
  }

  /** A byte outside every flushed range keeps the file's byte, or reads zero in a gap the flushes opened. */
  lemma {:induction false} ApplyFlushesUncovered(file: seq<u8>, pages: Slots, plan: seq<FlushWrite>, k: nat)
    requires forall j :: 0 <= j < |plan| ==> !(plan[j].pageNum * PAGE_SIZE <= k < End(plan[j]))
    ensures k < |ApplyFlushes(file, pages, plan)| ==>
      ApplyFlushes(file, pages, plan)[k] == if k < |file| then file[k] else 0
  {
    if |plan| > 0 {
      var prefix := plan[..|plan| - 1];
      assert forall j :: 0 <= j < |prefix| ==> prefix[j] == plan[j];
      ApplyFlushesUncovered(file, pages, prefix, k);
      assert !(Last(plan).pageNum * PAGE_SIZE <= k < End(Last(plan)));
      if k < |ApplyFlushes(file, pages, plan)| && Writes(pages, Last(plan)) {
        WriteAtByte(ApplyFlushes(file, pages, prefix), Last(plan).pageNum * PAGE_SIZE,
                    pages[Last(plan).pageNum].value[..Last(plan).size], k);
      }
    }
  }

  /** Flushing in increasing page order leaves the file ending at the last flush, unless it was already longer. */
  lemma {:induction false} ApplyFlushesLength(file: seq<u8>, pages: Slots, plan: seq<FlushWrite>)
    requires Fits(pages, plan) && Increasing(plan) && |plan| > 0
    ensures |ApplyFlushes(file, pages, plan)| == if End(Last(plan)) > |file| then End(Last(plan)) else |file|
  {
    if |plan| > 1 {
      var prefix := plan[..|plan| - 1];
      ApplyFlushesLength(file, pages, prefix);
      assert Writes(pages, Last(plan));
      assert Last(prefix).pageNum < Last(plan).pageNum;
      assert End(Last(prefix)) <= End(Last(plan));
    }
  }

  /** The file the teardown of a table leaves behind. */
  function Persist(file: seq<u8>, pages: Slots, numRows: nat): seq<u8>
    requires numRows <= TABLE_MAX_ROWS
  {
    ApplyFlushes(file, pages, FlushPlan(pages, numRows))
  }

  /** One more flush at the end of a plan is one more positioned write on the file the plan left. */
  lemma ApplyFlushesAppend(file: seq<u8>, pages: Slots, plan: seq<FlushWrite>, w: FlushWrite)
    ensures ApplyFlushes(file, pages, plan + [w])
            == if Writes(pages, w) then WriteAt(ApplyFlushes(file, pages, plan), w.pageNum * PAGE_SIZE, pages[w.pageNum].value[..w.size])
               else ApplyFlushes(file, pages, plan)
  {
    assert Last(plan + [w]) == w;
    assert (plan + [w])[..|plan|] == plan;
  }

  /** Step `k` of the first teardown pass flushes page `k` in full when it is loaded and writes nothing otherwise. */
  lemma FullPlanStep(file: seq<u8>, pages: Slots, k: nat)
    requires k < TABLE_MAX_PAGES
    ensures ApplyFlushes(file, pages, FullPlan(pages, k + 1))
            == if pages[k].Some? then WriteAt(ApplyFlushes(file, pages, FullPlan(pages, k)), k * PAGE_SIZE, pages[k].value[..PAGE_SIZE])
               else ApplyFlushes(file, pages, FullPlan(pages, k))
  {
    if pages[k].Some? {
      ApplyFlushesAppend(file, pages, FullPlan(pages, k), FlushWrite(k, PAGE_SIZE));
    } else {
      assert FullPlan(pages, k + 1) == FullPlan(pages, k);
    }
  }

  /** The file the first teardown pass leaves: each loaded page below `k`, in order, written in full. */
  function FullPass(file: seq<u8>, pages: Slots, k: nat): seq<u8>
    requires k <= TABLE_MAX_PAGES
  {
    if k == 0 then file
    else if pages[k - 1].Some? then WriteAt(FullPass(file, pages, k - 1), (k - 1) * PAGE_SIZE, pages[k - 1].value[..PAGE_SIZE])
    else FullPass(file, pages, k - 1)
  }

  /** The first pass performs exactly the flushes of FullPlan. */
  lemma {:induction false} FullPassFlushes(file: seq<u8>, pages: Slots, k: nat)
    requires k <= TABLE_MAX_PAGES
    ensures FullPass(file, pages, k) == ApplyFlushes(file, pages, FullPlan(pages, k))
  {
    if k > 0 {
      FullPassFlushes(file, pages, k - 1);
      FullPlanStep(file, pages, k - 1);
    }
  }

  /**
   * The file the teardown leaves, pass by pass: the first pass, then the
   * partly used last page, when it is loaded, written with its rows' bytes.
   */
  function Teardown(file: seq<u8>, pages: Slots, numRows: nat): seq<u8>
    requires numRows <= TABLE_MAX_ROWS
  {
    LastPageInRange(numRows);
    if numRows % ROWS_PER_PAGE > 0 && pages[numRows / ROWS_PER_PAGE].Some? then
      WriteAt(FullPass(file, pages, numRows / ROWS_PER_PAGE), (numRows / ROWS_PER_PAGE) * PAGE_SIZE,
              pages[numRows / ROWS_PER_PAGE].value[..(numRows % ROWS_PER_PAGE) * ROW_SIZE])
    else FullPass(file, pages, numRows / ROWS_PER_PAGE)
  }

  /** The two passes together make exactly the flushes of FlushPlan, in order. */
  lemma TeardownFlushes(file: seq<u8>, pages: Slots, numRows: nat)
    requires numRows <= TABLE_MAX_ROWS
    ensures Teardown(file, pages, numRows) == Persist(file, pages, numRows)
  {
    LastPageInRange(numRows);
    FullPassFlushes(file, pages, numRows / ROWS_PER_PAGE);
    if numRows % ROWS_PER_PAGE > 0 && pages[numRows / ROWS_PER_PAGE].Some? {
      ApplyFlushesAppend(file, pages, FullPlan(pages, numRows / ROWS_PER_PAGE),
                         FlushWrite(numRows / ROWS_PER_PAGE, (numRows % ROWS_PER_PAGE) * ROW_SIZE));
    } else {
      assert FlushPlan(pages, numRows) == FullPlan(pages, numRows / ROWS_PER_PAGE);
    }
  }

  /** The flush that covers row `r`: its page, with at least the bytes up to the end of the row. */
  lemma FlushPlanCoversRow(pages: Slots, numRows: nat, r: nat) returns (j: nat)
    requires numRows <= TABLE_MAX_ROWS && r < numRows && pages[PageNumber(r)].Some?
    ensures j < |FlushPlan(pages, numRows)| && FlushPlan(pages, numRows)[j].pageNum == PageNumber(r)
    ensures ByteOffset(r) + ROW_SIZE <= FlushPlan(pages, numRows)[j].size
  {
    if PageNumber(r) < numRows / ROWS_PER_PAGE {
      FlushPlanEntries(pages, numRows, FlushWrite(PageNumber(r), PAGE_SIZE));
      j :| 0 <= j < |FlushPlan(pages, numRows)| && FlushPlan(pages, numRows)[j] == FlushWrite(PageNumber(r), PAGE_SIZE);
    } else {
      RowBeforeInPage(r, numRows);
      FlushPlanEntries(pages, numRows, FlushWrite(PageNumber(r), ByteOffset(numRows)));
      j :| 0 <= j < |FlushPlan(pages, numRows)| && FlushPlan(pages, numRows)[j] == FlushWrite(PageNumber(r), ByteOffset(numRows));
    }
  }

  /** After teardown, the file holds every row of a loaded page at the row's file offset. */
  lemma PersistRow(file: seq<u8>, pages: Slots, numRows: nat, r: nat, i: nat)
    requires numRows <= TABLE_MAX_ROWS && r < numRows && i < ROW_SIZE
    requires pages[PageNumber(r)].Some?
    ensures FileOffset(r) + i < |Persist(file, pages, numRows)|
    ensures Persist(file, pages, numRows)[FileOffset(r) + i] == pages[PageNumber(r)].value[ByteOffset(r) + i]
  {
    FlushPlanShape(pages, numRows);
    var j := FlushPlanCoversRow(pages, numRows, r);
    ApplyFlushesCovered(file, pages, FlushPlan(pages, numRows), j, FileOffset(r) + i);
  }

  /** After teardown, the bytes of a page that was never loaded are the file's own bytes (zero in a gap). */
  lemma PersistUnloaded(file: seq<u8>, pages: Slots, numRows: nat, k: nat)
    requires numRows <= TABLE_MAX_ROWS
    requires k / PAGE_SIZE < TABLE_MAX_PAGES ==> pages[k / PAGE_SIZE].None?
    ensures k < |Persist(file, pages, numRows)| ==>
      Persist(file, pages, numRows)[k] == if k < |file| then file[k] else 0
  {
    forall j | 0 <= j < |FlushPlan(pages, numRows)|
      ensures !(FlushPlan(pages, numRows)[j].pageNum * PAGE_SIZE <= k < End(FlushPlan(pages, numRows)[j]))
    {
      FlushPlanShape(pages, numRows);
      assert pages[FlushPlan(pages, numRows)[j].pageNum].Some?;
    }
    ApplyFlushesUncovered(file, pages, FlushPlan(pages, numRows), k);
  }

  /** With the page of the last row loaded, the last flush of the teardown ends right after that row. */
  lemma FlushPlanLast(pages: Slots, numRows: nat)
    requires 0 < numRows <= TABLE_MAX_ROWS && pages[PageNumber(numRows - 1)].Some?
    ensures |FlushPlan(pages, numRows)| > 0 && End(Last(FlushPlan(pages, numRows))) == FileOffset(numRows)
  {
    LastRowPage(numRows);
    if numRows % ROWS_PER_PAGE == 0 {
      assert FlushPlan(pages, numRows) == FullPlan(pages, PageNumber(numRows));
      assert Last(FullPlan(pages, PageNumber(numRows))) == FlushWrite(PageNumber(numRows - 1), PAGE_SIZE);
    } else {
      assert Last(FlushPlan(pages, numRows)) == FlushWrite(PageNumber(numRows), ByteOffset(numRows));
    }
  }

  /**
   * When the page of the last row is loaded and the file was no longer than
   * the rows, teardown leaves a file that ends exactly after the last row:
   * FileOffset(numRows) bytes, the slack at the end of each full page included.
   */
  lemma PersistLength(file: seq<u8>, pages: Slots, numRows: nat)
    requires 0 < numRows <= TABLE_MAX_ROWS && pages[PageNumber(numRows - 1)].Some?
    requires |file| <= FileOffset(numRows)
    ensures |Persist(file, pages, numRows)| == FileOffset(numRows)
  {
    FlushPlanShape(pages, numRows);
    FlushPlanLast(pages, numRows);
    ApplyFlushesLength(file, pages, FlushPlan(pages, numRows));
  }

  /** The row count `Table::new` derives from a file length: as many whole ROW_SIZE records as fit in the bytes. */
  function RowCountAsWritten(len: nat): nat {
    len / ROW_SIZE
  }

  /** The row count of a file of `len` bytes under the page layout: 14 rows per whole page, plus the whole rows of a trailing partial page. */
  function RowsInFile(len: nat): nat {
    (len / PAGE_SIZE) * ROWS_PER_PAGE + (len % PAGE_SIZE) / ROW_SIZE
  }

  /** RowsInFile counts exactly the rows whose slot lies wholly within the file: row `rows - 1` is stored completely and row `rows` is not. */
  lemma RowsInFileCounts(len: nat)
    ensures RowsInFile(len) > 0 ==> FileOffset(RowsInFile(len) - 1) + ROW_SIZE <= len
    ensures len < FileOffset(RowsInFile(len)) + ROW_SIZE
  {
    DerivedConstants();
    var q, m := len / PAGE_SIZE, len % PAGE_SIZE;
    var a := m / ROW_SIZE;
    assert len == q * PAGE_SIZE + m && m < PAGE_SIZE;
    assert a * ROW_SIZE <= m < (a + 1) * ROW_SIZE && a <= ROWS_PER_PAGE;
    if a < ROWS_PER_PAGE {
      PageAndSlot(q, a);
      if a > 0 {
        PageAndSlot(q, a - 1);
      } else if q > 0 {
        PageAndSlot(q - 1, ROWS_PER_PAGE - 1);
      }
    } else {
      PageAndSlot(q + 1, 0);
      PageAndSlot(q, ROWS_PER_PAGE - 1);
    }
  }

  /** A file teardown left after `n` rows is counted back as exactly `n` rows. */
  lemma RowsInFileOfPersisted(n: nat)
    ensures RowsInFile(FileOffset(n)) == n
  {
    var rows := RowsInFile(FileOffset(n));
    RowsInFileCounts(FileOffset(n));
    if rows < n {
      RowSlotsDisjoint(rows, n);
    } else if rows > n {
      if n < rows - 1 {
        RowSlotsDisjoint(n, rows - 1);
      }
    }
  }

  /**
   * The count `Table::new` computes for such a file overshoots by the slack the
   * full pages leave: PAGE_SIZE - ROWS_PER_PAGE * ROW_SIZE = 22 bytes each.
   */
  lemma RowCountAsWrittenDrift(n: nat)
    ensures RowCountAsWritten(FileOffset(n))
            == n + (PageNumber(n) * (PAGE_SIZE - ROWS_PER_PAGE * ROW_SIZE)) / ROW_SIZE
  {
    assert FileOffset(n) == ROW_SIZE * n + (PAGE_SIZE - ROWS_PER_PAGE * ROW_SIZE) * PageNumber(n);
  }

  /** The overshoot starts once 14 full pages (196 rows) have been written: below that the count is right. */
  lemma RowCountAsWrittenExact(n: nat)
    ensures RowCountAsWritten(FileOffset(n)) == n <==> n < 196
  {
    RowCountAsWrittenDrift(n);
    var q := PageNumber(n);
    assert PAGE_SIZE - ROWS_PER_PAGE * ROW_SIZE == 22;
    assert (q * 22) / ROW_SIZE == 0 <==> q < 14;
    assert q < 14 <==> n < 196;
  }

  /**
   * Reopening the file of a full table: `Table::new` counts 1407 rows, more
   * than TABLE_MAX_ROWS, and the last of them would live in page slot
   * TABLE_MAX_PAGES, one past the end of the page array.
   */
  lemma FullTableReopenAsWritten()
    ensures FileOffset(TABLE_MAX_ROWS) == TABLE_MAX_PAGES * PAGE_SIZE
    ensures RowCountAsWritten(FileOffset(TABLE_MAX_ROWS)) == 1407 > TABLE_MAX_ROWS
    ensures PageNumber(1407) == TABLE_MAX_PAGES && 1407 % ROWS_PER_PAGE > 0
  {
    DerivedConstants();
    assert PageNumber(TABLE_MAX_ROWS) == TABLE_MAX_PAGES && ByteOffset(TABLE_MAX_ROWS) == 0;
    assert TABLE_MAX_PAGES * PAGE_SIZE == 1407 * ROW_SIZE + 163;
    assert 1407 == TABLE_MAX_PAGES * ROWS_PER_PAGE + 7;
  }
}
