/**
 * Row addressing shared by both tables (`row_slot` in src/main.rs and
 * src/pager.rs): row `r` occupies ROW_SIZE bytes at byte offset
 * `(r % ROWS_PER_PAGE) * ROW_SIZE` of page `r / ROWS_PER_PAGE`.
 */
module Layout {
  import opened Constants
  import opened Wrappers

  /** A page buffer, `[u8; PAGE_SIZE]`. */
  type Page = s: seq<u8> | |s| == PAGE_SIZE witness Zeros(PAGE_SIZE)

  /** The page slots of a table, `Box<[Option<[u8; PAGE_SIZE]>; TABLE_MAX_PAGES]>`. */
  type Slots = s: seq<Option<Page>> | |s| == TABLE_MAX_PAGES witness seq(TABLE_MAX_PAGES, _ => None)

  function PageNumber(rowNum: nat): nat {
    rowNum / ROWS_PER_PAGE
  }

  function ByteOffset(rowNum: nat): (offset: nat)
    ensures offset + ROW_SIZE <= PAGE_SIZE
  {
    (rowNum % ROWS_PER_PAGE) * ROW_SIZE
  }

  /** The absolute file offset at which a row is persisted. */
  function FileOffset(rowNum: nat): nat {
    PageNumber(rowNum) * PAGE_SIZE + ByteOffset(rowNum)
  }

  /** A row never straddles a page, and the 14 rows of a page are packed from its start. */
  lemma {:induction false} RowSlotInPage(rowNum: nat)
    ensures PageNumber(rowNum) * PAGE_SIZE <= FileOffset(rowNum)
    ensures FileOffset(rowNum) + ROW_SIZE <= (PageNumber(rowNum) + 1) * PAGE_SIZE
    ensures ByteOffset(rowNum) == (rowNum - PageNumber(rowNum) * ROWS_PER_PAGE) * ROW_SIZE
  {
  }

  /** Distinct rows occupy disjoint byte ranges of the file. */
  lemma {:induction false} RowSlotsDisjoint(i: nat, j: nat)
    requires i < j
    ensures FileOffset(i) + ROW_SIZE <= FileOffset(j)
  {
    if PageNumber(i) == PageNumber(j) {
      assert i % ROWS_PER_PAGE < j % ROWS_PER_PAGE;
    } else {
      assert PageNumber(i) < PageNumber(j);
      assert (PageNumber(i) + 1) * PAGE_SIZE <= PageNumber(j) * PAGE_SIZE;
    }
  }

  /** Row `a` of page `q`. */
  lemma PageAndSlot(q: nat, a: nat)
    requires a < ROWS_PER_PAGE
    ensures PageNumber(q * ROWS_PER_PAGE + a) == q && ByteOffset(q * ROWS_PER_PAGE + a) == a * ROW_SIZE
    ensures FileOffset(q * ROWS_PER_PAGE + a) == q * PAGE_SIZE + a * ROW_SIZE
  {
    DerivedConstants();
    assert (q * 14 + a) / 14 == q && (q * 14 + a) % 14 == a;
  }

  /** A row below `n` in the page of row `n` comes before row `n` in that page, which is then partly used. */
  lemma RowBeforeInPage(r: nat, n: nat)
    requires r < n && PageNumber(n) <= PageNumber(r)
    ensures PageNumber(r) == PageNumber(n) && n % ROWS_PER_PAGE > 0
    ensures ByteOffset(r) + ROW_SIZE <= ByteOffset(n)
  {
    DerivedConstants();
    assert r / 14 == n / 14;
    assert r % 14 < n % 14;
  }

  /** The last of `n` rows is in the page of row `n`, unless row `n` starts a new page. */
  lemma LastRowPage(n: nat)
    requires n > 0
    ensures n % ROWS_PER_PAGE == 0 ==> PageNumber(n - 1) + 1 == PageNumber(n) && ByteOffset(n) == 0
    ensures n % ROWS_PER_PAGE > 0 ==> PageNumber(n - 1) == PageNumber(n)
  {
  }

  /** A table within capacity fills at most TABLE_MAX_PAGES pages, and a partly used last page is one of them. */
  lemma LastPageInRange(numRows: nat)
    requires numRows <= TABLE_MAX_ROWS
    ensures numRows / ROWS_PER_PAGE <= TABLE_MAX_PAGES
    ensures numRows % ROWS_PER_PAGE > 0 ==> numRows / ROWS_PER_PAGE < TABLE_MAX_PAGES
    ensures (numRows % ROWS_PER_PAGE) * ROW_SIZE < PAGE_SIZE
  {
    DerivedConstants();
  }

  /** Every row below TABLE_MAX_ROWS lives in a page slot that exists. */
  lemma PagesCoverMaxRows(rowNum: nat)
    requires rowNum < TABLE_MAX_ROWS
    ensures PageNumber(rowNum) < TABLE_MAX_PAGES
  {
    DerivedConstants();
  }

  /** `page[offset..offset + data.len()].copy_from_slice(data)`. */
  function Splice(page: Page, offset: nat, data: seq<u8>): (r: Page)
    requires offset + |data| <= PAGE_SIZE
    ensures r[offset..offset + |data|] == data
    ensures forall k :: 0 <= k < PAGE_SIZE && !(offset <= k < offset + |data|) ==> r[k] == page[k]
  {
    page[..offset] + data + page[offset + |data|..]
  }

  /** A page slot's buffer, or the zero page `get_or_insert` would create in an empty slot. */
  function PageOrZeros(slot: Option<Page>): Page {
    if slot.Some? then slot.value else Zeros(PAGE_SIZE)
  }

  /** The bytes of row `rowNum` in a table's page slots; an empty slot reads as zeros. */
  function SlotBytes(pages: Slots, rowNum: nat): (b: seq<u8>)
    requires rowNum < TABLE_MAX_ROWS
    ensures |b| == ROW_SIZE
  {
    PagesCoverMaxRows(rowNum);
    PageOrZeros(pages[PageNumber(rowNum)])[ByteOffset(rowNum)..ByteOffset(rowNum) + ROW_SIZE]
  }

  /** Two collections of page slots in which every row reads the same bytes. */
  ghost predicate SameSlots(p1: Slots, p2: Slots) {
    forall r: nat :: r < TABLE_MAX_ROWS ==> SlotBytes(p1, r) == SlotBytes(p2, r)
  }

  lemma SameSlotsTransitive(p1: Slots, p2: Slots, p3: Slots)
    requires SameSlots(p1, p2) && SameSlots(p2, p3)
    ensures SameSlots(p1, p3)
  {
  }

  /** The page slots after `data` is copied into row `rowNum`'s slot, creating its page zero-filled if absent. */
  function WriteRowIn(pages: Slots, rowNum: nat, data: seq<u8>): (r: Slots)
    requires rowNum < TABLE_MAX_ROWS && |data| == ROW_SIZE
  {
    pages[PageNumber(rowNum) := Some(Splice(PageOrZeros(pages[PageNumber(rowNum)]), ByteOffset(rowNum), data))]
  }

  /** Copying `data` over bytes n .. n+|data| of a page leaves a row slot outside that range as it was. */
  lemma SpliceElsewhere(page: Page, n: nat, data: seq<u8>, o: nat)
    requires n + |data| <= PAGE_SIZE && o + ROW_SIZE <= PAGE_SIZE
    requires o + ROW_SIZE <= n || n + |data| <= o
    ensures Splice(page, n, data)[o..o + ROW_SIZE] == page[o..o + ROW_SIZE]
  {
    var page' := Splice(page, n, data);
    var after, before := page'[o..o + ROW_SIZE], page[o..o + ROW_SIZE];
    forall k | 0 <= k < ROW_SIZE ensures after[k] == before[k] {
      assert page'[o + k] == page[o + k];
    }
  }

  /** The written page of WriteRowIn, spelled out. */
  lemma WriteRowInPage(pages: Slots, rowNum: nat, data: seq<u8>, q: nat)
    requires rowNum < TABLE_MAX_ROWS && |data| == ROW_SIZE && q < TABLE_MAX_PAGES
    ensures WriteRowIn(pages, rowNum, data)[q]
            == if q == PageNumber(rowNum) then Some(Splice(PageOrZeros(pages[q]), ByteOffset(rowNum), data)) else pages[q]
  {
  }

  /** Writing one row's slot leaves every other row's bytes as they were, and the row reads back as written. */
  lemma {:induction false} WriteRowInSlots(pages: Slots, rowNum: nat, data: seq<u8>, other: nat)
    requires rowNum < TABLE_MAX_ROWS && other < TABLE_MAX_ROWS && |data| == ROW_SIZE
    ensures SlotBytes(WriteRowIn(pages, rowNum, data), other) == if other == rowNum then data else SlotBytes(pages, other)
  {
    var p, q := PageNumber(rowNum), PageNumber(other);
    WriteRowInPage(pages, rowNum, data, q);
    if q == p && other != rowNum {
      if other < rowNum { RowSlotsDisjoint(other, rowNum); } else { RowSlotsDisjoint(rowNum, other); }
      SpliceElsewhere(PageOrZeros(pages[p]), ByteOffset(rowNum), data, ByteOffset(other));
    }
  }
}
