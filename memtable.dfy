/**
 * The in-memory table of src/main.rs (no pager): an array of TABLE_MAX_PAGES
 * optional page buffers and a row counter, with `execute_insert`,
 * `execute_select` and `execute_statement` working on it.
 */
module MemoryTable {
  import opened Constants
  import opened Wrappers
  import opened RowCodec
  import opened Layout
  import opened Tokenizer

  datatype ExecuteError = TableFull

  /** The rows 0 .. n-1 as the codec reads them from a collection of page slots. */
  function RowsOf(pages: Slots, n: nat): (rows: seq<Row>)
    requires n <= TABLE_MAX_ROWS
    ensures |rows| == n
  {
    if n == 0 then [] else RowsOf(pages, n - 1) + [Deserialize(SlotBytes(pages, n - 1))]
  }

  /** The decoded rows depend only on the bytes of their own slots. */
  lemma {:induction false} RowsOfSameSlots(p1: Slots, p2: Slots, n: nat)
    requires n <= TABLE_MAX_ROWS
    requires forall i :: 0 <= i < n ==> SlotBytes(p1, i) == SlotBytes(p2, i)
    ensures RowsOf(p1, n) == RowsOf(p2, n)
  {
    if n > 0 {
      RowsOfSameSlots(p1, p2, n - 1);
    }
  }

  lemma RowsOfSameSlotsAll(p1: Slots, p2: Slots, n: nat)
    requires SameSlots(p1, p2) && n <= TABLE_MAX_ROWS
    ensures RowsOf(p1, n) == RowsOf(p2, n)
  {
    RowsOfSameSlots(p1, p2, n);
  }

  /**
   * Counting one more row whose slot holds `data`, with the earlier slots
   * untouched, appends the decoding of `data` to the rows.
   */
  lemma AppendRow(before: Slots, after: Slots, n: nat, data: seq<u8>)
    requires n < TABLE_MAX_ROWS && |data| == ROW_SIZE
    requires forall i :: 0 <= i < n ==> SlotBytes(after, i) == SlotBytes(before, i)
    requires SlotBytes(after, n) == data
    ensures RowsOf(after, n + 1) == RowsOf(before, n) + [Deserialize(data)]
  {
    RowsOfSameSlots(after, before, n);
  }

  /** Writing `data` into the slot of row `n` changes that slot only. */
  lemma WriteRowSlots(before: Slots, n: nat, data: seq<u8>)
    requires n < TABLE_MAX_ROWS && |data| == ROW_SIZE
    ensures forall i: nat :: i < TABLE_MAX_ROWS ==>
      SlotBytes(WriteRowIn(before, n, data), i) == if i == n then data else SlotBytes(before, i)
  {
    forall i: nat | i < TABLE_MAX_ROWS ensures
      SlotBytes(WriteRowIn(before, n, data), i) == if i == n then data else SlotBytes(before, i)
    {
      WriteRowInSlots(before, n, data, i);
    }
  }

  /** Row `i` of RowsOf is the decoding of slot `i`. */
  lemma {:induction false} RowsOfAt(pages: Slots, n: nat, i: nat)
    requires n <= TABLE_MAX_ROWS && i < n
    ensures RowsOf(pages, n)[i] == Deserialize(SlotBytes(pages, i))
  {
    if i < n - 1 {
      RowsOfAt(pages, n - 1, i);
    }
  }

  /** `struct Table` of src/main.rs. */
  class Table {
    var numRows: nat
    const pages: array<Option<Page>>

    ghost predicate Valid()
      reads this
    {
      pages.Length == TABLE_MAX_PAGES && numRows <= TABLE_MAX_ROWS
    }

    /** The rows the table holds, in row order. */
    ghost function Rows(): seq<Row>
      reads this, pages
      requires Valid()
    {
      RowsOf(pages[..], numRows)
    }

    /** `Table::new`: no rows, every page slot empty. */
    constructor ()
      ensures Valid() && fresh(pages)
      ensures numRows == 0 && forall i :: 0 <= i < pages.Length ==> pages[i].None?
      ensures Rows() == []
    {
      numRows := 0;
      pages := new Option<Page>[TABLE_MAX_PAGES](_ => None);
    }

    /**
     * `Table::row_slot`: the page and in-page offset of a row's ROW_SIZE-byte
     * range. Only that page is touched, and only to create it zero-filled when
     * absent. Indexing the page array past its end panics in the source; the
     * requires excludes that.
     */
    method RowSlot(rowNum: nat) returns (pageNum: nat, byteOffset: nat)
      requires Valid() && rowNum < TABLE_MAX_ROWS
      modifies pages
      ensures pageNum == rowNum / ROWS_PER_PAGE && byteOffset == (rowNum % ROWS_PER_PAGE) * ROW_SIZE
      ensures pageNum < pages.Length && byteOffset + ROW_SIZE <= PAGE_SIZE
      ensures pages[pageNum] == if old(pages[pageNum]).None? then Some(Zeros(PAGE_SIZE)) else old(pages[pageNum])
      ensures forall i :: 0 <= i < pages.Length && i != pageNum ==> pages[i] == old(pages[i])
      ensures SameSlots(pages[..], old(pages[..]))
    {
      pageNum := rowNum / ROWS_PER_PAGE;
      if pages[pageNum].None? {
        pages[pageNum] := Some(Zeros(PAGE_SIZE));
      }
      byteOffset := (rowNum % ROWS_PER_PAGE) * ROW_SIZE;
      forall r: nat | r < TABLE_MAX_ROWS ensures SlotBytes(pages[..], r) == SlotBytes(old(pages[..]), r) {
        if PageNumber(r) == pageNum && old(pages[pageNum]).None? {
          assert SlotBytes(pages[..], r) == Zeros(PAGE_SIZE)[ByteOffset(r)..ByteOffset(r) + ROW_SIZE];
        }
      }
    }
  }

  /**
   * Row `n`'s slot of `after` holds the serialized `row` (or, for a statement
   * without a row, whatever it held before) and every other slot is as in
   * `before`.
   */
  ghost predicate RowWritten(before: Slots, after: Slots, n: nat, row: Option<Row>)
    requires n < TABLE_MAX_ROWS
  {
    && (forall i: nat :: i < TABLE_MAX_ROWS && i != n ==> SlotBytes(after, i) == SlotBytes(before, i))
    && SlotBytes(after, n) == if row.Some? then Serialize(row.value) else SlotBytes(before, n)
  }

  /**
   * What `execute_insert` does to a table with page slots `before` and `n`
   * rows, leaving slots `after`, `n'` rows and outcome `r`: a full table
   * reports TableFull and is unchanged; otherwise the statement's row is
   * written into slot `n` (RowWritten) and the count goes up by one.
   */
  ghost predicate Inserted(before: Slots, n: nat, row: Option<Row>, after: Slots, n': nat, r: Outcome<ExecuteError>) {
    if n >= TABLE_MAX_ROWS then r == Fail(TableFull) && after == before && n' == n
    else r == Pass && n' == n + 1 && RowWritten(before, after, n, row)
  }

  /** A successful insert of a row appends it to the table's rows. */
  lemma InsertedAppends(before: Slots, n: nat, row: Row, after: Slots, n': nat, r: Outcome<ExecuteError>)
    requires Inserted(before, n, Some(row), after, n', r) && r.Pass?
    ensures n' == n + 1 <= TABLE_MAX_ROWS
    ensures RowsOf(after, n') == RowsOf(before, n) + [row]
  {
    AppendRow(before, after, n, Serialize(row));
    DeserializeSerialize(row);
  }

  /** `execute_insert`, with the effect Inserted describes. A statement without a row still takes a slot. */
  method ExecuteInsert(statement: Statement, table: Table) returns (r: Outcome<ExecuteError>)
    requires table.Valid()
    modifies table, table.pages
    ensures table.Valid()
    ensures Inserted(old(table.pages[..]), old(table.numRows), statement.row, table.pages[..], table.numRows, r)
  {
    if table.numRows >= TABLE_MAX_ROWS {
      return Fail(TableFull);
    }
    ghost var before: Slots := table.pages[..];
    var n := table.numRows;
    var pageNum, byteOffset := table.RowSlot(n);
    if statement.row.Some? {
      var page := table.pages[pageNum].value;
      var bytes := Serialize(statement.row.value);
      table.pages[pageNum] := Some(Splice(page, byteOffset, bytes));
      assert table.pages[..] == WriteRowIn(before, n, bytes);
      WriteRowSlots(before, n, bytes);
    }
    table.numRows := n + 1;
    return Pass;
  }

  /**
   * `execute_select`: decodes rows 0 .. numRows-1 in increasing order (the
   * source prints each one; here they are returned). The rows are not changed.
   */
  method ExecuteSelect(table: Table) returns (rows: seq<Row>)
    requires table.Valid()
    modifies table.pages
    ensures table.Valid() && table.Rows() == old(table.Rows())
    ensures SameSlots(table.pages[..], old(table.pages[..]))
    ensures rows == old(table.Rows())
  {
    ghost var before: Slots := table.pages[..];
    rows := [];
    for i := 0 to table.numRows
      invariant table.Valid()
      invariant SameSlots(table.pages[..], before)
      invariant rows == RowsOf(before, i)
    {
      ghost var prev: Slots := table.pages[..];
      var pageNum, byteOffset := table.RowSlot(i);
      SameSlotsTransitive(table.pages[..], prev, before);
      var bytes := table.pages[pageNum].value[byteOffset..byteOffset + ROW_SIZE];
      assert bytes == SlotBytes(table.pages[..], i);
      rows := rows + [Deserialize(bytes)];
    }
    RowsOfSameSlotsAll(table.pages[..], before, table.numRows);
  }

  /** `execute_statement`: dispatch on the statement type; a select always succeeds. */
  method ExecuteStatement(statement: Statement, table: Table) returns (r: Outcome<ExecuteError>, output: seq<Row>)
    requires table.Valid()
    modifies table, table.pages
    ensures table.Valid()
    ensures statement.stype == Select ==>
      r == Pass && output == old(table.Rows()) && table.Rows() == old(table.Rows())
      && SameSlots(table.pages[..], old(table.pages[..]))
    ensures statement.stype == Insert ==>
      output == [] && Inserted(old(table.pages[..]), old(table.numRows), statement.row, table.pages[..], table.numRows, r)
  {
    match statement.stype {
      case Insert =>
        r := ExecuteInsert(statement, table);
        output := [];
      case Select =>
        output := ExecuteSelect(table);
        r := Pass;
    }
  }

  /** Inserting row `k` of `rows` into a table holding the rows before it makes the table hold one more of them. */
  lemma InsertStep(rows: seq<Row>, k: nat, before: Slots, after: Slots, n': nat, r: Outcome<ExecuteError>)
    requires k < |rows| && k <= TABLE_MAX_ROWS && RowsOf(before, k) == rows[..k]
    requires Inserted(before, k, Some(rows[k]), after, n', r) && r.Pass?
    ensures n' == k + 1 <= TABLE_MAX_ROWS && RowsOf(after, n') == rows[..k + 1]
  {
    InsertedAppends(before, k, rows[k], after, n', r);
    assert rows[..k + 1] == rows[..k] + [rows[k]];
  }

  /** Inserts each row in turn into a fresh table; every insert succeeds while the table has room. */
  method InsertAll(rows: seq<Row>) returns (allInserted: bool, table: Table)
    requires |rows| <= TABLE_MAX_ROWS
    ensures fresh(table) && fresh(table.pages) && table.Valid()
    ensures allInserted && table.numRows == |rows| && table.Rows() == rows
  {
    table := new Table();
    allInserted := true;
    for k := 0 to |rows|
      invariant table.Valid() && fresh(table) && fresh(table.pages)
      invariant table.numRows == k
      invariant table.Rows() == rows[..k]
      invariant allInserted
    {
      ghost var before: Slots := table.pages[..];
      var r := ExecuteInsert(Statement(Insert, Some(rows[k])), table);
      InsertStep(rows, k, before, table.pages[..], table.numRows, r);
      allInserted := allInserted && r.Pass?;
    }
    assert rows[..|rows|] == rows;
  }

  /**
   * A session on a fresh table: insert each row in turn, then select. The
   * select returns exactly the inserted rows, in insertion order, and every
   * insert up to TABLE_MAX_ROWS succeeds.
   */
  method InsertAllThenSelect(rows: seq<Row>) returns (allInserted: bool, output: seq<Row>)
    requires |rows| <= TABLE_MAX_ROWS
    ensures allInserted
    ensures output == rows
  {
    var table;
    allInserted, table := InsertAll(rows);
    var selected;
    selected, output := ExecuteStatement(Statement(Select, None), table);
  }

  /** Once the table is full, the next insert fails and changes nothing. */
  method InsertIntoFullTable(rows: seq<Row>, extra: Row) returns (r: Outcome<ExecuteError>, output: seq<Row>)
    requires |rows| == TABLE_MAX_ROWS
    ensures r == Fail(TableFull)
    ensures output == rows
  {
    var allInserted, table := InsertAll(rows);
    ghost var slots: Slots := table.pages[..];
    var inserted;
    r, inserted := ExecuteStatement(Statement(Insert, Some(extra)), table);
    assert table.pages[..] == slots && table.numRows == TABLE_MAX_ROWS;
    assert table.Rows() == RowsOf(slots, TABLE_MAX_ROWS) == rows;
    var selected;
    selected, output := ExecuteStatement(Statement(Select, None), table);
  }
}
