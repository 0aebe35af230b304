# rlite, modelled in Dafny

rlite is a tiny single-table record store written in Rust. Each record is a
fixed 291-byte row: a u32 id, a 32-byte username and a 255-byte email.

Rows are packed 14 to a 4096-byte page, and a table holds up to 100 pages,
which is 1400 rows. A line such as `insert 1 alice a@b.c` or `select` is
parsed into a statement. A line starting with `.` is a meta command, and
`.exit` is the only one the system accepts.

The repository has two tables:
- the in-memory table of `src/main.rs`, which keeps its pages in RAM;
- the file-backed table of `src/pager.rs`, which loads pages lazily from a
  backing file and writes them back when the table is dropped.

This project models both tables and proves properties of the model. It covers
the row codec, the statement parser and the meta-command check.

One copy of the codec, the parser and the meta-command check was modelled:
- `src/tokenizer.rs` and `src/main.rs` hold identical copies of the codec and
  the parser.
- `prepare_statement` is at src/main.rs:181-235 and
  src/tokenizer.rs:144-198.
- `do_meta_command` is at src/main.rs:111-118 and src/tokenizer.rs:74-81.
- `Row::serialize` and `Row::deserialize` are at src/main.rs:132-158 and
  src/tokenizer.rs:95-121.

The model cites the tokenizer.rs lines.

Modules, in dependency order:

| file | module | what it holds |
|---|---|---|
| wrappers.dfy | Wrappers | `Option`, `Result`, `Outcome` |
| constants.dfy | Constants | the layout constants, byte and u32 types, `Zeros` |
| codec.dfy | RowCodec | `Row`, little-endian u32, `Serialize` / `Deserialize` |
| tokenizer.dfy | Tokenizer | whitespace splitting, u32 parsing, `PrepareStatement`, `DoMetaCommand` |
| layout.dfy | Layout | pages, page slots, row addressing, writing a row into a page |
| memtable.dfy | MemoryTable | the in-memory `Table` class and `ExecuteInsert` / `ExecuteSelect` / `ExecuteStatement` |
| fileimage.dfy | FileImage | the backing file as a byte sequence: positioned write and page read |
| persistence.dfy | Persistence | what the pager table's teardown writes and how a reopen counts rows |
| pager.dfy | Paging | the `Pager` and pager-backed `Table` classes, and what a reopen reads back |

Text is modelled as UTF-8 bytes (`seq<u8>`), so a string's `len()` is its
byte length. Whitespace is Rust's ASCII whitespace: bytes 9 to 13 and 32.

The backing file is a `seq<u8>` field of the `Pager` class. Opening the file
becomes a constructor that takes the file's contents. Each `seek` followed by
a `write_all` becomes `WriteAt`, and each `seek` followed by a `read` becomes
`ReadPage`.

Teardown is `Table.Close`, the `Drop` of the pager-backed table. It is
specified twice:
- `Teardown` describes it pass by pass, as the source's loops perform it.
- `Persist` describes it as the ordered list of `flush` calls the teardown
  makes (`FlushPlan`), applied to the file.
- `TeardownFlushes` proves the two descriptions equal.

The round-trip lemmas about reopening the file are stated with `Persist`.

## Model

| member | source | states |
|---|---|---|
| Constants.DerivedConstants | src/main.rs:3-15 | ROW_SIZE is 291. The username field starts at 4 and the email field at 36, and the email ends the row. ROWS_PER_PAGE is 14 and TABLE_MAX_ROWS is 1400. 14 rows fit in a page and 15 do not. |
| RowCodec.ToLeBytes | src/tokenizer.rs:115 | `to_le_bytes` gives 4 bytes, and decoding them with `from_le_bytes` gives the id back. |
| RowCodec.ToLeBytesFromLeBytes | src/tokenizer.rs:103 | Any 4 bytes are the encoding of the u32 they decode to. |
| RowCodec.Serialize | src/tokenizer.rs:112-121 | The encoding is exactly ROW_SIZE bytes. Bytes 0..4 decode to the id, bytes 4..36 are the username and bytes 36..291 are the email, with no gaps. |
| RowCodec.FromLeBytes | src/tokenizer.rs:103 | `u32::from_le_bytes`: the 4 bytes read as a number, least significant byte first. |
| RowCodec.Deserialize | src/tokenizer.rs:95-110 | `Row::deserialize`: the id decoded from bytes 0..4, the username from bytes 4..36 and the email from bytes 36..291 of an input of at least ROW_SIZE bytes. |
| RowCodec.DeserializeSerialize | src/tokenizer.rs:95-121 | Decoding an encoded row gives the row back. |
| RowCodec.SerializeDeserialize | src/tokenizer.rs:95-121 | Encoding a decoded byte string gives back its first ROW_SIZE bytes. |
| RowCodec.DeserializePrefix | src/tokenizer.rs:95-110 | Decoding is defined on any input of at least ROW_SIZE bytes and reads only the first ROW_SIZE of them. |
| RowCodec.DeserializeReadsPrefix | src/tokenizer.rs:95-110 | Two inputs decode to the same row if and only if their first ROW_SIZE bytes agree. |
| RowCodec.SerializeInjective | src/tokenizer.rs:112-121 | Two rows have the same encoding if and only if they are equal. |
| Tokenizer.IsWhitespace | src/tokenizer.rs:145 | The separator `split_whitespace` splits on, restricted to ASCII: tab, line feed, vertical tab, form feed, carriage return and space. |
| Tokenizer.WordLength | src/tokenizer.rs:145 | The first word ends at the first whitespace byte, or at the end of the input. |
| Tokenizer.Words | src/tokenizer.rs:145 | `split_whitespace` yields only non-empty words that contain no whitespace. |
| Tokenizer.WordsOfJoin | src/tokenizer.rs:145 | Words placed one space apart split back into exactly those words. |
| Tokenizer.WordsOfBlank | src/tokenizer.rs:145 | Input made only of whitespace has no words. |
| Tokenizer.WordsOfNonBlank | src/tokenizer.rs:145 | Input with a non-whitespace byte has at least one word. |
| Tokenizer.ParseU32 | src/tokenizer.rs:156-157 | A parse succeeds only on an optional `+` followed by one or more decimal digits. Its value is the value of those digits. |
| Tokenizer.ParseU32Accepts | src/tokenizer.rs:156-157 | The converse: one or more decimal digits, leading zeros allowed, whose value is below 2^32, parse to that value with or without a leading `+`. |
| Tokenizer.DecimalString | src/tokenizer.rs:156 | The decimal text of a number is a non-empty string of digits. |
| Tokenizer.DecimalValueOfString | src/tokenizer.rs:156 | The digits of a number's decimal text denote that number. |
| Tokenizer.ParseDecimalString | src/tokenizer.rs:156-157 | `parse::<u32>` of a u32's decimal text gives the u32 back. |
| Tokenizer.Pad | src/tokenizer.rs:163-168 | A field array holds the token's bytes and then zeros, up to the field size. |
| Tokenizer.PrepareRow | src/tokenizer.rs:149-186 | On success, the id is the parse of the first word. The username and email fields start with the second and third words, which fit their size limits. On failure, the error carries the whole input. |
| Tokenizer.PrepareStatement | src/tokenizer.rs:144-198 | A statement carries a row if and only if it is an insert. On failure, the error carries the whole input. |
| Tokenizer.PrepareBlank | src/tokenizer.rs:146 | Empty or all-whitespace input gives `InvalidInput`. |
| Tokenizer.PrepareUnrecognized | src/tokenizer.rs:191-195 | A first word other than `insert` or `select` gives `UnrecognizedStatement` with that word, whatever follows. |
| Tokenizer.PrepareSelect | src/tokenizer.rs:148-197 | `select`, with any words after it, gives a `Select` statement with no row. |
| Tokenizer.PrepareInsert | src/tokenizer.rs:148-197 | An insert with an id that parses, a username of at most 32 bytes and an email of at most 255 bytes gives `Insert` with that row. Words after the email are ignored. |
| Tokenizer.PrepareNegativeId | src/tokenizer.rs:152-155 | An id word that starts with `-` gives `NegativeNumber`. Nothing after it is looked at. |
| Tokenizer.PrepareInvalidId | src/tokenizer.rs:156-157 | An id word that does not parse as a u32, and does not start with `-`, gives `InvalidId`. |
| Tokenizer.PrepareUsernameTooLong | src/tokenizer.rs:162-166 | A username over 32 bytes gives `UsernameTooLong`, whether or not an email follows. |
| Tokenizer.PrepareEmailTooLong | src/tokenizer.rs:173-177 | An email over 255 bytes gives `EmailTooLong`. |
| Tokenizer.PrepareMissingField | src/tokenizer.rs:149-180 | An insert line that ends before its email, with no earlier error, gives `InvalidInput`. |
| Tokenizer.PrepareFormattedInsert | src/tokenizer.rs:138-198 | The line `insert <id> <username> <email>`, with single spaces and any trailing words, parses back into the row it describes. |
| Tokenizer.FirstWord | src/tokenizer.rs:79 | The reported command is empty if and only if the input has no words; otherwise it is a word. |
| Tokenizer.DoMetaCommand | src/tokenizer.rs:74-81 | The result is `Ok` if and only if the input starts with `.exit`. An error carries the whole input. |
| Tokenizer.MetaCommandOutcome | src/tokenizer.rs:74-81 | Any line that starts with `.exit` succeeds. Any other line with words is reported with its first word. |
| Tokenizer.MetaCommandBlank | src/tokenizer.rs:79-80 | A blank line is reported with an empty command. |
| Layout.PageNumber | src/main.rs:252 | The page a row lives in, `row_num / ROWS_PER_PAGE`; src/pager.rs:117 computes the same. |
| Layout.ByteOffset | src/main.rs:255-258 | A row's range inside its page ends within PAGE_SIZE. |
| Layout.RowSlotInPage | src/pager.rs:117-123 | A row lies wholly inside its page: it starts at or after the page's start and ends at or before the page's end. |
| Layout.RowSlotsDisjoint | src/main.rs:251-259 | Distinct rows occupy disjoint byte ranges. |
| Layout.LastPageInRange | src/pager.rs:130-145 | For a table within capacity, the first teardown pass stays within the page array. A partly used last page is a valid slot, and its rows' bytes are fewer than PAGE_SIZE. |
| Layout.PagesCoverMaxRows | src/main.rs:252-253 | Every row below TABLE_MAX_ROWS lives in a page below TABLE_MAX_PAGES, so `row_slot` never indexes past the array. |
| Layout.Splice | src/main.rs:269 | `copy_from_slice` into a page puts the data in its range and leaves every other byte as it was. |
| Layout.SlotBytes | src/main.rs:251-259 | The bytes of a row slot are ROW_SIZE long. |
| Layout.WriteRowIn | src/main.rs:267-269 | The page slots after `copy_from_slice` of a row's bytes into its slot: the row's page, created zero-filled if absent, with the bytes spliced in at the row's offset. |
| Layout.WriteRowInSlots | src/main.rs:267-270 | Writing a row changes the bytes of that row's slot and of no other row's slot. |
| MemoryTable.RowsOf | src/main.rs:276-281 | The table's rows are as many as its row count. |
| MemoryTable.AppendRow | src/main.rs:267-271 | Counting one more row over a freshly written slot appends that slot's decoding to the rows. |
| MemoryTable.WriteRowSlots | src/main.rs:267-270 | Writing the serialized row at row `n` sets that slot and leaves every other slot unchanged. |
| MemoryTable.RowsOfAt | src/main.rs:276-279 | Row `i` of the table is the decoding of slot `i`. |
| MemoryTable.Table.constructor | src/main.rs:244-249 | A new table has no rows and every page slot is empty. |
| MemoryTable.Table.RowSlot | src/main.rs:251-259 | A row's page is row/14 and its offset is (row%14)*291, within the page. Only that page changes, and only by being created zero-filled when absent, so no row's bytes change. |
| MemoryTable.Inserted | src/main.rs:262-273 | The effect of `execute_insert`: on a full table, `TableFull` and nothing changes. Otherwise the statement's row is serialized into slot `num_rows`, every other slot is unchanged, and the count goes up by one. |
| MemoryTable.InsertedAppends | src/main.rs:262-273 | A successful insert of a row increases the count by one, stays within capacity, and appends exactly that row to the table's rows. |
| MemoryTable.InsertStep | src/main.rs:262-273 | Inserting the next row into a table that holds the rows before it leaves the table holding one more of them, in order. |
| MemoryTable.ExecuteInsert | src/main.rs:262-274 | A full table gives `TableFull` and is unchanged. Otherwise the row is serialized into slot `num_rows`, no other slot changes, and the count goes up by one. |
| MemoryTable.ExecuteSelect | src/main.rs:276-281 | Select returns rows 0..num_rows in order, decoded from their slots. No slot's bytes change: a page `row_slot` creates is all zeros, and the counted rows stay the same. |
| MemoryTable.ExecuteStatement | src/main.rs:283-291 | An insert behaves as `ExecuteInsert`. A select always succeeds, returns the rows and changes no slot's bytes. |
| MemoryTable.InsertAll | src/main.rs:262-274 | Inserting up to TABLE_MAX_ROWS rows into a new table always succeeds, and the table then holds exactly those rows in order. |
| MemoryTable.InsertAllThenSelect | src/main.rs:276-281 | A select after inserting rows into a new table returns exactly the inserted rows, in insertion order. |
| MemoryTable.InsertIntoFullTable | src/main.rs:263-265 | One more insert into a table of 1400 rows gives `TableFull`, and a later select still returns the 1400 rows. |
| FileImage.WriteAt | src/pager.rs:92-97 | An empty write leaves the file unchanged. Otherwise the file grows to the end of the written range if it was shorter. |
| FileImage.WriteAtByte | src/pager.rs:92-97 | After a positioned write, each byte is the written byte inside the range, the old byte outside it, or zero in a gap past the old end. |
| FileImage.ReadPage | src/pager.rs:72-82 | The loaded buffer holds the file bytes that exist from the offset on, up to 4096 of them, and zeros after those. |
| FileImage.NumPages | src/pager.rs:73-77 | The page count is the length divided by PAGE_SIZE, rounded up. |
| Persistence.FlushPlan | src/pager.rs:127-148 | The `flush` calls the teardown makes, in order: each loaded page below `num_rows/14` with 4096 bytes, then the partly used last page, if loaded, with `(num_rows%14)*291` bytes. |
| Persistence.FullPlan | src/pager.rs:132-138 | The flushes of the first loop: each loaded page below `k`, in increasing order, with all 4096 bytes. |
| Persistence.PartialPlan | src/pager.rs:140-147 | The flush of the second pass: page `num_rows/14` with `(num_rows%14)*291` bytes when `num_rows%14 > 0` and that page is loaded, and nothing otherwise. |
| Persistence.FullPlanShape | src/pager.rs:132-138 | The first pass flushes only loaded pages below `num_rows/14`, in increasing order, each with all 4096 bytes. |
| Persistence.FlushPlanShape | src/pager.rs:130-148 | The teardown flushes only loaded pages, each with a non-empty prefix, in strictly increasing page order, so no page is flushed twice. |
| Persistence.FullPlanEntries | src/pager.rs:132-138 | A flush is in the first pass if and only if its page is loaded and below `k`, and its size is 4096. |
| Persistence.FlushPlanEntries | src/pager.rs:130-148 | The teardown flushes page p with size s if and only if p is loaded and one of two cases holds. Either p < num_rows/14 and s = 4096. Or num_rows%14 > 0, p = num_rows/14 and s = (num_rows%14)*291. Unloaded pages are never written. |
| Persistence.ApplyFlushes | src/pager.rs:90-99 | Flushing never shortens the file. |
| Persistence.ApplyFlushesLastByte | src/pager.rs:90-99 | After one more flush, a byte holds the page's byte inside the flushed range, and otherwise the byte the earlier flushes left. |
| Persistence.ApplyFlushesCovered | src/pager.rs:90-99 | After flushes in increasing page order, a byte inside the range of one flush holds that page's byte. |
| Persistence.ApplyFlushesUncovered | src/pager.rs:90-99 | A byte outside every flushed range keeps the file's byte, or is zero in a gap the flushes opened. |
| Persistence.ApplyFlushesLength | src/pager.rs:90-99 | After flushes in increasing page order, the file ends at the last flush, unless it was already longer. |
| Persistence.ApplyFlushesAppend | src/pager.rs:90-99 | One more flush at the end of a plan is one positioned write of that page's prefix, or nothing for an empty slot. |
| Persistence.FullPlanStep | src/pager.rs:132-138 | Step `k` of the first pass writes page `k` in full when it is loaded, and writes nothing otherwise. |
| Persistence.FullPass | src/pager.rs:132-138 | The file the first loop leaves after `k` steps: each loaded page below `k`, in order, written in full at `page*4096`. |
| Persistence.FullPassFlushes | src/pager.rs:132-138 | The first loop's pass-by-pass effect on the file is exactly that of the flushes it lists. |
| Persistence.Persist | src/pager.rs:127-148 | The file the teardown leaves, as the flushes of `FlushPlan` applied in order to the old file. |
| Persistence.Teardown | src/pager.rs:127-148 | The file the teardown leaves, pass by pass: each loaded page below `num_rows/14` written in full, in order, then the partly used last page, if loaded, written with its rows' bytes. |
| Persistence.TeardownFlushes | src/pager.rs:127-148 | The teardown's two passes leave the same file as performing the flush list in order. |
| Persistence.FlushPlanCoversRow | src/pager.rs:130-148 | A row of a loaded page is covered by a flush of its page that writes at least up to the row's end. |
| Persistence.PersistRow | src/pager.rs:127-148 | After teardown, the file holds each row of a loaded page at the row's file offset. |
| Persistence.PersistUnloaded | src/pager.rs:127-148 | After teardown, the bytes of a page that was never loaded are unchanged, or zero in a gap. |
| Persistence.FlushPlanLast | src/pager.rs:141-147 | When the last row's page is loaded, the teardown's last flush ends right after the last row. |
| Persistence.PersistLength | src/pager.rs:127-148 | When the last row's page is loaded and the file was no longer than the rows, teardown leaves a file that ends right after the last row. |
| Persistence.RowCountAsWritten | src/pager.rs:110 | The row count `Table::new` computes: the file length divided by ROW_SIZE, rounded down. |
| Persistence.RowsInFile | src/pager.rs:110 | The corrected row count: 14 rows per whole page, plus the whole rows of a trailing partial page. |
| Persistence.RowsInFileCounts | src/pager.rs:110 | The per-page row count counts exactly the rows stored whole in the file: the last counted row fits and the next one does not. |
| Persistence.RowsInFileOfPersisted | src/pager.rs:110 | A file that ends right after row n-1 is counted, page by page, as exactly n rows. |
| Persistence.RowCountAsWrittenDrift | src/pager.rs:110 | `file_length / ROW_SIZE` over such a file overshoots n by the 22 bytes of slack of each full page, divided by 291. |
| Persistence.RowCountAsWrittenExact | src/pager.rs:110 | `file_length / ROW_SIZE` gives back n if and only if n < 196. |
| Persistence.FullTableReopenAsWritten | src/pager.rs:110 | The file of a full 1400-row table is 409600 bytes. `file_length / ROW_SIZE` counts 1407 rows, and the last of them would be in slot 100, past the page array, where teardown indexes. |
| Paging.PassesBoundCheckAsWritten | src/pager.rs:67 | The page numbers that `get_page`'s `>` check lets through: every number up to and including TABLE_MAX_PAGES. |
| Paging.BoundCheckAsWrittenAdmitsEnd | src/pager.rs:67-71 | The only page number that passes the `>` check and is not an index of the page array is TABLE_MAX_PAGES. |
| Paging.LoadPage | src/pager.rs:71-84 | The buffer `get_page` stores in an empty slot: a zeroed page, overwritten by one read at `page*4096` when the page number is at most the file's page count. |
| Paging.LoadPageReads | src/pager.rs:72-83 | While the file has its opened length, a loaded page is the file's bytes at the page's offset followed by zeros. Skipping the read past the end, and the `<=` bound, make no difference. |
| Paging.RowView | src/pager.rs:116-123 | A row's view through `row_slot` is ROW_SIZE bytes long. |
| Paging.RowViewByte | src/pager.rs:116-123 | Byte `i` of a row's view is the page byte at the row's offset plus `i`. |
| Paging.Pager.Open | src/pager.rs:49-64 | Opening records the file's contents and length, and every page slot is empty. |
| Paging.Pager.GetPage | src/pager.rs:66-88 | The result is an error if and only if the page number is not below TABLE_MAX_PAGES; the error is `FetchOutOfBounds`, and no slot changes. Otherwise an empty slot is filled from the file and a filled slot is kept, so no re-read happens. No other slot changes. |
| Paging.Pager.Flush | src/pager.rs:90-99 | A loaded slot's first `size` bytes are written at `page*4096`, extending the file if needed. An empty slot writes nothing. No slot changes. |
| Paging.Table.Open | src/pager.rs:108-113 | A new table counts the rows stored whole in the file, page by page, and every slot is empty. |
| Paging.Table.RowSlot | src/pager.rs:116-124 | A row's page is row/14 and its offset is (row%14)*291, within the page. That page is loaded if it was empty, other slots do not change, and the returned range holds the row's bytes. |
| Paging.Table.Close | src/pager.rs:127-153 | Teardown leaves the file as the two passes describe and empties every slot. |
| Paging.EmptySlots | src/pager.rs:62 | Every slot of a newly opened pager is empty. |
| Paging.ReopenReadsSameRows | src/pager.rs:127-153 | After teardown and a reopen, every row below the count reads the same bytes as before. Rows of loaded pages come from the bytes teardown wrote, and other rows from the untouched file. |
| Paging.ReopenReadsSameByte | src/pager.rs:127-153 | The same, for one byte of one row. |
| Paging.ReloadedByte | src/pager.rs:72-83 | A file that holds a loaded page's byte at a row's offset, or else the old byte, loads that byte at the row's position in its page. |
| Paging.LoadPageViaFile | src/pager.rs:72-83 | Byte `i` of a row in a freshly loaded page is the file byte at the row's offset plus `i`, or zero past the file's end. |
| Paging.ReopenCountsRows | src/pager.rs:108-113 | When the file was no longer than the rows and the last row's page was loaded, a reopen counts exactly the rows held, page by page. `file_length / ROW_SIZE` gets this right only below 196 rows. |

## Left out

- `read_input`, the `main` loop, `Row::print` and all console output: these are console I/O. `ExecuteSelect` returns the decoded rows instead of printing them.
- The `Display` implementations of the error types: they only format messages.
- Operating-system file behaviour is left out. That covers `OpenOptions`, the seek cursor, and the `Io` and `TryFromIntError` variants of `PageError`. The file is a byte sequence, and every read or write happens at an explicit offset.
- Paging.Pager.GetPage: a `read` is taken to fill the buffer with every byte available, up to 4096. A short read is not modelled.
- Paging.Pager.Flush: the `.expect` panics on a failed seek or write cannot happen on an in-memory file. The slice `page[..size]` panics for `size > PAGE_SIZE`, and a requires excludes that case.
- Paging.Pager.Flush: `self.pages[page_num]` panics for a page number at or above 100; a requires excludes that case. Teardown, the only caller, flushes only pages below 100 (Layout.LastPageInRange).
- RowCodec.Deserialize: the slicing panics on an input shorter than ROW_SIZE; a requires excludes that case. Every caller passes a ROW_SIZE slice from `row_slot`.
- Paging.Pager.GetPage: returns an `Outcome` instead of `&mut [u8]`. A caller reaches the page through `pages[pageNum]`, so writes through a borrowed buffer and their aliasing are not modelled.
- Paging.Pager.GetPage: this is the corrected bound check (`>=`). The source's `>` check is modelled separately; see Findings.
- Paging.Table.Open: this uses the corrected, per-page row count. The source's `file_length / ROW_SIZE` is modelled by `RowCountAsWritten`; see Findings.
- Paging.Table.Close: for more than 1400 rows, the source indexes past the page array and panics; a requires excludes that.
- Paging.Table.RowSlot and MemoryTable.Table.RowSlot: a row number at or beyond 1400 makes the source panic; a requires excludes it. Both return the page number and byte offset, not a mutable slice. Callers write through `pages[pageNum]`, so aliasing through a borrowed slice is not modelled.
- Paging.Table.RowSlot: the source's `unwrap` of `get_page` cannot fail under that requires.
- Unicode whitespace beyond ASCII is not treated as a separator. Input is taken as bytes, and non-ASCII text is compared byte for byte.
- `str::parse::<u32>` is modelled as Rust's integer parse: an optional `+`, then decimal digits, with overflow rejected. A lone `-` is caught before the parse, as in the source.
- The `crate::constants` module that src/pager.rs and src/tokenizer.rs import is not part of this model. The values of src/main.rs:3-15 are used.
- The in-memory table stores every page slot as an `Option` of a `seq`, not as a boxed array. Changing a page replaces that slot's sequence.
- Paging.ReopenReadsSameRows and Paging.ReopenCountsRows: these are stated with `Persist`, and `Paging.Table.Close` ensures `Teardown`. `Persistence.TeardownFlushes` proves the two equal.

## Findings

| source | as written | input that shows it | evidently intended | confidence | as-written member | corrected member |
|---|---|---|---|---|---|---|
| src/pager.rs:67 | `get_page` rejects only `page_num > TABLE_MAX_PAGES` | `page_num == 100` passes the check and then indexes `pages[100]` of a 100-slot array | reject every `page_num >= TABLE_MAX_PAGES` | not executed | Paging.BoundCheckAsWrittenAdmitsEnd | Paging.Pager.GetPage |
| src/pager.rs:110 | a reopen counts `file_length / ROW_SIZE` rows, ignoring the 22 unused bytes at the end of each full page | 196 rows are torn down into a 57344-byte file, which is counted as 197 rows; a full 1400-row table is counted as 1407 | count 14 rows per whole page plus the whole rows of a trailing partial page | not executed | Persistence.RowCountAsWrittenExact | Persistence.RowsInFileOfPersisted |
