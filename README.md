# A tiny single-table row store, modelled in Dafny

The repository holds two implementations of the same small database: one in
Rust (`src/table.rs`, `src/main.rs`) and one in C (`c/db.c`). Each keeps one
table of rows `(id, username, email)` in a file of 4096-byte pages. The root
page is a B-tree leaf node:

- a 6-byte common header (node type, is-root flag, parent pointer);
- a 4-byte cell count at offset 6;
- up to 13 cells of 297 bytes, each a 4-byte little-endian key followed by a
  293-byte row.

A pager caches up to 100 pages. Cursors walk the cells of the root. The
executor inserts and selects rows. Closing the database writes the cached
pages back to the file.

The model keeps the two implementations apart, because they differ:

- Rust inserts at the position its binary search finds and rejects duplicate
  ids. C always appends at the end of the root.
- Rust stores the row strings as given. C stores fixed 33- and 256-byte
  arrays.
- Rust pages are values owned by the pager. C pages are heap buffers shared
  by pointer.

Both leaf inserts are proved against one page-level specification,
`LeafNode.InsertCell`, so they have the same byte-level effect.

Modules and files:

| file | module | models |
|---|---|---|
| options.dfy | Options | an optional value |
| bytes.dfy | Bytes | bytes, u32, little-endian encoding, `memcpy` |
| layout.dfy | Layout | the layout constants and cell offsets |
| row.dfy | RowCodec | the Rust row codec (`Row::serialize` and friends) |
| c_row.dfy | CRow | the C row codec (`serialize_row`, `deserialize_row`) |
| node.dfy | LeafNode | leaf-node accessors over a page value, and the insert specification |
| rust_leaf.dfy | RustLeaf | Rust cell copy, leaf insert, split and binary search |
| db_file.dfy | DbFile | the database file as a byte sequence: page reads and writes |
| rust_pager.dfy | RustPager | the Rust `Pager` |
| rust_table.dfy | RustTable | the Rust `Table` and `Cursor` |
| rust_executor.dfy | RustExecutor | the Rust `execute_insert`, `execute_select`, `db_close` |
| rust_statement.dfy | RustStatement | the Rust `prepare_statement`, `prepare_insert` |
| c_node.dfy | CLeafNode | C accessors and `leaf_node_insert` on a page buffer |
| c_pager.dfy | CPager | the C `Pager` and `get_page`, `pager_flush` |
| c_table.dfy | CTable | the C table, cursors, executor, `db_open`, `db_close` |

Process exits (`exit(EXIT_FAILURE)`, `panic!`, `unwrap` on a failed
operation) become an explicit failure result where the source checks a
condition: `None`, `false` or an error value. An out-of-range index that
would panic becomes a precondition.

## Model

| member | source | states |
|---|---|---|
| Bytes.LeBytes | src/table.rs:147-155 | a u32 is written as exactly 4 bytes |
| Bytes.LeValue | src/table.rs:140-145 | reading 4 little-endian bytes gives a u32 whose low byte is the first byte |
| Bytes.DecodeEncode | src/table.rs:140-155 | reading back a written u32 gives the same value |
| Bytes.EncodeDecode | src/table.rs:140-155 | re-encoding 4 read bytes gives the same bytes |
| Bytes.WriteU32 | src/table.rs:147-155 | writing a u32 at a position makes it read back there and leaves every other byte unchanged |
| Bytes.Overwrite | c/db.c:72-76 | copying bytes into a buffer places them at the offset and keeps all other bytes |
| Bytes.Memcpy | c/db.c:73-75 | `memcpy` into a buffer changes the buffer to exactly the overwritten sequence |
| Bytes.OverwriteConcat | c/db.c:73-75 | two adjacent copies equal one copy of the concatenation |
| Bytes.WriteU32IsOverwrite | c/db.c:73 | storing a u32 equals copying its 4 little-endian bytes |
| Layout.ConstantValues | c/db.c:113-144 | the offsets and sizes are 0, 4, 37, 293, 6, 10, 297, 4086, 13, and the split counts are 7 and 7 |
| Layout.CellsFitInPage | c/db.c:141-144 | 13 cells fit in the cell space of a page and a 14th does not |
| Layout.CellOffset | c/db.c:151-153 | cell `i` lies after the header, and each of the 13 cells lies within the page |
| Layout.CellsDisjoint | c/db.c:151-161 | distinct cells do not overlap; the key is at the cell start and the value 4 bytes after it, ending where the next cell begins |
| RowCodec.Padded | src/table.rs:112-127 | a padded field starts with the string and is zero-filled to the width |
| RowCodec.SerializedRow | src/table.rs:81-93 | a serialized row is exactly 293 bytes: the id at 0, the zero-padded username in bytes 4..37, the zero-padded email in bytes 37..293 |
| RowCodec.WriteString | src/table.rs:112-127 | the copy loop writes the string followed by zeros up to the field width, and nothing else |
| RowCodec.Serialize | src/table.rs:81-93 | serialization produces the row image |
| RowCodec.TakeUntilZero | src/table.rs:129-137 | the result is the longest zero-free prefix, and it stops at a 0 byte when one follows |
| RowCodec.TakeUntilZeroUnique | src/table.rs:129-137 | any zero-free prefix followed by a 0 (or the end) is the string read |
| RowCodec.ReadString | src/table.rs:129-137 | the read loop stops at the first 0 byte or at the field width |
| RowCodec.DecodeRow | src/table.rs:95-110 | decoding gives the id at offset 0 and fields no longer than their widths, without 0 bytes |
| RowCodec.Deserialize | src/table.rs:95-110 | deserialization at a position decodes the 293 bytes there |
| RowCodec.ReadBackPadded | src/table.rs:112-137 | a zero-free string padded to its width reads back unchanged |
| RowCodec.RoundTrip | src/table.rs:81-137 | `deserialize(serialize(r)) == r` when the username has ≤ 32 bytes, the email ≤ 255 and neither holds a 0 byte |
| RowCodec.RoundTripExactly | src/table.rs:81-137 | for fields within their widths, the round trip holds if and only if neither field holds a 0 byte |
| RowCodec.LongUsernameTruncated | src/table.rs:81-93 | a username longer than its 33-byte field is cut short by the email write and does not round-trip |
| CRow.Image | c/db.c:72-76 | the stored row is 293 bytes: id at 0, the full 33-byte username at 4 and the full 256-byte email at 37 |
| CRow.Decode | c/db.c:78-82 | reading 293 bytes always gives a row with full-width fields |
| CRow.DecodeImage | c/db.c:72-82 | `deserialize_row(serialize_row(r))` reproduces every field byte for byte |
| CRow.ImageDecode | c/db.c:72-82 | serializing what was deserialized reproduces the 293 bytes |
| CRow.SerializeRow | c/db.c:72-76 | `serialize_row` writes the row image at the destination and touches no other byte |
| CRow.DeserializeRow | c/db.c:78-82 | `deserialize_row` decodes the 293 bytes at the source |
| CRow.StoreLoad | c/db.c:72-82 | a row stored into a buffer is read back from the same offset |
| CRow.SameLayoutAsRust | src/table.rs:81-93 | the C image of a row with padded fields equals the Rust serialization of that row |
| LeafNode.WriteNumCells | src/table.rs:147-155 | writing the cell count makes it read back and only bytes 6..10 change |
| LeafNode.GetNodeType | src/table.rs:221-228 | the node type is read from byte 0; a byte other than 0 or 1 is a failure |
| LeafNode.SetNodeType | src/table.rs:230-235 | setting the node type makes it read back and only byte 0 changes |
| LeafNode.SetNodeRoot | src/table.rs:253-259 | setting the root flag makes it read back and only byte 1 changes |
| LeafNode.InitializeLeafNode | src/table.rs:261-265 | an initialized node is a leaf, not the root, with 0 cells; the parent pointer and cells are kept |
| LeafNode.WriteLeafNodeKey | src/table.rs:305-314 | writing a cell key makes it read back and only the 4 key bytes of that cell change |
| LeafNode.LeafNodeValue | src/table.rs:287-295 | a cell value is 293 bytes |
| LeafNode.CellAt | c/db.c:151-153 | a cell is 297 bytes |
| LeafNode.KeyValueRoundTrip | src/table.rs:720-732 | writing the key and then the value of a cell reads back both |
| LeafNode.MakeCell | c/db.c:155-161 | a cell holds the key in its first 4 bytes and the value after it |
| LeafNode.CellParts | c/db.c:151-161 | a cell is exactly its key followed by its value |
| LeafNode.Keys | src/table.rs:316-324 | the keys of a leaf are its cell keys in cell order, one per cell |
| LeafNode.Values | src/table.rs:287-295 | the values of a leaf are its cell values in cell order, one per cell |
| LeafNode.InsertCell | src/table.rs:401-429 | inserting a cell into a non-full leaf gives a page of 4096 bytes with one more cell |
| LeafNode.InsertCellCells | src/table.rs:401-429 | after the insert: header bytes 0..6 are kept, the new cell is at `cell_num`, cells below it are kept, cell j in (`cell_num`, n] holds old cell j−1, and bytes after cell n are kept |
| LeafNode.PageExtensionality | src/table.rs:401-429 | two pages with the same header, count, first n cells and tail are equal |
| LeafNode.InsertCellContents | src/table.rs:401-429 | after the insert the keys and values are the old ones with the new key and row spliced in at `cell_num` |
| LeafNode.WriteCellParts | src/table.rs:423-427 | writing a key and then a value equals writing the whole cell |
| LeafNode.InsertSteps | c/db.c:251-260 | shifting the cells, raising the count, writing the key and then the row gives exactly the specified insert |
| RustLeaf.WriteLeafNodeValue | src/table.rs:297-303 | writing a cell value changes only that value, and a 293-byte value reads back |
| RustLeaf.CopyLeafNodeCell | src/table.rs:273-279 | copying a cell overwrites the destination cell with the source cell and nothing else |
| RustLeaf.LeafNodeInsertPage | src/table.rs:401-429 | the reverse shift loop over a page copy, followed by the count, key and row writes, produces exactly `InsertCell` |
| RustLeaf.SplitSource | src/table.rs:347-391 | the 14 cells to distribute are the old cells below `cell_num`, then the new cell, then the old cells from `cell_num` on |
| RustLeaf.PlacedIsSource | src/table.rs:355-391 | each step of the reverse loop copies the cell of the combined sequence that belongs at that index |
| RustLeaf.LeafNodeSplit | src/table.rs:347-391 | the first 7 combined cells end up in the old page and the last 7 in the new page; both counts become 7; headers and bytes after the cells are kept |
| RustLeaf.LowerBound | src/table.rs:527-557 | the lower bound lies in [0, n]; all keys before it are smaller than the key, and the key there (if any) is not smaller |
| RustLeaf.LowerBoundUnique | src/table.rs:527-557 | a position with those two properties is the lower bound |
| RustLeaf.LowerBoundFinds | src/table.rs:527-557 | on ascending keys, a key is present if and only if the lower bound holds it |
| RustLeaf.InsertAtLowerBound | src/table.rs:527-557 | placing a new key at its lower bound keeps the keys strictly ascending |
| RustLeaf.SearchResultIsLowerBound | src/table.rs:527-557 | on strictly ascending keys, the binary search result is the lower bound: keys before it are smaller and keys at or after it are not |
| RustLeaf.LeafNodeFind | src/table.rs:527-557 | the binary search terminates with a result in [0, num_cells]; a result found inside the loop holds the key, otherwise it is the insertion point |
| DbFile.PagesDisjoint | src/table.rs:649-651 | the 4096 bytes of page p end at or before the offset of every later page, so pages never overlap in the file |
| DbFile.FilePage | src/table.rs:642-658 | a page read from the file is 4096 bytes: the file bytes at that offset, zero past the end of the file |
| DbFile.RoundedPages | c/db.c:220-225 | the page count is the file length divided by 4096, rounded up |
| DbFile.WriteAt | src/table.rs:608-627 | writing at an offset places the data there, keeps the other bytes and zero-fills a gap past the old end |
| DbFile.WriteThenRead | src/table.rs:608-658 | a flushed page reads back from the file |
| DbFile.WriteKeeps | src/table.rs:608-627 | flushing one page leaves another page's bytes unchanged |
| DbFile.FlushUpTo | src/table.rs:559-568 | flushing the resident pages below a limit never shrinks the file |
| DbFile.FlushedPageHolds | src/table.rs:559-568 | after flushing, each resident page below the limit is in the file at its offset |
| DbFile.FlushedPagesReadBack | src/table.rs:559-568 | after flushing, each resident page below the limit reads back from the file |
| RustPager.LoadedPage | src/table.rs:642-658 | a loaded page is 4096 bytes |
| RustPager.LoadedIsFilePage | src/table.rs:642-658 | the page `_load_page` builds is the page read from the file at its offset |
| RustPager.Pager.Open | src/table.rs:582-606 | opening succeeds exactly when the file is a whole number of pages; every page then reads as the file's page and the page count is the file length over 4096 |
| RustPager.Pager.LoadPage | src/table.rs:642-658 | loading puts the file's page into its slot and changes no other slot |
| RustPager.Pager.GetPage | src/table.rs:671-684 | pages ≥ 100 fail; otherwise the slot holds the page; a resident page is returned without reloading; no other slot changes |
| RustPager.Pager.WritePage | src/table.rs:423-428 | writing back a page changes only that page |
| RustPager.Pager.FlushPage | src/table.rs:608-627 | flushing a resident page writes it at its offset; flushing an empty slot fails and changes nothing |
| RustPager.Pager.FlushSlots | src/table.rs:559-568 | the flush loop writes every resident page below the limit, in index order |
| RustTable.StoredRows | src/table.rs:342-345 | the rows of a leaf are its decoded cell values in cell order |
| RustTable.Table.New | src/table.rs:450-461 | opening a file with whole pages succeeds; an empty file gets a leaf root with 0 cells that is not marked as root |
| RustTable.Table.Start | src/table.rs:497-511 | the start cursor is at cell 0 of the root and at the end exactly when the root has 0 cells; no page changes |
| RustTable.Table.LeafNodeFind | src/table.rs:527-557 | the cursor is at the binary search position in the leaf, not at the end; no page changes |
| RustTable.Table.FindNode | src/table.rs:513-525 | a leaf root gives a cursor at the lower bound of the key; an internal root is a failure |
| RustTable.Table.FlushAllAsWritten | src/table.rs:559-568 | as written, only slots below the page count at open are flushed |
| RustTable.Table.FlushAll | src/table.rs:559-568 | every resident page is flushed and reads back from the file |
| RustTable.Cursor.GetRow | src/table.rs:335-345 | the row at the cursor is the decoded value of its cell; no page changes |
| RustTable.Cursor.Advance | src/table.rs:431-440 | the cell number grows by exactly 1; the end flag is set once it reaches the count and is never cleared |
| RustTable.Cursor.LeafNodeInsert | src/table.rs:401-429 | on a non-full leaf the page becomes `InsertCell` of the key and serialized row; a full leaf is reported and not changed; no other page changes |
| RustExecutor.SortedInsert | src/main.rs:118 | inserting a key at its find position adds exactly one key |
| RustExecutor.SortedInsertContents | src/main.rs:118 | inserting a new key into strictly ascending keys keeps them strictly ascending and adds exactly that key |
| RustExecutor.InsertOrderIrrelevant | test.py:132-150 | inserting 3, 1 and 2 stores 1, 2, 3 |
| RustExecutor.TypeFromHeader | src/table.rs:221-228 | the node type depends only on the header, which an insert keeps |
| RustExecutor.InsertedRoot | src/main.rs:112-119 | inserting a new key at its find position gives a leaf with ascending keys and the row added |
| RustExecutor.DuplicateOutcome | src/main.rs:112-117 | a key already at the find position gives DuplicateKey and leaves the root unchanged |
| RustExecutor.NotAtFindPosition | src/main.rs:112-117 | on ascending keys, a key not at its find position is not in the node |
| RustExecutor.InsertAtFindPosition | src/main.rs:118 | the second `find_node` and the cursor insert store the row at the lower bound |
| RustExecutor.ExecuteInsert | src/main.rs:102-120 | a full root gives TableFull with nothing changed; a key at the find position gives DuplicateKey with nothing changed; otherwise the row is inserted in key order; a non-leaf root is a failure |
| RustExecutor.ExecuteSelect | src/main.rs:122-130 | the select loop visits cells 0..n−1 in order, returns their rows and changes no page |
| RustExecutor.FlushKeepsWholePages | src/table.rs:608-627 | flushing whole pages keeps the file a whole number of pages |
| RustExecutor.DbClose | src/main.rs:143-145 | with the corrected `flush_all` (see Findings), closing writes every resident page, which then reads back from the file, and a file of whole pages stays one |
| RustExecutor.DbCloseAsWritten | src/main.rs:143-145 | with `flush_all` as written, closing writes only the resident pages below `num_pages`, which read back from the file; a file opened empty is left as it was |
| RustExecutor.CloseAndReopen | test.py:93-113 | with the corrected `flush_all` (see Findings), closing and reopening gives back every page that was resident |
| RustExecutor.FlushAsWrittenLosesFreshTable | src/table.rs:559-568 | for a database created empty, the as-written flush writes nothing, so the root page is lost |
| RustStatement.TokenLength | src/main.rs:57 | a token runs up to the first whitespace character |
| RustStatement.SplitWhitespace | src/main.rs:57 | every token is non-empty and holds no whitespace |
| RustStatement.Trim | src/main.rs:57 | trimming removes leading and trailing whitespace |
| RustStatement.SplitIgnoresTrailing | src/main.rs:57 | one whitespace character appended does not change the tokens |
| RustStatement.SplitIgnoresWhitespaceSuffix | src/main.rs:57 | any run of whitespace appended does not change the tokens |
| RustStatement.SplitTrim | src/main.rs:57 | splitting the trimmed input gives the same tokens as splitting the input |
| RustStatement.SplitJoin | src/main.rs:57 | splitting tokens joined by single spaces gives back the tokens |
| RustStatement.ParseU32 | src/main.rs:62-68 | parsing succeeds exactly on an optional `+` followed by digits whose value fits in a u32, and never on a leading `-` |
| RustStatement.Decimal | src/main.rs:62 | the decimal form of a number is non-empty digits with no sign |
| RustStatement.ParseDecimal | src/main.rs:62 | parsing the decimal form of a u32 gives it back |
| RustStatement.DecimalValue | src/main.rs:62 | the digits of a decimal form have its value |
| RustStatement.Utf8Char | src/main.rs:70-77 | a character is 1 to 4 bytes, a single byte exactly for ASCII, and starts with 0 only for NUL |
| RustStatement.Utf8 | src/main.rs:70-77 | a string is at least as many bytes as characters |
| RustStatement.AsciiLength | test.py:49-78 | an ASCII string has one byte per character |
| RustStatement.Utf8NoZero | src/table.rs:81-137 | the bytes of a string hold no 0 exactly when it holds no NUL character |
| RustStatement.PrepareInsert | src/main.rs:56-84 | a prepared insert has fields within the column widths, and its errors are never UnrecognizedStatement |
| RustStatement.PrepareStatement | src/main.rs:86-94 | a `select` prefix gives Select; an `insert` prefix gives what `prepare_insert` gives for the input; anything that starts with neither gives UnrecognizedStatement |
| RustStatement.PrepareInsertOutcomes | src/main.rs:56-84 | fewer than 4 tokens give SyntaxError; a bad id gives NegativeID when it starts with `-` and SyntaxError otherwise; a field over 32 or 255 bytes gives StringTooLong; otherwise the row is the parsed id and the two tokens |
| RustStatement.InsertRoundTrip | src/main.rs:78-83 | an insert line built from an id, a username and an email within the limits prepares that row; extra tokens are ignored |
| RustStatement.InsertLine | src/main.rs:86-91 | an `insert` line goes to `prepare_insert`, which sees exactly its four tokens |
| RustStatement.LengthLimits | test.py:49-78 | ASCII fields of exactly 32 and 255 characters are accepted, and longer ones give StringTooLong |
| RustStatement.PreparedRowRoundTrips | src/table.rs:81-137 | a row prepared from input without NUL characters survives the codec round trip |
| RustStatement.TokensFromInput | src/main.rs:57 | tokens of an input without NUL hold no NUL |
| RustStatement.NegativeIdRejected | test.py:80-91 | an insert with id `-1` gives NegativeID |
| CLeafNode.SetNumCells | c/db.c:147-149 | storing the count through the pointer changes the buffer to the page with that count |
| CLeafNode.SetKey | c/db.c:155-157 | storing a key through the pointer changes only that key |
| CLeafNode.InitializeLeafNode | c/db.c:163 | only the cell count is set, to 0; no other byte changes |
| CLeafNode.ShiftedPage | c/db.c:252-256 | the page after shifting the cells is 4096 bytes |
| CLeafNode.ShiftOnce | c/db.c:253-254 | one step of the reverse loop moves cell i−1 into cell i and extends the shifted range by one |
| CLeafNode.ShiftCells | c/db.c:250-256 | the reverse `memcpy` loop moves cells [cell_num, n) up one slot, highest first |
| CLeafNode.ShiftedThenInserted | c/db.c:250-260 | shifting and then writing count, key and row gives exactly `InsertCell` |
| CLeafNode.FillCell | c/db.c:258-260 | raising the count and writing the key and row changes the page as specified |
| CLeafNode.InsertIntoPage | c/db.c:241-261 | `leaf_node_insert` on a non-full node changes the buffer to exactly `InsertCell` of the key and serialized row |
| CLeafNode.AppendContents | c/db.c:276-286 | appending at the end keeps the old keys and values and adds the new ones last |
| CPager.FileLength32 | c/db.c:181 | the file length is kept modulo 2^32, as `off_t` is stored in a `uint32_t` |
| CPager.ReadBytes | c/db.c:228-229 | a read returns at most 4096 bytes, the file bytes at the page offset, stopping at the end of the file |
| CPager.ReadBytesInFilePage | c/db.c:228-229 | the bytes read are the start of the file page, and the rest of that page is zero |
| CPager.GetPageGuardAdmitsMissingSlot | c/db.c:212 | for a pager in its valid state, the bound check as written lets through the page number equal to the number of slots, which indexes one past the end of `pages` |
| CPager.Pager.Snapshot | c/db.c:87-92 | the cache seen as values has 100 slots, empty exactly where the pointer is NULL |
| CPager.Pager.constructor | c/db.c:165-187 | a new pager records the file and its length, and all 100 slots are NULL |
| CPager.Pager.GetPage | c/db.c:211-239 | pages ≥ 100 fail; a hit returns the same buffer and changes no slot; a miss installs one fresh buffer in that slot only, and it holds the file's bytes when the page is within the rounded-up page count, the whole file page when the file holds all of it |
| CPager.Pager.ReadInto | c/db.c:228-233 | the bytes the file holds from the page's offset, at most a page, go to the start of the buffer; a page the file holds whole fills it |
| CPager.Pager.Flush | c/db.c:189-209 | flushing a resident page writes it at its offset; a NULL slot fails and changes nothing |
| CTable.StoredRows | c/db.c:418-430 | the rows of a leaf are its decoded cell values in cell order |
| CTable.Appended | c/db.c:402-416 | appending a row gives a leaf with one more cell |
| CTable.AppendedRows | c/db.c:402-416 | appending a row adds it after the stored rows |
| CTable.AppendedAll | c/db.c:402-416 | a series of appends adds one cell per row |
| CTable.SelectAfterInserts | test.py:35-47 | after appending rows one by one, the stored rows are the old rows followed by the new ones in insertion order |
| CTable.Table.Start | c/db.c:263-274 | the start cursor is at cell 0 and at the end exactly when the root has 0 cells; the root becomes resident, with the bytes it was known to have |
| CTable.Table.End | c/db.c:276-286 | the end cursor is at cell `num_cells` with the end flag set; the root becomes resident, with the bytes it was known to have |
| CTable.Cursor.Value | c/db.c:314-318 | the value is the buffer of the cursor's page at the offset of the cursor's cell value |
| CTable.Cursor.Advance | c/db.c:320-328 | the cell number grows by 1; the end flag is set once it reaches the count and is never cleared |
| CTable.Cursor.LeafNodeInsert | c/db.c:241-261 | a full node is a failure and unchanged; otherwise the page becomes `InsertCell` at the cursor's cell; no slot changes |
| CTable.DbOpen | c/db.c:441-453 | opening records the file; with a page count of 0 the root is loaded and initialized with no rows; otherwise no page is loaded and the root is page 0 of the file, known exactly when the file holds a whole page |
| CTable.ExecuteInsert | c/db.c:402-416 | on a root that is resident or read whole from the file: a root with ≥ 13 cells gives TableFull with its bytes unchanged; otherwise the row is appended after the stored rows; only the root's slot may change, from NULL to a fresh buffer |
| CTable.ExecuteSelect | c/db.c:418-430 | on a root that is resident or read whole from the file, returns the stored rows in cell order; the root's bytes do not change and only its slot may go from NULL to a fresh buffer |
| CTable.ScanRows | c/db.c:422-426 | the cursor loop over a resident root returns the rows of cells 0..n−1 in order and changes no slot |
| CTable.FlushAndRelease | c/db.c:290-297 | the first loop writes each resident page below `num_pages` at its offset, in increasing order, and empties its slot; the other slots are kept |
| CTable.DbClose | c/db.c:288-312 | every resident page below `num_pages` is flushed once and then reads back from the file; afterwards the slots are NULL (all of them when `close` succeeds) |

## Left out

- Real file I/O: open, seek, read, write, close and file metadata. The file is a byte sequence. Open failures, short reads and writes, and write errors are not modelled, except that the result of `close` in `db_close` is a parameter.
- Console I/O: the REPL, `main`, `do_meta_command`, `read_input`, `print_row`, `print_leaf_node`, `print_constants` and the messages printed before an exit.
- The C `prepare_insert` and `prepare_statement`: they rely on `strtok`'s hidden state and on `atoi`, whose overflow is undefined.
- `create_new_root`, `new_leaf_node`, `get_unused_page_num`, `write_internal_node_child`, `get_node_max_key`, `copy_page`, `initialize_internal_node`, the internal-node accessors and `get_immutable_page`: the internal-node side of the tree is not modelled.
- RustLeaf.LeafNodeSplit: models the distribution of the 14 cells over two page values only. Allocating the new page and creating the new root or updating the parent are not modelled.
- RustTable.Cursor.LeafNodeInsert: reports a full leaf instead of calling the split, because the split's page allocation and root creation are not modelled. `execute_insert` checks for a full root first, so the split is unreachable from the executor anyway.
- RustTable.Table.FindNode: an internal root is reported as a failure; the source panics there.
- UTF-8 decoding in `read_string` (`String::from_utf8(...).unwrap()`): the Rust row fields are byte sequences, so invalid UTF-8 read from a file is not modelled.
- CPager.Pager.GetPage: the contents of a buffer that `malloc` returns are unknown, so a page past the end of the file is not promised to be zero.
- CTable.ExecuteInsert and CTable.ExecuteSelect: require the root page to be resident or the file to hold all 4096 bytes of page 0. With a shorter file and no resident root, part of the root is whatever `malloc` left in the buffer, so nothing is promised.
- RustExecutor.DbClose: models `db_close` with the corrected `flush_all` over every slot. The code as written is RustExecutor.DbCloseAsWritten, which loses the pages at or above `num_pages` (see Findings).
- CPager.Pager.constructor: `num_pages` is never assigned in `pager_open`, so it is a parameter of the constructor. CTable.DbClose requires it to be at most 100, since the loop indexes the 100-entry table with it.
- Bytes.LeValue: states the low byte only; the full value is fixed by the round-trip lemmas beside it.
- 32-bit wrap-around of the cursor's cell number and of the cell count is not modelled; both stay at most 14.
- Freeing memory (`free`) is not modelled; a freed slot is a NULL slot.

## Findings

| source | as written | input that shows it | evidently intended | confidence | as-written member | corrected member |
|---|---|---|---|---|---|---|
| c/db.c:212 | the guard `page_num > TABLE_MAX_PAGES` lets page 100 through, and `pages[100]` is one past the end of the 100-entry table (src/table.rs:672 has the same guard) | `get_page(pager, 100)` | reject every page number ≥ 100 | high (not executed) | CPager.GetPageGuardAdmitsMissingSlot | CPager.Pager.GetPage |
| src/table.rs:559-568 | `flush_all` loops over `0..num_pages`, and `num_pages` is the page count at open, never updated | open an empty file, insert a row, close: page 0 is never written | flush every resident page | high (not executed) | RustExecutor.FlushAsWrittenLosesFreshTable | RustTable.Table.FlushAll |
