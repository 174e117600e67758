# kibi core in Dafny

This project models the editing core of kibi, a small terminal text editor.
The core has three parts:

- **The row** (`Row`, module `Rows`). One line of text, stored as its string together with a cached count of the string's grapheme clusters. Every row operation walks the row's clusters. The operations are:
  - `from`: builds a row from a string;
  - `insert`: inserts a character before a cluster, or at the end when the index is past the end;
  - `delete`: removes a cluster, and does nothing when the index is out of range;
  - `split`: keeps a prefix of the row and returns the rest as a new row;
  - `append`: adds another row's text and count;
  - `render`: returns a window of clusters for display, with each tab shown as one space.
- **The document** (`Document`, module `Documents`). An ordered list of rows, an optional file name and a dirty flag. Its edits take an `(x, y)` cursor position:
  - `insert` writes into row `y`, or appends a new row when `y` is one past the last row.
  - `delete` removes a cluster. At the end of a row that has a successor, it joins the two rows instead.
  - `new_line` splits row `y` and inserts its tail after it. One past the last row, it appends an empty row.
  - Opening splits the file's text the way Rust's `str::lines` does (module `Persistence`).
  - Saving writes each row's text, with a line feed between consecutive rows.
- **The editor** (`Editor`, module `Editors`). The cursor moves inside the terminal: columns `0 ..= width - 1` and rows `0 ..= height - 1`, each bound saturating at zero. `handle_key_press` dispatches a key: Ctrl+q quits, the eight movement keys move the cursor, and every other key is ignored.

## How the model represents the system

- **Rows.** A row's string is held as its sequence of clusters (`Graphemes.Grapheme`, a non-empty string in which a tab only ever stands alone). `len` is a separate field. It is written exactly where the source writes it, and `Row.Valid()` states that it equals the cluster count.
- **Documents.** A document's `rows` is a sequence of `Row` objects. A ghost field `lines` holds each row's clusters, so the contracts of the document's edits are stated over `lines`.
- **Row lifecycle.** The document's rows are pairwise distinct objects. They are created by `Row.From`, `Row.Default` and `Row.Split`, and they are updated in place. A ghost set `Repr` holds every row object the document owns. The edits may change only the document and `Repr`, and any rows they add to `Repr` are fresh, so a caller can go on editing the same document (`NewLineThenDelete`).
- **Side effects as parameters.** File contents and I/O outcomes are parameters:
  - `Open` receives the outcome of reading the file.
  - `Save` receives `failAt`, the index of the first I/O call that fails, if any. Call 0 is the file's creation; then come the writes, in order.
  - The editor receives the terminal size.
- **Save and load round trip.**
  - Saving writes exactly the rows' texts joined by single line feeds (`WritesJoin`, `AllWritten`).
  - Loading that text gives the rows back (`LinesOfJoin`) if three conditions hold: no row holds a line feed, no row except the last ends in a carriage return, and the last row is not empty.
  - Outside those conditions the rows can change. For example, a trailing empty row is lost (`TrailingEmptyRowIsLost`), and a document made of a single empty row saves to the empty file, which loads as no rows at all (`SingleEmptyRowIsLost`). A row other than the last that ends in a carriage return loses it too: it is saved just before a line feed, and the loader strips a carriage return there.
- **Render clamp.** `render` clamps `end` to the string's UTF-8 byte length, not to its cluster count. Every cluster is at least one byte, so the result is still the clusters with index in `[start, min(end, count))`. `Render` computes the byte length and proves this.
- **Dirty flag.** `new_line` never touches the dirty flag, unlike `insert` and `delete`. The model keeps that: `NewLine` ensures `dirty == old(dirty)`.

## Model

| member | source | states |
|---|---|---|
| Graphemes.Segment | src/row.rs:14 | the clusters of a string concatenate back to that string, and there are no more clusters than characters |
| Graphemes.ConcatAppend | src/row.rs:107-110 | the text of two cluster sequences put together is the two texts concatenated |
| Graphemes.ConcatLength | src/row.rs:14 | a string has at least as many characters as clusters |
| Graphemes.ByteLengthAtLeastCount | src/row.rs:21 | the UTF-8 byte length of a row's string is at least its cluster count |
| Graphemes.Utf8LengthAtLeastChars | src/row.rs:21 | the UTF-8 byte length of a string is at least its character count |
| Rows.Inserted | src/row.rs:40-58 | inserting gives one more cluster: the new one at min(i, len), with the clusters before and after it kept in order |
| Rows.Deleted | src/row.rs:60-75 | an out-of-range index leaves the clusters unchanged; otherwise cluster i is removed and the rest keep their order |
| Rows.Head | src/row.rs:77-97 | the kept part of a split is the first min(i, len) clusters, unchanged |
| Rows.Tail | src/row.rs:77-97 | the returned part of a split is the clusters from min(i, len) on, unchanged |
| Rows.Display | src/row.rs:30-35 | a displayed cluster contains no tab and has the cluster's length |
| Rows.Window | src/row.rs:21-28 | the rendered window is the clusters in [min(start, hi), hi) with hi = min(end, count), and it is empty when start >= end |
| Rows.InsertThenDelete | src/row.rs:40-75 | deleting the cluster just inserted gives the row back |
| Rows.DeleteThenInsert | src/row.rs:40-75 | a delete at i < len followed by an insert of any c at i changes cluster i alone, which becomes c |
| Rows.DeleteThenReinsert | src/row.rs:40-75 | re-inserting a deleted one-character cluster at its index gives the row back |
| Rows.SplitRejoins | src/row.rs:77-97 | the two parts of a split concatenate to the original row, and their lengths sum to the original length |
| Rows.ShownHasNoTab | src/row.rs:30-35 | rendered text contains no tab and has as many characters as the clusters' text |
| Rows.ShownWithoutTabs | src/row.rs:30-35 | a window without tab clusters is rendered as exactly its own text |
| Rows.Row.Default | src/row.rs:4-8 | the default row is empty, with count 0 |
| Rows.Row.From | src/row.rs:10-17 | the row holds the string's clusters, its text is the string, and its count is the number of clusters |
| Rows.Row.Len | src/row.rs:112-114 | returns the cluster count |
| Rows.Row.IsEmpty | src/row.rs:116-118 | holds iff the row has no clusters |
| Rows.Row.Render | src/row.rs:20-38 | the result is the window of clusters in [start, min(end, count)) with tabs shown as spaces; it contains no tab; it is empty when start >= end; the row is not changed |
| Rows.Row.Insert | src/row.rs:40-58 | the clusters become Inserted(old, index, c) and the count stays equal to the cluster count, so it grows by exactly one |
| Rows.Row.Delete | src/row.rs:60-75 | the clusters become Deleted(old, index); the count stays equal to the cluster count, so it drops by one, or is unchanged when index >= len |
| Rows.Row.Split | src/row.rs:77-97 | the row keeps Head(old, index); the fresh returned row holds Tail(old, index); both counts are consistent |
| Rows.Row.Append | src/row.rs:107-110 | the clusters become self ++ other, the count becomes the sum of both counts, and the text is the concatenation of both texts |
| Persistence.Lines | src/document.rs:17 | no loaded line contains a line feed, and a text has no lines iff it is empty |
| Persistence.Writes | src/document.rs:80-85 | n rows are written in 2n - 1 chunks, and an empty document is written in none |
| Persistence.WritesJoin | src/document.rs:80-85 | the concatenated writes are the row texts joined by single line feeds, with no trailing one |
| Persistence.WritesRow | src/document.rs:81 | write 2i is row i's text |
| Persistence.WritesFeedAt | src/document.rs:82-84 | write 2i + 1 is the line feed between rows i and i + 1 |
| Persistence.LinesOfJoin | src/document.rs:17-19 | loading the saved text of rows that hold no line feed, whose inner rows do not end in CR and whose last row is non-empty, gives the rows back |
| Persistence.JoinOfLines | src/document.rs:17-19 | saving the lines of a text without CR and without a final line feed writes that text back |
| Persistence.LinesOfTerminatedJoin | src/document.rs:17-19 | a final line feed after the joined rows is read as a terminator, not as an empty row |
| Persistence.TrailingEmptyRowIsLost | src/document.rs:80-85 | a trailing empty row saves as a final line feed and is not read back |
| Persistence.SingleEmptyRowIsLost | src/document.rs:80-85 | a document of one empty row saves to the empty file, which loads as no rows |
| Persistence.AllWritten | src/document.rs:80-85 | after every write the file holds the joined text |
| Documents.Merged | src/document.rs:52-55 | row y becomes row y ++ row y + 1, rows before it are kept, later rows move up by one, and the count drops by one |
| Documents.SplitAt | src/document.rs:70-73 | row y becomes Head(row y, x), the new row y + 1 is Tail(row y, x), their concatenation is the old row y, and later rows move down by one |
| Documents.SplitThenMerge | src/document.rs:52-55 | for x <= len(row y), a line break at (x, y) leaves row y of length x, and a delete there then restores the original rows |
| Documents.MergeThenSplit | src/document.rs:52-55 | a line break where two rows were joined separates them again |
| Documents.LoadedTexts | src/document.rs:17-19 | the rows built from the loaded lines hold exactly those lines' texts |
| Documents.LoadRows | src/document.rs:16-19 | one consistent row per line, holding that line's clusters, with no row object shared, all of them fresh |
| Documents.Document.Default | src/document.rs:6-11 | the default document has no rows, no file name, is not dirty and owns no row objects |
| Documents.Document.Open | src/document.rs:14-25 | a read error is passed on; otherwise the document has one row per line of the text, named after the file and not dirty, and the rows' texts are the lines read; the document owns only fresh rows |
| Documents.Document.Len | src/document.rs:104-106 | returns the number of rows |
| Documents.Document.IsEmpty | src/document.rs:96-98 | holds iff there are no rows |
| Documents.Document.RowAt | src/document.rs:92-94 | absent iff the index is at or past the row count; otherwise it is the row at that index |
| Documents.Document.Insert | src/document.rs:27-42 | past the end nothing changes, not even dirty; one past the last row a new row [c] is appended; otherwise only row y changes, as Row.Insert; dirty is set in both edit cases and earlier rows stay the same objects and any new row is fresh |
| Documents.Document.Delete | src/document.rs:44-60 | at or past the row count nothing changes; at the end of a row with a successor the rows are Merged; otherwise only row y changes, as Row.Delete; dirty is set whenever y is in range, even if the row does not change |
| Documents.Document.NewLine | src/document.rs:62-75 | past the end nothing changes; one past the last row an empty row is appended; otherwise the rows become SplitAt(rows, y, x); dirty is never changed |
| Documents.NewLineThenDelete | src/document.rs:44-75 | on a consistent document, a line break followed by a delete at the same position leaves the rows as they were, and the document dirty |
| Documents.Document.Save | src/document.rs:77-90 | without a file name, the result is success, no file is created and dirty is unchanged; a failed creation is an error; if all writes succeed, the file holds the joined rows and dirty is cleared; at the first failing write, an error is returned, the file holds the writes before it, and dirty is unchanged |
| Documents.WriteRow | src/document.rs:81-84 | one round of the loop: row i's text as I/O call 2i + 1 and, unless row i is the last, a line feed as call 2i + 2; it succeeds iff none of its writes fails, and the file then holds the writes up to and including the round's, or up to the failing write |
| Documents.WriteRows | src/document.rs:80-85 | the writes succeed iff no write call fails; on success the content is the joined row texts, and on failure it is the writes before the failing one |
| Editors.MovedStaysInBounds | src/editor.rs:117-150 | a cursor within [0, width - 1] x [0, height - 1] stays there after any key |
| Editors.MovedIsDeterministic | src/editor.rs:117-150 | each key takes the cursor to exactly one position |
| Editors.MovesUndo | src/editor.rs:124-137 | away from the bottom and right edges, Up undoes Down and Left undoes Right |
| Editors.Editor.Start | src/editor.rs:38-43 | a new session is not quitting and its cursor is at (0, 0) |
| Editors.Editor.MoveCursor | src/editor.rs:117-150 | Up and Left decrement, saturating at 0; Down and Right increment only below height - 1 and width - 1; PageUp and PageDown set y to 0 and height - 1; Home and End set x to 0 and width - 1; any other key leaves the position; bounds are kept |
| Editors.Editor.HandleKeyPress | src/editor.rs:152-181 | Ctrl+q alone sets the quit flag without moving; the eight movement keys move as MoveCursor does; every other key changes neither the position nor the quit flag |

## Left out

- Terminal I/O is not part of this model: src/terminal.rs, src/main.rs, and `run`, `refresh_screen`, `draw_rows`, `draw_row` and `draw_welcome_message` in src/editor.rs. They print to the terminal and read events. The terminal size becomes a parameter of `MoveCursor` and `HandleKeyPress`.
- The filter in `run` that keeps only key presses (`KeyEventKind::Press`) is not modelled, since it belongs to the event loop. `HandleKeyPress` receives only presses.
- `Editor::default` reads the process arguments and opens a file. Only its initial state is modelled (`Editor.Start`). The terminal and document fields of `Editor` are not modelled.
- The file system is not modelled. `fs::read_to_string` becomes `Open`'s `read` parameter, and `File::create` and `write_all` become `Save`'s `failAt` parameter.
- A `write_all` that fails partway through is modelled as writing nothing.
- `Row::as_bytes` is not modelled: it gives the row's UTF-8 bytes for writing. Files are modelled as strings, and a row's text stands for its bytes.
- `Row::is_alphanumeric` is not modelled. It indexes by `char`, relies on Unicode's alphanumeric property tables, and panics when the index is out of range.
- `Document::is_dirty` is not modelled as a separate member. It only returns the `dirty` field, which every contract names directly.
- Graphemes.Segment: it does not implement the full Unicode Annex #29 segmentation. It keeps CR LF together and attaches combining marks (U+0300 to U+036F), the zero-width joiner and the variation selectors to a preceding cluster that does not end in a control character. A tab is always a cluster of its own.
- Rows.Row.Insert: it treats the pushed character as a cluster of its own, as the source's count (`len + 1`) assumes. The model does not capture the real string re-segmenting differently, for example when a combining mark is pushed after a letter.
- Rows.Row.Append: the clusters are the two rows' clusters put together, as the source's count assumes. A cluster that would join across the seam is not modelled.
- Integer widths: cursor coordinates and counts are unbounded. `MoveCursor` increments only below `width - 1` or `height - 1`, both under 2^16, so `usize`'s saturating add never saturates there.
- The calls in src/editor.rs to terminal functions that src/terminal.rs does not define (`clear_screen`, `flush`, `cursor_position`, `clear_current_line`) are not modelled. Neither is the `unwrap_or_else` call in src/main.rs on the unit value that `run` returns.
