# mined: a verified model of the editor core

`mined` is a small full-screen terminal editor written in C. It keeps one
fixed `text_size_x` by `text_size_y` grid of characters, writes typed keys
straight into it at the cursor, and can save the grid to a file. This project
models the core of `main.c` in Dafny and proves properties of the model:

- the grid and cursor globals, with their edit operations `set_text_char`,
  `text_delete` and `text_newline`, and the wrap policy `wrap_cursor`;
- the scan for the end of a row, `get_max_x`;
- how `handle_input` classifies key bytes (including the escape sequences for
  the arrow keys) and dispatches them;
- the save loop of `file_save`, the size inference of `text_to_file_size`, and
  the fill loop and truncation of `file_load`.

Layout:

- `grid.dfy`, module `TextGrid`: cells as bytes, row-major indexing, rows, and
  `RowEnd`, the column just past a row's last non-blank cell.
- `keys.dfy`, module `Keys`: key codes, the `KeyEvent` datatype, escape-sequence
  decoding, classification and `Decode`, which reads one event off an input.
- `file_format.dfy`, module `FileFormat`: the bytes the save loop writes
  (`SaveFrom`/`Serialized`), their inverse `ParseFrom`/`Parse`, the layout and
  length of a saved file, and the width read off a file (`FirstLineWidth`).
- `editor.dfy`, module `Editor`: the editor's state as a value (`State`), one
  function per operation (`Wrap`, `SetChar`, `Delete`, `Newline`, `Dispatch`,
  `Run`), and the class `TextBuffer`. Its fields are the C globals and its
  methods change them in place. `WrapCursor`, `SetTextChar`, `TextDelete`,
  `TextNewline`, `HandleEvent` and `HandleInput` are proved to take the state
  value `Snap()` to the matching function of the old state. `InitText`,
  `GetMaxX`, `FileSave`, `TextToFileSize`, `FillText` and `FileLoad` state
  their effect on the fields directly.
- `wrappers.dfy`, module `Wrappers`: `Option`.

Choices the model makes:

- A cell is a `byte` (0 to 255), the bit pattern of a C `char`. The load loop
  stores `(char) EOF`, which is the byte 255.
- A key code is what `getchar` returns: a byte, or -1 for EOF. The input is a
  sequence of key codes. Reading past its end gives EOF, as `getchar` does
  once its input is closed.
- The `isprint` and `isupper` tests are those of the C locale.
- Integers are unbounded. C `int` overflow is out of scope.

The model follows the code, quirks included:

- Saving writes the cells as they are. Non-printable bytes are not replaced
  by spaces.
- Saving does not end each row with a newline. It writes one right after
  each cell `i` with `i % w == 0 && i > 1`. For a grid at least 2 cells wide,
  that is after the first cell of every row except the first. The file then
  holds `h - 1` inserted newlines (`SavedNewlineCount`), besides any newline
  bytes the cells themselves hold. On a 1-cell-wide grid the test
  puts a newline after every cell from index 2 on (`SavedNewlineCountWidthOne`).
- The width is inferred from the first newline at a positive offset; a
  newline at offset 0 is skipped. The height is `(n + 1) / (w - 1)`, where `n`
  is the file's byte count and the `+ 1` is the final read that returns EOF.
- Loading opens the file with mode `"w+"`, which empties it. So inference
  always sees no bytes, and the load loop stores only the EOF marker, in
  cell 0. The loop itself copies newlines into the grid as they are; it does
  not skip them.
- Arrow keys move the cursor by one cell without wrapping it and without a
  validity check, so the cursor can leave the grid. The edit keys then do
  nothing until arrow keys bring the cursor back
  (`Dispatch`, `RunWithoutArrowsStaysValid`).
- Only byte 10 counts as Enter. Byte 13 is a non-printable key and is
  ignored.
- The wrap policy clamps rows. It does not wrap around from the last row to
  the first.

## Model

| member | source | states |
|---|---|---|
| `TextGrid.RowEnd` | main.c:104-118 | the column just past a row's last non-blank cell: at most the row's length, every cell from it on is a space or NUL, and the cell before it is neither |
| `TextGrid.RowEndUnique` | main.c:104-118 | those three properties determine that column, so any scan that meets them returns `RowEnd` |
| `Keys.EscapeEvent` | main.c:261-293 | escape followed by `[A`, `[B`, `[C`, `[D` is Up, Down, Right, Left respectively, and exactly those pairs give arrows; any other pair (a 0 byte included) is a plain Escape |
| `Keys.Classify` | main.c:258-328 | a key is a character event exactly when it is printable, carrying that byte; only the escape byte yields Escape or arrows; 127, 10, 9, 17 (Ctrl-Q) and 3 (Ctrl-C) are Backspace, Enter, Tab, save-and-quit and quit; every other non-printable code is ignored |
| `Keys.Decode` | main.c:258-293 | reading a key consumes exactly one byte, or three when it is the escape byte (what follows is a suffix of the input); the event is an arrow exactly when the input starts with escape, `[` and one of `A` to `D` |
| `FileFormat.SaveFrom` | main.c:194-202 | the save loop's output is one byte per cell plus one per break index (`i % w == 0 && i > 1`) |
| `FileFormat.ParseSaveFrom` | main.c:194-202 | removing the newline written after each break index from the saved bytes gives back the grid exactly |
| `FileFormat.SaveFromParsed` | main.c:194-202 | bytes that parse back to a grid are exactly the bytes saved for it, so saving is injective |
| `FileFormat.SaveParseInverse` | main.c:188-203 | the saved file equals `b` if and only if `b` parses back to the grid |
| `FileFormat.SavedCellAt` | main.c:194-202 | cell `k` is written unmodified at offset `k` plus the number of breaks before it, and a newline follows it when `k` is a break index |
| `FileFormat.RowBreaks` | main.c:197 | in every row after the first, exactly one cell, the row's first, is followed by an inserted newline |
| `FileFormat.SavedNewlineCount` | main.c:194-202 | a grid at least 2 wide with `h` rows is saved with `h - 1` inserted newlines, besides any newline bytes the cells hold |
| `FileFormat.SavedNewlineCountWidthOne` | main.c:194-202 | a grid 1 cell wide with `h` rows (at least 2) is saved with `h - 2` inserted newlines, one after each cell from index 2 on, besides any newline bytes the cells hold |
| `FileFormat.SavedLength` | main.c:188-203 | the saved file of a `w` by `h` grid (`w` at least 2) has `w * h + h - 1` bytes |
| `FileFormat.FirstLineWidth` | main.c:210-217 | the inferred width is 0 exactly when no newline occurs at a positive offset, and otherwise is the offset of the first such newline |
| `Editor.IsTextValid` | main.c:90-98 | a valid cursor means an allocated grid of at least one row and one column, with the cursor's cell inside it |
| `Editor.Wrap` | main.c:121-143 | on a grid of at least 1 by 1, the wrapped cursor is on the grid for any starting position; a cursor already on the grid stays put; the grid is not touched |
| `Editor.SetChar` | main.c:150-159 | with a valid cursor, only the cursor's cell changes, to the value; the cursor moves to the next column, else the start of the next row, else stays on the last cell; with an invalid cursor nothing changes |
| `Editor.Delete` | main.c:161-173 | with a valid cursor at column x > 0, cell (x-1, y) becomes a space and the cursor moves there; at column 0 no cell changes and the cursor goes to (min(w-1, end of row y-1), y-1), or to (0, 0) from row 0; with an invalid cursor nothing changes |
| `Editor.Newline` | main.c:175-183 | with a valid cursor the grid is kept and the cursor goes to (0, y+1), or to (w-1, h-1) from the last row; with an invalid cursor nothing changes |
| `Editor.SetCharTimes` | main.c:303-306 | repeating the write keeps the grid's shape, keeps a valid cursor valid and does nothing with an invalid one |
| `Editor.Dispatch` | main.c:258-341 | Backspace is `Delete`, Enter is `Newline`, Tab is two `SetChar` of a space and a printable key is `SetChar` of that key; the grid's size never changes; only Ctrl-Q and Ctrl-C exit, Ctrl-Q with the saved bytes exactly when a file name was given; an arrow leaves the grid alone and moves the cursor by one cell in its direction; Escape and ignored keys change nothing; an edit keeps a valid cursor valid and does nothing with an invalid one |
| `Editor.Run` | main.c:366-370 | handling any sequence of keys keeps the grid allocated and of the same size |
| `Editor.RunWithoutArrowsStaysValid` | main.c:121-143 | from a valid cursor, any sequence of keys without arrow keys ends with a valid cursor |
| `Editor.TextBuffer.constructor` | main.c:68-72 | the globals start with no grid, the cursor at (0, 0) and size 0 by 0 |
| `Editor.TextBuffer.Snap` | main.c:68-72 | an allocated grid with `sizeX * sizeY` cells gives a well-formed state value |
| `Editor.TextBuffer.InitText` | main.c:73-88 | does nothing once the grid exists; otherwise allocates a fresh grid of unspecified contents and takes the screen size only when both sizes are 0 |
| `Editor.TextBuffer.TextAt` | main.c:100-102 | the cell at (x, y) is column x of row y |
| `Editor.TextBuffer.GetMaxX` | main.c:104-118 | reading only, returns k in [0, w] such that every cell of the cursor row at column k or later is a space or NUL and the cell at k-1 is neither; that is, `RowEnd` of the row |
| `Editor.TextBuffer.WrapCursor` | main.c:121-143 | moves the cursor as `Wrap` says and changes nothing else |
| `Editor.TextBuffer.SetTextChar` | main.c:150-159 | changes the grid and cursor as `SetChar` says |
| `Editor.TextBuffer.TextDelete` | main.c:161-173 | changes the grid and cursor as `Delete` says |
| `Editor.TextBuffer.TextNewline` | main.c:175-183 | moves the cursor as `Newline` says, never touching the grid |
| `Editor.TextBuffer.FileSave` | main.c:188-203 | writes nothing without a file name; otherwise writes exactly the serialized grid |
| `Editor.TextBuffer.TextToFileSize` | main.c:205-224 | does nothing unless both sizes are 0; otherwise sets the width to `FirstLineWidth` and, when that is not 0, the height to (byte count + 1) / (width - 1) |
| `Editor.TextBuffer.FillText` | main.c:239-243 | the grid starts with the file's bytes as they are, then the EOF byte; the cells after that are unchanged |
| `Editor.TextBuffer.FileLoad` | main.c:226-244 | without a file name nothing happens; with one, the grid is allocated (sized from the screen unless a size was set) and its first cell holds the EOF byte, because the file was emptied on opening |
| `Editor.TextBuffer.HandleEvent` | main.c:258-341 | changes the state and returns the outcome as `Dispatch` says, with Tab writing two spaces through `SetTextChar` |
| `Editor.TextBuffer.HandleInput` | main.c:258-341 | reads one event off the input as `Decode` says, then handles it as `Dispatch` says |

## Left out

- `read_char` (main.c:13-26) switches the terminal into raw mode and back around each `getchar`. Terminal I/O is not modelled. The input is a given sequence of key codes.
- `screen_size` (main.c:48-65) asks the terminal for its size with `ioctl`. The screen size is a parameter of `InitText` and `FileLoad`. Note that the test is inverted: the ioctl values are kept only when the call fails or reports 0 columns, and otherwise the size is 80 by 24.
- Screen output is display only and is not modelled: `set_cursor`, which takes coordinates modulo the screen size, `clear_screen`, `clear_line` and `print_text_at_cursor` (main.c:30-46, 145-148). This includes the out-of-bounds `text_at(-1, y)` that `text_delete` prints when it deletes at column 0.
- File handles are not modelled: `fopen`, `rewind`, `fgetc` and `fputc`. The bytes of a file are a sequence, and a save returns the bytes it writes. The exit on a failed `fopen` (main.c:232-235), `exit` on quit, `atexit`, `exit_handler` and `main` (main.c:343-373) are left out. Exiting is the outcome `Exit`, and `Run` plays the main loop over a sequence of events.
- `Editor.TextBuffer.WrapCursor`: when the cursor row goes out of range, `get_max_x` would read outside the grid (row -1 after a delete at (0, 0)). The model does not read it. The column it would give is always overwritten by the clamp that follows, so the resulting cursor is the same.
- `Editor.TextBuffer.InitText`: `init_text` allocates `sizeof(char*) * screen_size_x * screen_size_y` bytes. The model allocates exactly `sizeX * sizeY` cells, whatever the size came from. A failed `malloc` is not modelled.
- `Editor.TextBuffer.TextToFileSize`: a first-line width of 1 would divide by zero. The model excludes it with a precondition. It also requires that no grid exists yet, the only situation in which `file_load` calls it.
- `Editor.TextBuffer.FileLoad`: with a file name and a grid of 0 cells, the store of the EOF byte at main.c:241 would write past the grid. The model excludes that case with a precondition; without a file name it places no condition on the sizes.
- `Editor.TextBuffer.FillText`: a file with more bytes than the grid has cells would be written past the grid's end. The model covers the loop only when the byte count plus one fits in the grid.
