# hexdoc: a verified model of the hex-dump drawer

`hexdoc.py` renders a range of bytes as a hexadecimal dump on an image: each
byte becomes two hex digits in a grid of `bytesPerRow` columns. Extra gaps
separate groups of `groupSize` columns. An optional address column on the
left holds row labels, and optional fade bands make the first and last rows
progressively transparent. This project models the class that does the
drawing, `HexDrawer`, together with `decodeColor`, and proves what they
promise.

The model follows the code's structure:

- `hex.dfy` (module `Hex`): hex digits, `"%0*x"` formatting and the integer
  base-16 logarithm that `getAddressDigits` computes with `math.log`.
- `colors.dfy` (module `Colors`): `decodeColor` and the two alpha ramps of
  the fade bands.
- `glyphs.dfy` (module `Glyphs`): glyph sizes and the cell width they give.
  Also the glyphs one `drawDigits` call puts down, and a `Canvas` class that
  records every `ImageDraw.text` call.
- `layout.dfy` (module `Layout`): the values `draw` fixes before its loops
  (`Geometry`), the byte cursor `i` at the start of each row, and `Walk`.
  `Walk` is a functional description of everything `draw` emits, row by row,
  and of how it stops.
- `drawer.dfy` (module `Drawer`): the class `HexDrawer`, with the source's
  fields and methods. `Draw` keeps the source's three row loops and the
  column loops inside them, and is proved against `Walk`.
- `walks.dfy` (module `Walks`): what `Walk` draws and reads, where its
  columns fall, and where its cursor ends.
- `drawer_facts.dfy` (module `DrawerFacts`): those facts restated for a
  `HexDrawer`. This covers the checks before drawing, when a render finishes,
  the grid against `getSize`, the row labels and the address column.
- `corrected.dfy` (module `Corrected`): the two loops that read past the
  dump, and the evidently intended loop bounds.

`draw` either finishes or stops at the first failure. The failures are an
`assert` that fails, an `IndexError` on `buffer[i]`, or a `ValueError` from
`math.log`. The model returns that outcome as a `Status`:

- `Done`;
- `Failed(FadeBandsTooLarge)`;
- `Failed(MissingByte(i))`;
- `Failed(BadByte(i, v))`;
- `Failed(LogDomain)`.

The glyphs drawn before the failure stay on the canvas.

## Model

| member | source | states |
|---|---|---|
| Drawer.HexDrawer.constructor | hexdoc.py:12-22 | records the font's sixteen glyph sizes and sets the default settings: gaps 5, 32 bytes per row, opaque black, no fade bands, addresses shown, data aligned, one group per row |
| Drawer.HexDrawer.SetFont | hexdoc.py:25-29 | records the glyph sizes; the cell width and height are the largest glyph width and height, each bound and attained; the other settings are unchanged |
| Glyphs.MaxWidth | hexdoc.py:29 | the result bounds every glyph width and equals one of them |
| Glyphs.MaxHeight | hexdoc.py:28 | the result bounds every glyph height and equals one of them |
| Drawer.HexDrawer.DrawDigits | hexdoc.py:31-40 | the canvas gains exactly the glyphs `DigitGlyphs` describes for the call, in order, and nothing else |
| Glyphs.Canvas.Text | hexdoc.py:38 | one `ImageDraw.text` call appends one glyph with its position, character and fill |
| Glyphs.DigitGlyphs | hexdoc.py:31-40 | one glyph per requested digit |
| Glyphs.DigitGlyphsReadBack | hexdoc.py:34-38 | the characters drawn, read left to right as hex, give back `value mod 16^digits` |
| Glyphs.DigitGlyphsInCells | hexdoc.py:37-40 | each digit is drawn inside its own cell: its offset is never negative and its right edge never passes the cell's |
| Hex.Nibble | hexdoc.py:35 | `(value >> 4k) & 0xF` is below 16, so it always indexes `HexChars` |
| Hex.NibblesRoundTrip | hexdoc.py:34-35 | the nibbles taken most significant first recombine to `value mod 16^digits` |
| Drawer.HexDrawer.FirstColumn | hexdoc.py:43-44 | the first column lies inside the row; with aligned data, every byte's column is its address modulo the row width; otherwise it is 0 |
| Hex.CeilLog16 | hexdoc.py:48 | the least `d` with `16^d >= n` (`ceil(log16 n)`) |
| Drawer.HexDrawer.AddressDigits | hexdoc.py:47-48 | the least digit count `d` with `16^d >= address + count`; it requires `address + count > 0` |
| Drawer.HexDrawer.TextAddress | hexdoc.py:52-53 | the address `getAddressText` formats: the address of column 0 of the first row after the fade-in band |
| Hex.FormatHex | hexdoc.py:54 | `"%0*x" % (width, v)` has `max(width, len(hex(v)))` characters, all of them lower-case hex digits. Every character before the last `HexLen(v)` is `'0'`, and the string reads back as `v` |
| Hex.HexLen | hexdoc.py:54 | the digit count `%x` writes: at least 1, and the least `len` with `v < 16^len` |
| Drawer.HexDrawer.AddressText | hexdoc.py:51-54 | the text has `max(digit count, HexLen(a))` characters for the shifted address `a`, so it is never truncated. All its characters are hex digits, those before the last `HexLen(a)` are `'0'`, and it reads back as `a` |
| Drawer.HexDrawer.AddressWidth | hexdoc.py:57-58 | the width is the number of characters in the address text times the cell width |
| Drawer.HexDrawer.RowCount | hexdoc.py:70 | the fewest rows that hold `count` bytes after `firstColumn` empty columns |
| Drawer.HexDrawer.Size | hexdoc.py:61-72 | the height is the row count times the cell height (for the width, see DrawerFacts.GridWidth) |
| Drawer.HexDrawer.GroupSeparators | hexdoc.py:75-77 | one entry per column: `groupGap` after every `groupSize`-th column and 0 elsewhere |
| Drawer.HexDrawer.Layout | hexdoc.py:81-97 | the locals `draw` fixes before its loops satisfy the source's `assert`, and the row count is the ceiling of `(firstColumn + count) / bytesPerRow` |
| Drawer.HexDrawer.Draw | hexdoc.py:80-141 | the canvas keeps what it held and gains the glyphs of exactly the `drawDigits` calls of `Rendering`, in order; the returned status is how the render ends |
| Drawer.HexDrawer.Sweep | hexdoc.py:99-141 | the three row loops and the label between them make exactly the calls of `Walk` and end with its status |
| Drawer.HexDrawer.Step | hexdoc.py:99-141 | one pass of a row loop: the calls of row `row` are appended to those of the rows before it. When the row finishes, `i`, `x`, `y` and `col` are the next row's start values (the resets at lines 109-111, 124-126 and 139-141) |
| Drawer.HexDrawer.DrawRow | hexdoc.py:100-138 | a row is drawn by the loop body of its phase and produces exactly what `RowRun` describes |
| Drawer.HexDrawer.FadeInPhase | hexdoc.py:99-111 | the fade-in loop makes the calls of the fade-in rows and leaves `i`, `x`, `y`, `col` at the next row's start |
| Drawer.HexDrawer.FadeInRow | hexdoc.py:100-108 | one fade-in row: a landmark label if due, then every column from `col` to the row's end, at the band's alpha |
| Drawer.HexDrawer.DrawCaption | hexdoc.py:114 | the label after the fade-in rows is always drawn, with the address of the next byte |
| Drawer.HexDrawer.AfterFadeIn | hexdoc.py:115-141 | the body and fade-out loops together make the calls of rows `fadeInRows .. rows - 1` |
| Drawer.HexDrawer.BodyPhase | hexdoc.py:115-126 | the body loop makes the calls of the body rows and leaves the loop variables at the next row's start |
| Drawer.HexDrawer.BodyRow | hexdoc.py:116-123 | one body row: a landmark label unless it is the first body row, then the columns up to `min(bytesPerRow, col + count - i)` in the drawer's colour |
| Drawer.HexDrawer.FadeOutPhase | hexdoc.py:128-141 | the fade-out loop makes the calls of the last `fadeOutRows` rows |
| Drawer.HexDrawer.FadeOutRow | hexdoc.py:129-138 | one fade-out row: a landmark label if due, then columns from 0 up to `min(bytesPerRow, col + count - i)`, at the band's alpha |
| Drawer.HexDrawer.DrawLandmark | hexdoc.py:100-101 | a label is drawn exactly when `(address + i) % 0x80 == 0`, except on the first body row |
| Drawer.HexDrawer.DrawCells | hexdoc.py:119-123 | the column loop draws cells until the loop's end, or stops at the first missing or out-of-range byte, exactly as `CellsRun` describes |
| Colors.FadeInAlpha | hexdoc.py:102 | a fade-in alpha is in `0 .. 254`: fade-in rows are never opaque |
| Colors.FadeOutAlpha | hexdoc.py:131 | the fade-out band is the fade-in band upside down: the alpha of row `row` is the fade-in alpha of `rows - 1 - row` |
| Colors.FadeInNonDecreasing | hexdoc.py:102 | the alpha never decreases down the fade-in band |
| Colors.FadeInStrictlyIncreasing | hexdoc.py:102 | with at most 255 fade-in rows the alpha strictly increases down the band |
| Colors.FadeInPlateau | hexdoc.py:102 | with 256 fade-in rows, rows 127 and 128 get the same alpha, 127 |
| Colors.FadeOutNonIncreasing | hexdoc.py:131 | the alpha never increases down the fade-out band |
| Walks.FillKeepsColour | hexdoc.py:102-132 | fade bands change only the alpha of the drawer's colour; body rows use the colour as it is |
| Colors.DecodeColor | hexdoc.py:178-184 | three channels in `0 .. 255` and alpha `0xFF`, packing back to the low 24 bits of the input |
| Colors.DecodeColorOfPacked | hexdoc.py:178-184 | decoding `0xRRGGBB` gives back `(RR, GG, BB, 0xFF)` |
| Layout.FailureSticks | hexdoc.py:105 | once a row fails, later rows add nothing: the render stops at the failure |
| Layout.WalkFadeInFails | hexdoc.py:99-111 | a failure in the fade-in rows ends the render there |
| Layout.WalkAfterFadeIn | hexdoc.py:113-115 | after the fade-in rows come the label of row `fadeInRows`, then the remaining rows |
| Walks.CellsRunShows | hexdoc.py:119-123 | cell `j` of a column loop is byte `i + j` at the `j`-th running `x`; the loop finishes exactly when the bytes it reaches are present and in `0 .. 255`, and otherwise stops at the first byte that is not |
| Walks.RowShows | hexdoc.py:115-126 | a row finishes exactly when the bytes between its start and end cursors are readable, and otherwise stops at the first unreadable one |
| Walks.SpanShows | hexdoc.py:115-141 | the same holds for any run of consecutive rows |
| Walks.WalkShows | hexdoc.py:99-141 | the render finishes exactly when the bytes up to the final cursor are readable, and otherwise stops at the first that is not |
| Walks.FadeInCursor | hexdoc.py:104-108 | after `r` fade-in rows the cursor is `r * bytesPerRow - firstColumn`, whatever `count` is |
| Walks.CursorAfterFadeIn | hexdoc.py:118-123 | when the walk stays in the dump, the cursor after row `r` is `min(count, r * bytesPerRow - firstColumn)` |
| Walks.CursorMonotone | hexdoc.py:108 | the cursor never moves back |
| Walks.CursorReachesCount | hexdoc.py:93-141 | when the walk stays in the dump, it reads each of the `count` bytes and no more |
| Walks.WalkNeedsTheDump | hexdoc.py:93-141 | when the walk stays in the dump, the render finishes exactly when `buffer[0 .. count-1]` are present bytes |
| Walks.ColumnXClosed | hexdoc.py:122 | the running `x` after columns `c .. d-1` is `x + (d-c) * advance + (d div groupSize - c div groupSize) * groupGap` |
| Walks.FirstRowShift | hexdoc.py:90 | the first row's columns sit `(firstColumn div groupSize) * groupGap` left of the same columns on later rows |
| Walks.CallReadsBack | hexdoc.py:31-40 | the glyphs of one `drawDigits` call read back as its value modulo `16^digits`, and as the value itself when it fits |
| Walks.LabelReadsBack | hexdoc.py:114 | a label reads back as the address of its row's first byte, modulo `16^addressDigits` |
| DrawerFacts.ChecksComeFirst | hexdoc.py:83-97 | a render that draws anything has passed all three checks: the logarithm in `getAddressWidth` when addresses are shown (line 83), the fade-band `assert` (line 95) and the logarithm in `getAddressDigits` (line 97). Fade bands that do not fit always fail |
| DrawerFacts.DrawFinishes | hexdoc.py:80-141 | a render that passes its checks finishes exactly when the bytes its walk reaches are readable; when the walk stays in the dump, those are `buffer[0 .. count-1]` |
| DrawerFacts.GridColumns | hexdoc.py:107-109 | on every row after the first, column `c` starts `c` advances and `c div groupSize` group gaps right of the grid's left edge |
| DrawerFacts.GridWidth | hexdoc.py:66-68 | the right edge of the grid's last column is the width `getSize` reports |
| DrawerFacts.GridHeight | hexdoc.py:70-71 | the bottom edge of the last row is the height `getSize` reports |
| DrawerFacts.LabelsShowAddresses | hexdoc.py:97-101 | every label on a row that starts inside the dump spells its row's address in full |
| DrawerFacts.NarrowAddressColumn | hexdoc.py:53 | as written, a one-byte dump at 0x10 gets an address column one character wide, while its label has two digits |
| DrawerFacts.CoveringAddressWidth | hexdoc.py:57-58 | corrected width: at least the source's address width, and wide enough for the labels `draw` writes |
| Corrected.CappedCursorClosed | hexdoc.py:118 | with every loop bounded by `min(bytesPerRow, col + count - i)`, the cursor at row `r` is `min(count, r * bytesPerRow - firstColumn)` |
| Corrected.CappedReadsTheDump | hexdoc.py:93-141 | with the bounded loops, the walk reads each of the `count` bytes exactly once, whatever the fade bands |
| Corrected.CappedAgrees | hexdoc.py:104-138 | where the source stays in the dump, its loops and the bounded ones read the same bytes row by row |
| Corrected.FadeOutFirstRowOverrun | hexdoc.py:133-134 | as written, a fade-out first row that starts after column 0 reads past the dump and fails at `buffer[count]` |
| Corrected.FadeInOverrun | hexdoc.py:104 | as written, a fade-in band that needs more than `count` bytes reads past the dump and fails at `buffer[count]` |

## Left out

- Fonts, `PIL` and image files. The font is replaced by the sizes of its sixteen digit glyphs, given to the constructor and to `SetFont`. `ImageDraw.text` becomes an append to `Canvas.glyphs`. Image creation and saving are not modelled.
- `parseSize`, `makeArgParser`, `readBytes` and `main` (command line and file I/O) are not part of this model.
- `math.log` floating point: the digit count is the exact integer `ceil(log16(n))`. Float rounding of `log(n) / log(16)` near powers of 16 is not modelled.
- Python's `assert` statements are modelled as failures. Running under `python -O` turns them off, and that is not modelled.
- `Glyphs.Canvas` keeps a ghost log of `drawDigits` calls (`strokes`) beside its glyphs. The log is a proof device and the source has nothing like it.
- `Drawer.HexDrawer.Valid`: a drawer with `bytesPerRow` or `groupSize` 0 is excluded. The source raises `ZeroDivisionError` there.
- `Drawer.HexDrawer.AddressDigits`: requires `address + count > 0`. The source raises `ValueError` from `math.log`. `Draw` models this error as `Failed(LogDomain)`.
- `Drawer.HexDrawer.AddressText`, `Drawer.HexDrawer.AddressWidth` and `Drawer.HexDrawer.Size`: require the logarithm's argument to be positive, for the same reason.
- Counts and addresses are natural numbers. A negative `count` or `address` passed to `draw` is not modelled.
- Negative settings are not modelled: `bytesPerRow`, `groupSize`, `fadeInRows` and `fadeOutRows` are natural numbers. The source takes them from `int` options, and a negative value changes its behaviour. For example, `fadeOutRows = -1` makes the body loop run one row past `rows`, and a negative `fadeInRows` shifts the address that `getAddressText` formats.
- `Drawer.HexDrawer.Size`: its contract states only the height. The width is stated by `DrawerFacts.GridWidth`, as the right edge of the drawn grid.
- `DrawerFacts.GridColumns`: states the rows after the first. The first row is related to them by `Walks.FirstRowShift`.
- `DrawerFacts.CoveringAddressWidth`: its bounds are stated for a non-negative cell width, since glyph widths are pixel counts.
- `Walks.CursorAfterFadeIn`, `Walks.CursorReachesCount` and `Walks.WalkNeedsTheDump`: hold only when the walk stays in the dump (`StaysInDump`). Outside it, `Corrected` shows the overrun.

Facts about the code that a reader might not expect, all of which the model keeps:

- The address digit count has no minimum. With `address + count == 1` it is 0, and the label is empty.
- One label is drawn after the fade-in rows, whatever its address. After that, labels appear only on rows that start at a multiple of 0x80, and the first body row never gets a second one. So a 64-byte dump from address 0 with 32 bytes per row gets the single label `00`.
- The address column is sized from the text of the shifted address `address + fadeInRows * bytesPerRow - firstColumn`, not from the addresses the labels show (see Findings).
- Rows outside the fade bands are drawn in the drawer's colour as it is, alpha included.
- The fade-in alpha strictly increases only for bands of at most 255 rows. With 256 rows, two neighbouring rows get the same alpha (`Colors.FadeInPlateau`).
- On the first row, the running `x` starts `firstColumn` plain column advances from the grid's edge. It leaves out the group gaps of the skipped columns (`Walks.FirstRowShift`).

## Findings

| source | as written | input that shows it | evidently intended | confidence | as-written member | corrected member |
|---|---|---|---|---|---|---|
| hexdoc.py:133-134 | the fade-out loop runs `range(0, min(bytesPerRow, col + count - i))`. On the first row `col` is `firstColumn`, so it draws `firstColumn` cells too many and reads past the dump | address 2, count 1, one fade-out row, 32 bytes per row, aligned: the loop reaches for 3 bytes of a 1-byte buffer, draws `buffer[0]` and raises `IndexError` at `buffer[1]` | the loop starts at `col`, and each of the `count` bytes is read once | not executed; high | Corrected.FadeOutFirstRowOverrun | Corrected.CappedReadsTheDump |
| hexdoc.py:104 | the fade-in loop runs to the end of each row whatever `count` is | address 0, count 1, one fade-in row, 32 bytes per row: the loop reaches for 32 bytes of a 1-byte buffer, draws `buffer[0]` and raises `IndexError` at `buffer[1]` | the fade-in loop is bounded by `min(bytesPerRow, col + count - i)` like the others | not executed; high | Corrected.FadeInOverrun | Corrected.CappedReadsTheDump |
| hexdoc.py:53 | the address column is sized from the shifted address `address - firstColumn`, while the labels use the digit count of `address + count` | address 0x10, count 1, 32 bytes per row, aligned, no fade-in: the column is one character wide, the label `10` two | the column is as wide as the labels drawn in it | not executed; medium | DrawerFacts.NarrowAddressColumn | DrawerFacts.CoveringAddressWidth |

The model of `draw` keeps the code as written. The corrected members stand beside it, and each is related to the as-written one: `Corrected.CappedAgrees`, and the first bound of `DrawerFacts.CoveringAddressWidth`.
