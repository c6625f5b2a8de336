/** `HexDrawer` of hexdoc.py: the drawer's settings as fields, the sizing
    functions, `drawDigits` and the three-phase row sweep of `draw`. */
module Drawer {
  import opened Hex
  import opened Colors
  import opened Glyphs
  import opened Layout

  class HexDrawer {
    // what setFont records of the font
    var charSizes: seq<CharSize>
    var charHeight: int
    var charWidth: int
    // settings; the caller may assign them between renders
    var byteGap: int
    var groupGap: int
    var bytesPerRow: nat
    var color: Rgba
    var fadeInRows: nat
    var fadeOutRows: nat
    var showAddress: bool
    var alignData: bool
    var groupSize: nat

    /** The drawer is usable: sixteen glyph sizes with the cell size their
        maximum, and row and group widths that can be divided by. */
    ghost predicate Valid()
      reads this
    {
      |charSizes| == 16 && charWidth == MaxWidth(charSizes) && charHeight == MaxHeight(charSizes)
      && bytesPerRow > 0 && groupSize > 0
    }

    /** `HexDrawer(font)`: the font's glyph sizes and the default settings. */
    constructor (sizes: seq<CharSize>)
      requires |sizes| == 16
      ensures Valid()
      ensures charSizes == sizes
      ensures byteGap == 5 && groupGap == 5 && bytesPerRow == 32 && color == Rgba(0, 0, 0, 255)
      ensures fadeInRows == 0 && fadeOutRows == 0 && showAddress && alignData && groupSize == 32
    {
      new;
      SetFont(sizes);
      byteGap := 5;
      groupGap := 5;
      bytesPerRow := 32;
      color := Rgba(0, 0, 0, 255);
      fadeInRows := 0;
      fadeOutRows := 0;
      showAddress := true;
      alignData := true;
      groupSize := bytesPerRow;
    }

    /** `setFont`: record the glyph sizes of the sixteen hex characters; the
        cell is as wide as the widest glyph and as high as the highest. */
    method SetFont(sizes: seq<CharSize>)
      requires |sizes| == 16
      modifies this
      ensures charSizes == sizes
      ensures forall k :: 0 <= k < 16 ==> sizes[k].w <= charWidth && sizes[k].h <= charHeight
      ensures exists k :: 0 <= k < 16 && sizes[k].w == charWidth
      ensures exists k :: 0 <= k < 16 && sizes[k].h == charHeight
      ensures charWidth == MaxWidth(sizes) && charHeight == MaxHeight(sizes)
      ensures byteGap == old(byteGap) && groupGap == old(groupGap) && bytesPerRow == old(bytesPerRow)
      ensures color == old(color) && fadeInRows == old(fadeInRows) && fadeOutRows == old(fadeOutRows)
      ensures showAddress == old(showAddress) && alignData == old(alignData)
      ensures groupSize == old(groupSize)
    {
      charSizes := sizes;
      charHeight := MaxHeight(sizes);
      charWidth := MaxWidth(sizes);
    }

    /** `getFirstColumn`: how many columns the first row is shifted right.
        With `alignData` the first row starts at a multiple of the row
        width, so every byte sits in the column of its address; otherwise
        the dump starts at column 0. */
    function FirstColumn(address: int): (c: nat)
      reads this
      requires bytesPerRow > 0
      ensures c < bytesPerRow
      ensures alignData ==> (address - c) % bytesPerRow == 0
      ensures !alignData ==> c == 0
    {
      if alignData then
        DivUnique(address - address % bytesPerRow, bytesPerRow, address / bytesPerRow, 0);
        address % bytesPerRow
      else 0
    }

    /** `getAddressDigits`: the fewest hex digits that reach
        `address + count`, i.e. the least `d` with `16^d >= address + count`
        (`math.log` fails on a non-positive argument). */
    static function AddressDigits(count: int, address: int): (d: nat)
      requires address + count > 0
      ensures Pow16(d) >= address + count
      ensures d == 0 || Pow16(d - 1) < address + count
    {
      CeilLog16(address + count)
    }

    /** The address `getAddressText` formats: that of the first column of
        the first row after the fade-in band (hexdoc.py:53). */
    function TextAddress(address: nat): (a: nat)
      reads this
      requires bytesPerRow > 0
      ensures a + FirstColumn(address) == address + fadeInRows * bytesPerRow
    {
      var c := FirstColumn(address);
      assert c <= address by {
        if alignData { ModAtMost(address, bytesPerRow); }
      }
      address + fadeInRows * bytesPerRow - c
    }

    /** `getAddressText`: `"%0*x" % (getAddressDigits(count, a), a)` for the
        shifted address `a`: lower-case hex of `a`, zero-padded to the digit
        count and never truncated. */
    function AddressText(count: nat, address: nat): (t: string)
      reads this
      requires bytesPerRow > 0 && TextAddress(address) + count > 0
      ensures |t| == Max(AddressDigits(count, TextAddress(address)), HexLen(TextAddress(address)))
      ensures forall k :: 0 <= k < |t| ==> t[k] in HexChars
      ensures forall k :: 0 <= k < |t| - HexLen(TextAddress(address)) ==> t[k] == '0'
      ensures ParseHex(t) == TextAddress(address)
    {
      var a := TextAddress(address);
      FormatHex(a, AddressDigits(count, a))
    }

    /** `getAddressWidth`: one cell per character of the address text. */
    function AddressWidth(count: nat, address: nat): (w: int)
      reads this
      requires bytesPerRow > 0 && TextAddress(address) + count > 0
      ensures w == Max(AddressDigits(count, TextAddress(address)), HexLen(TextAddress(address))) * charWidth
    {
      |AddressText(count, address)| * charWidth
    }

    /** Where the byte grid starts: after the address column and a 10 pixel
        gutter, or at the left edge without addresses (hexdoc.py:62-65 and
        82-85). */
    function XOffset(count: nat, address: nat): int
      reads this
      requires bytesPerRow > 0 && (showAddress ==> TextAddress(address) + count > 0)
    {
      if showAddress then AddressWidth(count, address) + 10 else 0
    }

    /** `(firstColumn + count + bytesPerRow - 1) // bytesPerRow`: the fewest
        rows that hold `count` bytes after `firstColumn` empty columns. */
    function RowCount(count: nat, address: nat): (rows: nat)
      reads this
      requires bytesPerRow > 0
      ensures rows * bytesPerRow >= FirstColumn(address) + count
      ensures rows == 0 || (rows - 1) * bytesPerRow < FirstColumn(address) + count
    {
      var n := FirstColumn(address) + count;
      CeilDiv(n, bytesPerRow);
      (n + bytesPerRow - 1) / bytesPerRow
    }

    /** `getSize`: the canvas the dump needs, `(width, height)`. */
    function Size(count: nat, address: nat): (wh: (int, int))
      reads this
      requires bytesPerRow > 0 && groupSize > 0
      requires showAddress ==> TextAddress(address) + count > 0
      ensures wh.1 == RowCount(count, address) * charHeight
    {
      var width := XOffset(count, address) + bytesPerRow * charWidth * 2
        + (bytesPerRow - 1) * byteGap
        + ((bytesPerRow - 1) / groupSize) * groupGap;
      (width, RowCount(count, address) * charHeight)
    }

    /** `__getGroupSeparators`: the extra gap after each column, `groupGap`
        after every `groupSize`-th column and nothing elsewhere. */
    function GroupSeparators(): (s: seq<int>)
      reads this
      requires groupSize > 0
      ensures |s| == bytesPerRow
      ensures forall c :: 0 <= c < bytesPerRow ==> s[c] == if (c + 1) % groupSize == 0 then groupGap else 0
    {
      var n, size, gap := bytesPerRow, groupSize, groupGap;
      seq(n, c requires 0 <= c < n => if (c + 1) % size == 0 then gap else 0)
    }

    /** The geometry `draw` fixes before drawing, for a dump of `count` bytes
        from `address` placed at `(left, top)`. */
    function Layout(left: int, top: int, count: nat, address: nat): (g: Geometry)
      reads this
      requires Valid()
      requires showAddress ==> TextAddress(address) + count > 0
      requires address + count > 0
      requires RowCount(count, address) >= fadeInRows + fadeOutRows
      ensures WellFormed(g) && Fitted(g)
    {
      Geometry(left, top, XOffset(count, address), FirstColumn(address),
               RowCount(count, address), AddressDigits(count, address),
               bytesPerRow, GroupSeparators(), 2 * charWidth + byteGap,
               charSizes, charWidth, charHeight, fadeInRows, fadeOutRows, color,
               count, address)
    }

    /** What `draw` leaves on the canvas and how it ends: the checks made
        before the first glyph (hexdoc.py:83, 95, 97), then the walk. */
    function Rendering(left: int, top: int, buffer: seq<int>, count: nat, address: nat): Run
      reads this
      requires Valid()
    {
      if showAddress && TextAddress(address) + count == 0 then Run([], Failed(LogDomain))
      else if RowCount(count, address) < fadeInRows + fadeOutRows then Run([], Failed(FadeBandsTooLarge))
      else if address + count == 0 then Run([], Failed(LogDomain))
      else
        Walk(Layout(left, top, count, address), buffer)
    }

    /** `draw`: the dump of `count` bytes of `buffer` from `address`, placed
        at `(left, top)`. The checks come first, in the order the source
        meets them; then the walk over the rows. The canvas keeps what it
        held and gains the glyphs of the render's `drawDigits` calls. */
    method Draw(canvas: Canvas, left: int, top: int, buffer: seq<int>, count: nat, address: nat)
      returns (status: Status)
      requires Valid()
      modifies canvas
      ensures canvas.glyphs == old(canvas.glyphs) + Render(charSizes, charWidth, Rendering(left, top, buffer, count, address).calls)
      ensures canvas.strokes == Rendering(left, top, buffer, count, address).calls
      ensures status == Rendering(left, top, buffer, count, address).status
    {
      canvas.strokes := [];
      AppendNothing(canvas.glyphs);
      if showAddress && TextAddress(address) + count == 0 {
        return Failed(LogDomain);
      }
      var rows := RowCount(count, address);
      if rows < fadeInRows + fadeOutRows {
        return Failed(FadeBandsTooLarge);
      }
      if address + count == 0 {
        return Failed(LogDomain);
      }
      var g := Layout(left, top, count, address);
      status := Sweep(canvas, g, buffer, canvas.glyphs);
    }

    /** The drawing part of `draw` once its locals are fixed in `g`: the
        fade-in rows, the label that always follows them, then the body
        and fade-out rows. The cursor, `x`, `y` and `col` carry over from
        one loop to the next as in the source. */
    method Sweep(canvas: Canvas, g: Geometry, buffer: seq<int>, ghost before: seq<Glyph>) returns (status: Status)
      requires Drives(g) && WellFormed(g)
      requires canvas.strokes == [] && canvas.Shows(before, g.charSizes, g.charWidth)
      modifies canvas
      ensures canvas.Shows(before, g.charSizes, g.charWidth)
      ensures canvas.strokes == Walk(g, buffer).calls
      ensures status == Walk(g, buffer).status
    {
      var col := g.firstColumn;
      var x := g.left + g.xOffset + col * g.advance;
      var y := g.top;
      var i := 0;
      var row;
      status, row, i, x, y, col := FadeInPhase(canvas, g, buffer, 0, i, x, y, col, [], before);
      ghost var head := Span(g, 0, g.fadeInRows, buffer).calls;
      assert [] + head == head;
      if status != Done {
        WalkFadeInFails(g, buffer);
        return;
      }
      DrawCaption(canvas, g, row, i, y, before);
      status := AfterFadeIn(canvas, g, buffer, row, i, x, y, col, head + [Label(g, row)], before);
      ghost var tail := Span(g, g.fadeInRows, g.rows, buffer).calls;
      WalkAfterFadeIn(g, buffer, head, tail, status);
    }

    /** The label drawn after the fade-in rows, whatever the address: that
        of the first byte of row `row`. */
    method DrawCaption(canvas: Canvas, g: Geometry, row: nat, i0: nat, y: int, ghost before: seq<Glyph>)
      requires Drives(g) && WellFormed(g)
      requires i0 == Cursor(g, row) && y == RowY(g, row)
      requires canvas.Shows(before, g.charSizes, g.charWidth)
      modifies canvas
      ensures canvas.Shows(before, g.charSizes, g.charWidth)
      ensures canvas.strokes == old(canvas.strokes) + [Label(g, row)]
    {
      DrawDigits(canvas, g.left, y, g.color, g.address + i0, g.digits);
      InkOneMore(g.charSizes, g.charWidth, before, old(canvas.strokes), Label(g, row));
    }

    /** The body rows and then the fade-out rows, drawn after the strokes
        `base`. */
    method AfterFadeIn(canvas: Canvas, g: Geometry, buffer: seq<int>, row0: nat, i0: nat, x0: int, y0: int, col0: nat,
                       ghost base: seq<Digits>, ghost before: seq<Glyph>)
      returns (status: Status)
      requires Drives(g) && WellFormed(g) && row0 == g.fadeInRows
      requires i0 == Cursor(g, row0) && x0 == RowX(g, row0) && y0 == RowY(g, row0) && col0 == StartCol(g, row0)
      requires canvas.strokes == base && canvas.Shows(before, g.charSizes, g.charWidth)
      modifies canvas
      ensures canvas.Shows(before, g.charSizes, g.charWidth)
      ensures canvas.strokes == base + Span(g, g.fadeInRows, g.rows, buffer).calls
      ensures status == Span(g, g.fadeInRows, g.rows, buffer).status
    {
      var row, i, x, y, col;
      status, row, i, x, y, col := BodyPhase(canvas, g, buffer, row0, i0, x0, y0, col0, base, before);
      if status != Done {
        FailureSticks(g, g.fadeInRows, g.rows - g.fadeOutRows, g.rows, buffer);
        return;
      }
      status := FadeOutPhase(canvas, g, buffer, row, i, x, y, col, base, before);
    }

    /** The fade-in rows `0 .. fadeInRows - 1`, drawn after the strokes `base`. */
    method FadeInPhase(canvas: Canvas, g: Geometry, buffer: seq<int>, row0: nat, i0: nat, x0: int, y0: int, col0: nat,
                       ghost base: seq<Digits>, ghost before: seq<Glyph>)
      returns (status: Status, row: nat, i: nat, x: int, y: int, col: nat)
      requires Drives(g) && WellFormed(g) && row0 == 0
      requires i0 == Cursor(g, row0) && x0 == RowX(g, row0) && y0 == RowY(g, row0) && col0 == StartCol(g, row0)
      requires canvas.strokes == base && canvas.Shows(before, g.charSizes, g.charWidth)
      modifies canvas
      ensures canvas.Shows(before, g.charSizes, g.charWidth)
      ensures canvas.strokes == base + Span(g, row0, g.fadeInRows, buffer).calls
      ensures status == Span(g, row0, g.fadeInRows, buffer).status
      ensures status == Done ==> row == g.fadeInRows && i == Cursor(g, row) && x == RowX(g, row) && y == RowY(g, row) && col == StartCol(g, row)
    {
      row, i, x, y, col := row0, i0, x0, y0, col0;
      AppendNothing(base);
      while row < g.fadeInRows
        invariant row0 <= row <= g.fadeInRows
        invariant i == Cursor(g, row) && x == RowX(g, row) && y == RowY(g, row) && col == StartCol(g, row)
        invariant Span(g, row0, row, buffer).status == Done
        invariant canvas.strokes == base + Span(g, row0, row, buffer).calls
        invariant canvas.Shows(before, g.charSizes, g.charWidth)
      {
        status, row, i, x, y, col := Step(canvas, g, buffer, row0, row, i, x, y, col, base, before);
        if status != Done {
          FailureSticks(g, row0, row, g.fadeInRows, buffer);
          return;
        }
      }
      status := Done;
    }

    /** Row `row`, drawn by the loop of its phase. */
    method DrawRow(canvas: Canvas, g: Geometry, buffer: seq<int>, row: nat, i0: nat, x: int, y: int, col: nat,
                   ghost before: seq<Glyph>)
      returns (status: Status, i: nat, ghost run: seq<Digits>)
      requires Drives(g) && WellFormed(g) && row < g.rows
      requires i0 == Cursor(g, row) && x == RowX(g, row) && y == RowY(g, row) && col == StartCol(g, row)
      requires canvas.Shows(before, g.charSizes, g.charWidth)
      modifies canvas
      ensures canvas.Shows(before, g.charSizes, g.charWidth)
      ensures canvas.strokes == old(canvas.strokes) + run
      ensures Run(run, status) == RowRun(g, row, buffer)
      ensures status == Done ==> i == Cursor(g, row + 1)
    {
      match PhaseOf(g, row)
      case FadeIn =>
        status, i, run := FadeInRow(canvas, g, buffer, row, i0, x, y, col, before);
      case Body =>
        status, i, run := BodyRow(canvas, g, buffer, row, i0, x, y, col, before);
      case FadeOut =>
        status, i, run := FadeOutRow(canvas, g, buffer, row, i0, x, y, col, before);
    }

    /** The body of fade-in row `row`: its landmark label, then every column
        to the end of the row, alpha rising down the band. */
    method FadeInRow(canvas: Canvas, g: Geometry, buffer: seq<int>, row: nat, i0: nat, x: int, y: int, col: nat,
                 ghost before: seq<Glyph>)
      returns (status: Status, i: nat, ghost run: seq<Digits>)
      requires Drives(g) && WellFormed(g) && row < g.fadeInRows
      requires i0 == Cursor(g, row) && x == RowX(g, row) && y == RowY(g, row) && col == StartCol(g, row)
      requires canvas.Shows(before, g.charSizes, g.charWidth)
      modifies canvas
      ensures canvas.Shows(before, g.charSizes, g.charWidth)
      ensures canvas.strokes == old(canvas.strokes) + run
      ensures Run(run, status) == RowRun(g, row, buffer)
      ensures status == Done ==> i == Cursor(g, row + 1)
    {
      RowShape(g, row, buffer);
      ghost var lead := RowLabel(g, row);
      DrawLandmark(canvas, g, row, i0, y, false, before);
      var fill := WithAlpha(g.color, FadeInAlpha(row, g.fadeInRows));
      assert Fill(g, row) == fill && LoopStart(g, row) == col && LoopEnd(g, row, i0) == g.bytesPerRow;
      ghost var cells;
      status, i, cells := DrawCells(canvas, g, y, fill, x, i0, col, g.bytesPerRow, buffer, before);
      run := lead + cells;
      Concat(old(canvas.strokes), lead, cells);
    }

    /** The body rows `fadeInRows .. rows - fadeOutRows - 1`, drawn after the strokes `base`. */
    method BodyPhase(canvas: Canvas, g: Geometry, buffer: seq<int>, row0: nat, i0: nat, x0: int, y0: int, col0: nat,
                       ghost base: seq<Digits>, ghost before: seq<Glyph>)
      returns (status: Status, row: nat, i: nat, x: int, y: int, col: nat)
      requires Drives(g) && WellFormed(g) && row0 == g.fadeInRows
      requires i0 == Cursor(g, row0) && x0 == RowX(g, row0) && y0 == RowY(g, row0) && col0 == StartCol(g, row0)
      requires canvas.strokes == base && canvas.Shows(before, g.charSizes, g.charWidth)
      modifies canvas
      ensures canvas.Shows(before, g.charSizes, g.charWidth)
      ensures canvas.strokes == base + Span(g, row0, g.rows - g.fadeOutRows, buffer).calls
      ensures status == Span(g, row0, g.rows - g.fadeOutRows, buffer).status
      ensures status == Done ==> row == g.rows - g.fadeOutRows && i == Cursor(g, row) && x == RowX(g, row) && y == RowY(g, row) && col == StartCol(g, row)
    {
      row, i, x, y, col := row0, i0, x0, y0, col0;
      AppendNothing(base);
      while row < g.rows - g.fadeOutRows
        invariant row0 <= row <= g.rows - g.fadeOutRows
        invariant i == Cursor(g, row) && x == RowX(g, row) && y == RowY(g, row) && col == StartCol(g, row)
        invariant Span(g, row0, row, buffer).status == Done
        invariant canvas.strokes == base + Span(g, row0, row, buffer).calls
        invariant canvas.Shows(before, g.charSizes, g.charWidth)
      {
        status, row, i, x, y, col := Step(canvas, g, buffer, row0, row, i, x, y, col, base, before);
        if status != Done {
          FailureSticks(g, row0, row, g.rows - g.fadeOutRows, buffer);
          return;
        }
      }
      status := Done;
    }

    /** The body of body row `row`: its landmark label, except on the first
        body row, which already has one, then the columns up to the last
        byte, in the drawer's colour. */
    method BodyRow(canvas: Canvas, g: Geometry, buffer: seq<int>, row: nat, i0: nat, x: int, y: int, col: nat,
                 ghost before: seq<Glyph>)
      returns (status: Status, i: nat, ghost run: seq<Digits>)
      requires Drives(g) && WellFormed(g) && g.fadeInRows <= row < g.rows - g.fadeOutRows
      requires i0 == Cursor(g, row) && x == RowX(g, row) && y == RowY(g, row) && col == StartCol(g, row)
      requires canvas.Shows(before, g.charSizes, g.charWidth)
      modifies canvas
      ensures canvas.Shows(before, g.charSizes, g.charWidth)
      ensures canvas.strokes == old(canvas.strokes) + run
      ensures Run(run, status) == RowRun(g, row, buffer)
      ensures status == Done ==> i == Cursor(g, row + 1)
    {
      RowShape(g, row, buffer);
      ghost var lead := RowLabel(g, row);
      DrawLandmark(canvas, g, row, i0, y, row == g.fadeInRows, before);
      var maxCol := Min(g.bytesPerRow, col + g.count - i0);
      assert Fill(g, row) == g.color && LoopStart(g, row) == col && LoopEnd(g, row, i0) == maxCol;
      ghost var cells;
      status, i, cells := DrawCells(canvas, g, y, g.color, x, i0, col, maxCol, buffer, before);
      run := lead + cells;
      Concat(old(canvas.strokes), lead, cells);
    }

    /** The fade-out rows `rows - fadeOutRows .. rows - 1`, drawn after the strokes `base` and the body rows. */
    method FadeOutPhase(canvas: Canvas, g: Geometry, buffer: seq<int>, row0: nat, i0: nat, x0: int, y0: int, col0: nat,
                       ghost base: seq<Digits>, ghost before: seq<Glyph>)
      returns (status: Status)
      requires Drives(g) && WellFormed(g) && row0 == g.rows - g.fadeOutRows
      requires i0 == Cursor(g, row0) && x0 == RowX(g, row0) && y0 == RowY(g, row0) && col0 == StartCol(g, row0)
      requires Span(g, g.fadeInRows, row0, buffer).status == Done
      requires canvas.strokes == base + Span(g, g.fadeInRows, row0, buffer).calls
      requires canvas.Shows(before, g.charSizes, g.charWidth)
      modifies canvas
      ensures canvas.Shows(before, g.charSizes, g.charWidth)
      ensures canvas.strokes == base + Span(g, g.fadeInRows, g.rows, buffer).calls
      ensures status == Span(g, g.fadeInRows, g.rows, buffer).status
    {
      var row, i, x, y, col := row0, i0, x0, y0, col0;
      while row < g.rows
        invariant row0 <= row <= g.rows
        invariant i == Cursor(g, row) && x == RowX(g, row) && y == RowY(g, row) && col == StartCol(g, row)
        invariant Span(g, g.fadeInRows, row, buffer).status == Done
        invariant canvas.strokes == base + Span(g, g.fadeInRows, row, buffer).calls
        invariant canvas.Shows(before, g.charSizes, g.charWidth)
      {
        status, row, i, x, y, col := Step(canvas, g, buffer, g.fadeInRows, row, i, x, y, col, base, before);
        if status != Done {
          FailureSticks(g, g.fadeInRows, row, g.rows, buffer);
          return;
        }
      }
      status := Done;
    }

    /** One pass of a row loop: row `row`, drawn as its phase's loop draws
        it, after rows `a .. row - 1`, then the state the next pass starts
        from. */
    method Step(canvas: Canvas, g: Geometry, buffer: seq<int>, a: nat, row: nat, i0: nat, x0: int, y0: int, col0: nat,
                ghost base: seq<Digits>, ghost before: seq<Glyph>)
      returns (status: Status, next: nat, i: nat, x: int, y: int, col: nat)
      requires Drives(g) && WellFormed(g) && a <= row < g.rows
      requires i0 == Cursor(g, row) && x0 == RowX(g, row) && y0 == RowY(g, row) && col0 == StartCol(g, row)
      requires Span(g, a, row, buffer).status == Done
      requires canvas.strokes == base + Span(g, a, row, buffer).calls && canvas.Shows(before, g.charSizes, g.charWidth)
      modifies canvas
      ensures next == row + 1
      ensures canvas.Shows(before, g.charSizes, g.charWidth)
      ensures canvas.strokes == base + Span(g, a, next, buffer).calls
      ensures status == Span(g, a, next, buffer).status
      ensures status == Done ==> i == Cursor(g, next) && x == RowX(g, next) && y == RowY(g, next) && col == StartCol(g, next)
    {
      next := row + 1;
      ghost var drawn := Span(g, a, row, buffer).calls;
      ghost var run;
      status, i, run := DrawRow(canvas, g, buffer, row, i0, x0, y0, col0, before);
      SpanStep(g, a, row, buffer, drawn, run, status);
      NextRowY(g, row);
      Concat(base, drawn, run);
      x := g.left + g.xOffset;
      y := y0 + g.charHeight;
      col := 0;
    }

    /** The body of fade-out row `row`: its landmark label, then the columns
        from column 0 up to the last byte, alpha falling down the band. */
    method FadeOutRow(canvas: Canvas, g: Geometry, buffer: seq<int>, row: nat, i0: nat, x: int, y: int, col: nat,
                 ghost before: seq<Glyph>)
      returns (status: Status, i: nat, ghost run: seq<Digits>)
      requires Drives(g) && WellFormed(g) && g.rows - g.fadeOutRows <= row < g.rows
      requires i0 == Cursor(g, row) && x == RowX(g, row) && y == RowY(g, row) && col == StartCol(g, row)
      requires canvas.Shows(before, g.charSizes, g.charWidth)
      modifies canvas
      ensures canvas.Shows(before, g.charSizes, g.charWidth)
      ensures canvas.strokes == old(canvas.strokes) + run
      ensures Run(run, status) == RowRun(g, row, buffer)
      ensures status == Done ==> i == Cursor(g, row + 1)
    {
      RowShape(g, row, buffer);
      ghost var lead := RowLabel(g, row);
      DrawLandmark(canvas, g, row, i0, y, false, before);
      var fill := WithAlpha(g.color, FadeOutAlpha(row, g.rows, g.fadeOutRows));
      var maxCol := Min(g.bytesPerRow, col + g.count - i0);
      assert Fill(g, row) == fill && LoopStart(g, row) == 0 && LoopEnd(g, row, i0) == maxCol;
      ghost var cells;
      status, i, cells := DrawCells(canvas, g, y, fill, x, i0, 0, maxCol, buffer, before);
      run := lead + cells;
      Concat(old(canvas.strokes), lead, cells);
    }

    /** The landmark label at the start of row `row`: the row's first
        address when it is a multiple of 0x80, unless `skip` (the first body
        row, whose label was drawn after the fade-in rows). */
    method DrawLandmark(canvas: Canvas, g: Geometry, row: nat, i0: nat, y: int, skip: bool,
                        ghost before: seq<Glyph>)
      requires Drives(g) && WellFormed(g) && row < g.rows
      requires i0 == Cursor(g, row) && y == RowY(g, row)
      requires skip == (PhaseOf(g, row) == Body && row == g.fadeInRows)
      requires canvas.Shows(before, g.charSizes, g.charWidth)
      modifies canvas
      ensures canvas.Shows(before, g.charSizes, g.charWidth)
      ensures canvas.strokes == old(canvas.strokes) + RowLabel(g, row)
    {
      assert RowLabel(g, row) == if Landmark(g, i0) && !skip then [Label(g, row)] else [];
      if (g.address + i0) % 0x80 == 0 && !skip {
        DrawDigits(canvas, g.left, y, g.color, g.address + i0, g.digits);
        InkOneMore(g.charSizes, g.charWidth, before, old(canvas.strokes), Label(g, row));
      } else {
        AppendNothing(canvas.strokes);
      }
    }

    /** The drawer draws with the glyph sizes the geometry was built from. */
    ghost predicate Drives(g: Geometry)
      reads this
    {
      g.charSizes == charSizes && g.charWidth == charWidth
    }

    /** One column loop of `draw`: the cells of columns `start .. end - 1`
        from `x0`, bytes `buffer[i0]`, `buffer[i0 + 1]`, ..., stopping at the
        first missing or out-of-range byte. */
    method DrawCells(canvas: Canvas, g: Geometry, y: int, fill: Rgba, x0: int, i0: nat, start: nat, end: int,
                     buffer: seq<int>, ghost before: seq<Glyph>)
      returns (status: Status, i: nat, ghost run: seq<Digits>)
      requires Drives(g) && |g.charSizes| == 16 && end <= |g.separators|
      requires canvas.Shows(before, g.charSizes, g.charWidth)
      modifies canvas
      ensures canvas.Shows(before, g.charSizes, g.charWidth)
      ensures canvas.strokes == old(canvas.strokes) + run
      ensures Run(run, status) == CellsRun(g, y, fill, i0, x0, start, end, buffer)
      ensures status == Done ==> i == i0 + Max(0, end - start)
    {
      i := i0;
      var x, col := x0, start;
      run := [];
      AppendNothing(canvas.strokes);
      while col < end
        invariant start <= col && (col <= end || col == start)
        invariant i == i0 + (col - start)
        invariant canvas.Shows(before, g.charSizes, g.charWidth)
        invariant canvas.strokes == old(canvas.strokes) + run
        invariant CellsRun(g, y, fill, i0, x0, start, end, buffer) == Prepend(run, CellsRun(g, y, fill, i, x, col, end, buffer))
        decreases end - col
      {
        if i >= |buffer| {
          AppendNothing(run);
          return Failed(MissingByte(i)), i, run;
        }
        if !(0 <= buffer[i] <= 255) {
          AppendNothing(run);
          return Failed(BadByte(i, buffer[i])), i, run;
        }
        ghost var cell := Digits(x, y, fill, buffer[i], 2);
        ghost var rest := CellsRun(g, y, fill, i + 1, x + Advance(g, col), col + 1, end, buffer);
        Concat(run, [cell], rest.calls);
        ghost var strokes := canvas.strokes;
        DrawDigits(canvas, x, y, fill, buffer[i], 2);
        InkOneMore(g.charSizes, g.charWidth, before, strokes, cell);
        Concat(old(canvas.strokes), run, [cell]);
        run := run + [cell];
        x := x + g.advance + g.separators[col];
        i := i + 1;
        col := col + 1;
      }
      status := Done;
      AppendNothing(run);
    }

    /** `drawDigits`: draw the low `digits` nibbles of `value`, most
        significant first, one cell each, from `(x, y)`. */
    method DrawDigits(canvas: Canvas, x: int, y: int, fill: Rgba, value: int, digits: nat)
      requires |charSizes| == 16
      modifies canvas
      ensures canvas.glyphs == old(canvas.glyphs) + DigitGlyphs(charSizes, charWidth, x, y, fill, value, digits)
      ensures canvas.strokes == old(canvas.strokes) + [Digits(x, y, fill, value, digits)]
    {
      ghost var run := DigitGlyphs(charSizes, charWidth, x, y, fill, value, digits);
      var cx := x;
      var align := 1;
      var i := 0;
      while i < digits
        invariant 0 <= i <= digits
        invariant cx == x + i * charWidth
        invariant align == if i == 0 then 1 else 0
        invariant canvas.glyphs == old(canvas.glyphs) + run[..i]
        invariant canvas.strokes == old(canvas.strokes)
      {
        // nibble i, counted from the most significant one
        var digit := (value / Pow16(digits - i - 1)) % 16;
        var ch := HexChar(digit);
        var offset := (charWidth - charSizes[digit].w + align) / 2;
        canvas.Text(cx + offset, y, ch, fill);
        assert run[..i + 1] == run[..i] + [run[i]];
        align := 0;
        cx := cx + charWidth;
        i := i + 1;
      }
      assert run[..digits] == run;
      canvas.strokes := canvas.strokes + [Digits(x, y, fill, value, digits)];
    }
  }

  lemma ModAtMost(a: nat, d: nat)
    requires d > 0
    ensures a % d <= a
  {
    if a < d {
      DivUnique(a, d, 0, a);
    }
  }
}
