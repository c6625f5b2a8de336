/** Two column loops of `draw` read past the `count` bytes of the dump: the
    fade-in loop runs to the end of the row whatever `count` is
    (hexdoc.py:104), and the fade-out loop starts at column 0 even on the
    first row, whose `col` is `firstColumn` (hexdoc.py:133-134). This module
    shows each on a one-row dump and defines the cursor of the loops as
    evidently intended, every loop running
    `range(col, min(bytesPerRow, col + count - i))`, which reads each byte
    of the dump exactly once. */
module Corrected {
  import opened Hex
  import opened Colors
  import opened Glyphs
  import opened Layout
  import opened Walks

  /** Cells of row `r` with the cursor at `i` when its loop runs
      `range(col, min(bytesPerRow, col + count - i))`. */
  function CappedCellCount(g: Geometry, r: nat, i: int): nat
  {
    Max(0, Min(g.bytesPerRow, StartCol(g, r) + g.count - i) - StartCol(g, r))
  }

  /** The byte cursor at the start of row `r` with every loop capped. */
  function CappedCursor(g: Geometry, r: nat): nat
    decreases r
  {
    if r == 0 then 0 else CappedCursor(g, r - 1) + CappedCellCount(g, r - 1, CappedCursor(g, r - 1))
  }

  /** With capped loops every row reads a row's worth of what is left: the
      cursor at row `r` is `min(count, r * bytesPerRow - firstColumn)`. */
  lemma {:induction false} CappedCursorClosed(g: Geometry, r: nat)
    requires g.firstColumn < g.bytesPerRow
    ensures CappedCursor(g, r) == Min(g.count, Max(0, r * g.bytesPerRow - g.firstColumn))
    decreases r
  {
    if r > 0 {
      CappedCursorClosed(g, r - 1);
      assert r * g.bytesPerRow == (r - 1) * g.bytesPerRow + g.bytesPerRow;
    }
  }

  /** With capped loops and the row count of `draw`, the walk reads each of
      the `count` bytes exactly once, whatever the fade bands. */
  lemma CappedReadsTheDump(g: Geometry)
    requires WellFormed(g) && Fitted(g)
    ensures CappedCursor(g, g.rows) == g.count
    ensures forall r :: 0 <= r <= g.rows ==> CappedCursor(g, r) <= g.count
  {
    CeilDiv(g.firstColumn + g.count, g.bytesPerRow);
    CappedCursorClosed(g, g.rows);
    forall r | 0 <= r <= g.rows
      ensures CappedCursor(g, r) <= g.count
    {
      CappedCursorClosed(g, r);
    }
  }

  /** Where the source stays in the dump, its loops and the capped ones
      agree row by row. */
  lemma CappedAgrees(g: Geometry, r: nat)
    requires WellFormed(g) && StaysInDump(g) && r <= g.rows
    ensures Cursor(g, r) == CappedCursor(g, r)
  {
    CappedCursorClosed(g, r);
    if r >= g.fadeInRows {
      CursorAfterFadeIn(g, r);
    } else {
      FadeInCursor(g, r);
      MulMonotone(g.bytesPerRow, r, g.fadeInRows);
      assert r * g.bytesPerRow <= g.fadeInRows * g.bytesPerRow;
    }
  }

  /** A dump whose first row is a fade-out row starting at column
      `firstColumn > 0`, shorter than a row: the loop runs from column 0 to
      `min(bytesPerRow, firstColumn + count)`, past the last byte, so on a
      buffer that holds exactly the dump the walk fails at `buffer[count]`
      (for example one byte at address 2 with one fade-out row). Capped,
      the walk reads exactly the `count` bytes. */
  lemma FadeOutFirstRowOverrun(g: Geometry, buffer: seq<int>)
    requires WellFormed(g) && g.rows > 0 && PhaseOf(g, 0) == FadeOut
    requires 0 < g.firstColumn && g.count < g.bytesPerRow
    requires |buffer| == g.count && Readable(buffer, 0, g.count)
    ensures Cursor(g, 1) == Min(g.bytesPerRow, g.firstColumn + g.count) > g.count
    ensures Walk(g, buffer).status == Failed(MissingByte(g.count))
  {
    assert LoopStart(g, 0) == 0;
    assert Cursor(g, 1) == CellCount(g, 0, 0);
    CursorMonotone(g, 1, g.rows);
    WalkShows(g, buffer);
    ReadablePrefix(buffer, Walk(g, buffer).status.fault.index, g.count);
  }

  /** A fade-in band that needs more bytes than the dump has (only
      possible when it takes every row and the last row is partial): the
      fade-in loop runs to the end of each row, so on a buffer that holds
      exactly the dump the walk fails at `buffer[count]` (for example one
      byte at address 0 with one fade-in row). Capped, the walk reads
      exactly the `count` bytes. */
  lemma FadeInOverrun(g: Geometry, buffer: seq<int>)
    requires WellFormed(g) && g.fadeInRows > 0
    requires g.fadeInRows * g.bytesPerRow - g.firstColumn > g.count
    requires |buffer| == g.count && Readable(buffer, 0, g.count)
    ensures Cursor(g, g.fadeInRows) > g.count
    ensures Walk(g, buffer).status == Failed(MissingByte(g.count))
  {
    FadeInCursor(g, g.fadeInRows);
    CursorMonotone(g, g.fadeInRows, g.rows);
    WalkShows(g, buffer);
    ReadablePrefix(buffer, Walk(g, buffer).status.fault.index, g.count);
  }

  /** In a buffer whose `count` bytes are all bytes, the first unreadable
      byte is `buffer[count]`. */
  lemma ReadablePrefix(buffer: seq<int>, k: nat, count: nat)
    requires |buffer| == count && Readable(buffer, 0, count) && Unreadable(buffer, k)
    ensures k >= count
  {
  }
}
