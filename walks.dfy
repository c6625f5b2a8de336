/** What the row walk of `HexDrawer.draw` promises: which bytes it reads,
    that it finishes exactly when those are all present and are bytes (and
    otherwise stops at the first that is not), which cell shows which byte
    and where the columns of a row land. */
module Walks {
  import opened Hex
  import opened Colors
  import opened Glyphs
  import opened Layout

  /** Bytes `lo .. hi - 1` of `buffer` are present and in 0..255. */
  predicate Readable(buffer: seq<int>, lo: nat, hi: nat)
  {
    (lo < hi ==> hi <= |buffer|) && forall k :: lo <= k < hi ==> 0 <= buffer[k] <= 255
  }

  /** Byte `k` is past the end of `buffer` or is not a byte. */
  predicate Unreadable(buffer: seq<int>, k: nat)
  {
    k >= |buffer| || !(0 <= buffer[k] <= 255)
  }

  /** How the walk reports that it stopped at byte `k`: `buffer[k]` raised
      (the byte is missing) or the range `assert` failed. */
  function Stop(buffer: seq<int>, k: nat): Status
  {
    if k >= |buffer| then Failed(MissingByte(k)) else Failed(BadByte(k, buffer[k]))
  }

  /** `status` reports the first unreadable byte between `lo` and `hi`. */
  predicate StopsFirst(buffer: seq<int>, lo: nat, hi: nat, status: Status)
  {
    status.Failed? && (status.fault.MissingByte? || status.fault.BadByte?)
    && lo <= status.fault.index < hi
    && Readable(buffer, lo, status.fault.index) && Unreadable(buffer, status.fault.index)
    && status == Stop(buffer, status.fault.index)
  }

  /** `x` of the cell of column `d` when a column loop starts at column `c`
      at `x`: every column moves `x` on by its advance. */
  function ColumnX(g: Geometry, x: int, c: nat, d: nat): int
    requires d <= |g.separators|
    decreases d - c
  {
    if d <= c then x else ColumnX(g, x + Advance(g, c), c + 1, d)
  }

  /** A column loop from column `c` to `end` draws one two-digit cell per
      byte, the `j`-th showing `buffer[i + j]` at column `c + j`; it
      finishes exactly when all its bytes are readable, and otherwise
      stops at the first that is not, keeping the cells before it. */
  lemma {:induction false} CellsRunShows(g: Geometry, y: int, fill: Rgba, i: nat, x: int, c: nat, end: int,
                                         buffer: seq<int>)
    requires end <= |g.separators|
    ensures var run := CellsRun(g, y, fill, i, x, c, end, buffer);
            |run.calls| <= Max(0, end - c) && Readable(buffer, i, i + |run.calls|)
            && (forall j :: 0 <= j < |run.calls| ==>
                  run.calls[j] == Digits(ColumnX(g, x, c, c + j), y, fill, buffer[i + j], 2))
            && (run.status == Done <==> |run.calls| == Max(0, end - c))
            && (run.status == Done <==> Readable(buffer, i, i + Max(0, end - c)))
            && (run.status != Done ==> StopsFirst(buffer, i, i + Max(0, end - c), run.status))
    decreases end - c
  {
    var run := CellsRun(g, y, fill, i, x, c, end, buffer);
    if c >= end {
    } else if i >= |buffer| {
    } else if !(0 <= buffer[i] <= 255) {
    } else {
      var x' := x + Advance(g, c);
      var rest := CellsRun(g, y, fill, i + 1, x', c + 1, end, buffer);
      CellsRunShows(g, y, fill, i + 1, x', c + 1, end, buffer);
      assert run.calls == [Digits(x, y, fill, buffer[i], 2)] + rest.calls;
      forall j | 0 <= j < |run.calls|
        ensures run.calls[j] == Digits(ColumnX(g, x, c, c + j), y, fill, buffer[i + j], 2)
      {
        if j > 0 {
          assert run.calls[j] == rest.calls[j - 1];
          assert ColumnX(g, x, c, c + j) == ColumnX(g, x', c + 1, c + 1 + (j - 1));
        }
      }
      assert Readable(buffer, i, i + |run.calls|) by {
        forall k | i <= k < i + |run.calls| ensures 0 <= buffer[k] <= 255 {
          if k > i {
            assert i + 1 <= k < i + 1 + |rest.calls|;
          }
        }
      }
      if run.status == Done {
        assert Readable(buffer, i, i + Max(0, end - c)) by {
          forall k | i <= k < i + Max(0, end - c) ensures 0 <= buffer[k] <= 255 {
            if k > i {
              assert i + 1 <= k < i + 1 + Max(0, end - (c + 1));
            }
          }
        }
      }
    }
  }

  /** Row `r` finishes exactly when the bytes from its cursor up to the next
      row's are readable; otherwise it stops at the first that is not. */
  lemma RowShows(g: Geometry, r: nat, buffer: seq<int>)
    requires WellFormed(g) && r < g.rows
    ensures Cursor(g, r) <= Cursor(g, r + 1)
    ensures RowRun(g, r, buffer).status == Done <==> Readable(buffer, Cursor(g, r), Cursor(g, r + 1))
    ensures RowRun(g, r, buffer).status != Done
            ==> StopsFirst(buffer, Cursor(g, r), Cursor(g, r + 1), RowRun(g, r, buffer).status)
  {
    RowShape(g, r, buffer);
    CellsRunShows(g, RowY(g, r), Fill(g, r), Cursor(g, r), RowX(g, r),
                  LoopStart(g, r), LoopEnd(g, r, Cursor(g, r)), buffer);
  }

  /** Readable bytes split at any point in between. */
  lemma ReadableSplit(buffer: seq<int>, lo: nat, mid: nat, hi: nat)
    requires lo <= mid <= hi
    ensures Readable(buffer, lo, hi) <==> Readable(buffer, lo, mid) && Readable(buffer, mid, hi)
  {
  }

  /** Rows `a .. b - 1` finish exactly when the bytes from row `a`'s cursor
      to row `b`'s are readable; otherwise they stop at the first that is
      not. */
  lemma {:induction false} SpanShows(g: Geometry, a: nat, b: nat, buffer: seq<int>)
    requires WellFormed(g) && a <= b <= g.rows
    ensures Cursor(g, a) <= Cursor(g, b)
    ensures Span(g, a, b, buffer).status == Done <==> Readable(buffer, Cursor(g, a), Cursor(g, b))
    ensures Span(g, a, b, buffer).status != Done
            ==> StopsFirst(buffer, Cursor(g, a), Cursor(g, b), Span(g, a, b, buffer).status)
    decreases b
  {
    if a == b {
      assert Span(g, a, b, buffer) == Run([], Done);
    } else {
      var r := b - 1;
      SpanShows(g, a, r, buffer);
      RowShows(g, r, buffer);
      assert Span(g, a, b, buffer) == RowsThen(g, a, r, buffer);
      assert Span(g, a, b, buffer) == Then(Span(g, a, r, buffer), RowRun(g, r, buffer));
      ReadableSplit(buffer, Cursor(g, a), Cursor(g, r), Cursor(g, b));
    }
  }

  /** The walk finishes exactly when `buffer[0]` up to the byte at the
      final cursor are all present and are bytes; otherwise it stops at
      the first that is not. */
  lemma WalkShows(g: Geometry, buffer: seq<int>)
    requires WellFormed(g)
    ensures Walk(g, buffer).status == Done <==> Readable(buffer, 0, Cursor(g, g.rows))
    ensures Walk(g, buffer).status != Done ==> StopsFirst(buffer, 0, Cursor(g, g.rows), Walk(g, buffer).status)
  {
    SpanShows(g, 0, g.fadeInRows, buffer);
    SpanShows(g, g.fadeInRows, g.rows, buffer);
    assert Cursor(g, 0) == 0;
    ReadableSplit(buffer, 0, Cursor(g, g.fadeInRows), Cursor(g, g.rows));
  }

  /** The fade-in rows read whole rows from the first column: after `r` of
      them the cursor is `r * bytesPerRow - firstColumn`, whatever `count`
      is. */
  lemma {:induction false} FadeInCursor(g: Geometry, r: nat)
    requires WellFormed(g) && r <= g.fadeInRows
    ensures Cursor(g, r) == if r == 0 then 0 else r * g.bytesPerRow - g.firstColumn
  {
    if r > 0 {
      FadeInCursor(g, r - 1);
      assert r * g.bytesPerRow == (r - 1) * g.bytesPerRow + g.bytesPerRow;
    }
  }

  /** The walk reads no byte past the `count` of the dump: the fade-in band
      ends inside the dump, and the first row is not a fade-out row that
      starts after column 0. */
  predicate StaysInDump(g: Geometry)
  {
    (g.fadeInRows == 0 || g.fadeInRows * g.bytesPerRow - g.firstColumn <= g.count)
    && (PhaseOf(g, 0) == FadeOut ==> g.firstColumn == 0)
  }

  /** From the end of the fade-in band on, each row reads a row's worth of
      the bytes still left: the cursor at row `r` is
      `min(count, r * bytesPerRow - firstColumn)`. */
  lemma {:induction false} CursorAfterFadeIn(g: Geometry, r: nat)
    requires WellFormed(g) && StaysInDump(g) && g.fadeInRows <= r <= g.rows
    ensures Cursor(g, r) == Min(g.count, Max(0, r * g.bytesPerRow - g.firstColumn))
    decreases r
  {
    if r == g.fadeInRows {
      FadeInCursor(g, r);
    } else {
      CursorAfterFadeIn(g, r - 1);
      assert r * g.bytesPerRow == (r - 1) * g.bytesPerRow + g.bytesPerRow;
      assert LoopStart(g, r - 1) == StartCol(g, r - 1);
    }
  }

  /** The cursor never moves back. */
  lemma {:induction false} CursorMonotone(g: Geometry, r: nat, s: nat)
    requires r <= s
    ensures Cursor(g, r) <= Cursor(g, s)
    decreases s
  {
    if r < s {
      CursorMonotone(g, r, s - 1);
    }
  }

  /** With the row count of `draw`, a walk that stays in the dump reads
      each of the `count` bytes once: the cursor never passes `count` and
      ends on it. */
  lemma CursorReachesCount(g: Geometry)
    requires WellFormed(g) && Fitted(g) && StaysInDump(g)
    ensures Cursor(g, g.rows) == g.count
    ensures forall r :: 0 <= r <= g.rows ==> Cursor(g, r) <= g.count
  {
    CeilDiv(g.firstColumn + g.count, g.bytesPerRow);
    CursorAfterFadeIn(g, g.rows);
    forall r | 0 <= r <= g.rows
      ensures Cursor(g, r) <= g.count
    {
      if r >= g.fadeInRows {
        CursorAfterFadeIn(g, r);
      } else {
        CursorMonotone(g, r, g.fadeInRows);
        FadeInCursor(g, g.fadeInRows);
      }
    }
  }

  /** A walk that stays in the dump finishes exactly when the `count` bytes
      of the dump are all present and are bytes. */
  lemma WalkNeedsTheDump(g: Geometry, buffer: seq<int>)
    requires WellFormed(g) && Fitted(g) && StaysInDump(g)
    ensures Walk(g, buffer).status == Done <==> Readable(buffer, 0, g.count)
  {
    WalkShows(g, buffer);
    CursorReachesCount(g);
  }

  /** The extra gaps `__getGroupSeparators` builds: `gap` after every
      `size`-th column. */
  predicate Grouped(separators: seq<int>, size: nat, gap: int)
  {
    size > 0 && forall c :: 0 <= c < |separators| ==> separators[c] == if (c + 1) % size == 0 then gap else 0
  }

  /** Column `c + 1` starts a new group exactly when `c` ends one. */
  lemma NextGroup(c: nat, size: nat)
    requires size > 0
    ensures (c + 1) / size == c / size + (if (c + 1) % size == 0 then 1 else 0)
  {
    var q, r := c / size, c % size;
    if r + 1 < size {
      DivUnique(c + 1, size, q, r + 1);
    } else {
      DivUnique(c + 1, size, q + 1, 0);
    }
  }

  /** With grouped separators, going from column `c` to column `d` moves
      `x` by `d - c` column advances and one group gap per group boundary
      crossed. */
  lemma {:induction false} ColumnXClosed(g: Geometry, x: int, c: nat, d: nat, size: nat, gap: int)
    requires Grouped(g.separators, size, gap) && c <= d <= |g.separators|
    ensures ColumnX(g, x, c, d) == x + (d - c) * g.advance + (d / size - c / size) * gap
    decreases d - c
  {
    if c < d {
      var x' := x + Advance(g, c);
      ColumnXClosed(g, x', c + 1, d, size, gap);
      var a, b, e := c / size, (c + 1) / size, d / size;
      NextGroup(c, size);
      if (c + 1) % size == 0 {
        assert b - a == 1;
      } else {
        assert b - a == 0;
      }
      assert Advance(g, c) == g.advance + (b - a) * gap;
      Telescope(x, g.advance, d - (c + 1), a, b, e, gap);
    }
  }

  /** One more column: `x` moved by one advance and one step of groups,
      then `n` advances and the remaining groups, is `n + 1` advances and
      all the groups. */
  lemma Telescope(x: int, advance: int, n: int, a: int, b: int, e: int, gap: int)
    ensures (x + (advance + (b - a) * gap)) + n * advance + (e - b) * gap
            == x + (n + 1) * advance + (e - a) * gap
  {
    assert (n + 1) * advance == n * advance + advance;
    assert (b - a) * gap + (e - b) * gap == (e - a) * gap;
  }

  /** The first row's cells sit left of the cells of the same column in
      later rows by the group gaps of the columns it skips: its `x` starts
      `firstColumn` plain advances in. */
  lemma FirstRowShift(g: Geometry, c: nat, size: nat, gap: int)
    requires WellFormed(g) && Grouped(g.separators, size, gap) && g.firstColumn <= c <= g.bytesPerRow
    ensures ColumnX(g, RowX(g, 0), g.firstColumn, c) == ColumnX(g, RowX(g, 1), 0, c) - (g.firstColumn / size) * gap
  {
    var fc, edge := g.firstColumn, g.left + g.xOffset;
    assert RowX(g, 0) == edge + fc * g.advance && RowX(g, 1) == edge;
    ColumnXClosed(g, RowX(g, 0), fc, c, size, gap);
    ColumnXClosed(g, RowX(g, 1), 0, c, size, gap);
    Shift(edge, fc, c, g.advance, c / size, fc / size, gap);
  }

  /** Starting `fc` advances in and adding the advances of columns `fc`
      to `c` is adding the advances of columns 0 to `c`. */
  lemma Shift(edge: int, fc: int, c: int, advance: int, qc: int, qf: int, gap: int)
    ensures edge + fc * advance + (c - fc) * advance + (qc - qf) * gap
            == edge + (c - 0) * advance + (qc - 0) * gap - qf * gap
  {
    assert fc * advance + (c - fc) * advance == c * advance;
    assert (qc - qf) * gap == qc * gap - qf * gap;
  }

  /** A label spells the address of its row's first byte, modulo
      16^digits: exactly, when the digit count reaches past the address. */
  lemma {:induction false} LabelReadsBack(g: Geometry, r: nat)
    requires |g.charSizes| == 16
    ensures ParseHex(Text(CallGlyphs(g.charSizes, g.charWidth, Label(g, r))))
            == (g.address + Cursor(g, r)) % Pow16(g.digits)
    ensures g.address + Cursor(g, r) < Pow16(g.digits)
            ==> ParseHex(Text(CallGlyphs(g.charSizes, g.charWidth, Label(g, r)))) == g.address + Cursor(g, r)
  {
    var c := Label(g, r);
    assert c.value == g.address + Cursor(g, r) && c.digits == g.digits;
    CallReadsBack(g.charSizes, g.charWidth, c);
  }

  /** The glyphs of one `drawDigits` call read back as its value modulo
      `16^digits`, and as the value itself when it fits. */
  lemma CallReadsBack(sizes: seq<CharSize>, cellWidth: int, c: Digits)
    requires |sizes| == 16
    ensures ParseHex(Text(CallGlyphs(sizes, cellWidth, c))) == c.value % Pow16(c.digits)
    ensures 0 <= c.value < Pow16(c.digits) ==> ParseHex(Text(CallGlyphs(sizes, cellWidth, c))) == c.value
  {
    DigitGlyphsReadBack(sizes, cellWidth, c.x, c.y, c.fill, c.value, c.digits);
    if 0 <= c.value < Pow16(c.digits) {
      DivUnique(c.value, Pow16(c.digits), 0, c.value);
    }
  }

  /** Fade bands change only the alpha of the drawer's colour; body rows
      use it as it is. */
  lemma FillKeepsColour(g: Geometry, r: nat)
    requires WellFormed(g) && r < g.rows
    ensures Fill(g, r).r == g.color.r && Fill(g, r).g == g.color.g && Fill(g, r).b == g.color.b
    ensures PhaseOf(g, r) == Body ==> Fill(g, r) == g.color
    ensures PhaseOf(g, r) == FadeIn ==> Fill(g, r).a < 255
    ensures PhaseOf(g, r) == FadeOut ==> Fill(g, r).a == FadeInAlpha(g.rows - 1 - r, g.fadeOutRows)
  {
  }
}
