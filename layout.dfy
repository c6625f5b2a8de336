/** The row walk of `HexDrawer.draw` as functions of the geometry `draw`
    fixes before drawing: where each row starts, which columns its loop
    visits, which byte each cell shows, and the glyphs the walk puts down,
    stopping at the first byte that is missing or out of range, as the
    `buffer[i]` lookup and `assert(0 <= buffer[i] <= 255)` do. */
module Layout {
  import opened Hex
  import opened Colors
  import opened Glyphs

  /** What `draw` fixes before its first glyph (hexdoc.py:81-97). */
  datatype Geometry = Geometry(
    left: int, top: int,          // `position`
    xOffset: int,                 // width of the address column and gutter
    firstColumn: nat,             // column of the first byte
    rows: nat,
    digits: nat,                  // digits of every address label
    bytesPerRow: nat,
    separators: seq<int>,         // extra gap after each column
    advance: int,                 // 2 * charWidth + byteGap
    charSizes: seq<CharSize>,
    charWidth: int,
    charHeight: int,
    fadeInRows: nat,
    fadeOutRows: nat,
    color: Rgba,
    count: nat,
    address: nat)

  /** The facts the walk needs when `draw` starts drawing: positive row
      width, one separator per column, a first column inside the row, fade
      bands that fit in the rows (the `assert` at hexdoc.py:95) and sixteen
      glyph sizes. */
  predicate WellFormed(g: Geometry)
  {
    g.bytesPerRow > 0 && |g.separators| == g.bytesPerRow && g.firstColumn < g.bytesPerRow
    && g.rows >= g.fadeInRows + g.fadeOutRows
    && |g.charSizes| == 16
  }

  /** The row count of `draw`: `ceil((firstColumn + count) / bytesPerRow)`
      (hexdoc.py:93). */
  predicate Fitted(g: Geometry)
    requires g.bytesPerRow > 0
  {
    g.rows == (g.firstColumn + g.count + g.bytesPerRow - 1) / g.bytesPerRow
  }

  datatype Phase = FadeIn | Body | FadeOut

  /** The loop of `draw` that handles row `r`. */
  function PhaseOf(g: Geometry, r: nat): Phase
  {
    if r < g.fadeInRows then FadeIn
    else if r < g.rows - g.fadeOutRows then Body
    else FadeOut
  }

  /** Value of `col` when row `r` begins: `firstColumn` on the first row,
      0 afterwards. */
  function StartCol(g: Geometry, r: nat): nat
  {
    if r == 0 then g.firstColumn else 0
  }

  /** First column the row's column loop visits: fade-out rows always start
      at column 0 (`range(0, maxCol)`, hexdoc.py:134). */
  function LoopStart(g: Geometry, r: nat): nat
  {
    if PhaseOf(g, r) == FadeOut then 0 else StartCol(g, r)
  }

  /** Bound of the row's column loop when the cursor is at `i`: fade-in rows
      run to the end of the row whatever `count` is (hexdoc.py:104); the
      others stop at `min(bytesPerRow, col + count - i)`. */
  function LoopEnd(g: Geometry, r: nat, i: int): int
  {
    if PhaseOf(g, r) == FadeIn then g.bytesPerRow
    else Min(g.bytesPerRow, StartCol(g, r) + g.count - i)
  }

  /** Number of cells row `r` draws when the cursor is at `i`. */
  function CellCount(g: Geometry, r: nat, i: int): nat
  {
    if LoopEnd(g, r, i) > LoopStart(g, r) then LoopEnd(g, r, i) - LoopStart(g, r) else 0
  }

  /** The byte cursor `i` when row `r` begins: the bytes rows `0 .. r - 1`
      consumed, one row's cells at a time. */
  function Cursor(g: Geometry, r: nat): nat
    decreases r
  {
    if r == 0 then 0 else Cursor(g, r - 1) + CellCount(g, r - 1, Cursor(g, r - 1))
  }

  /** `x` when row `r` begins: the first row is shifted by `firstColumn`
      plain column advances, without the group gaps of the skipped columns
      (hexdoc.py:90); every later row starts at the grid's left edge. */
  function RowX(g: Geometry, r: nat): int
  {
    g.left + g.xOffset + (if r == 0 then g.firstColumn * g.advance else 0)
  }

  /** `y` of row `r`: each row one `charHeight` below the one before. */
  function RowY(g: Geometry, r: nat): int
  {
    g.top + r * g.charHeight
  }

  /** The colour of the cells of row `r`. */
  function Fill(g: Geometry, r: nat): Rgba
    requires WellFormed(g) && r < g.rows
  {
    match PhaseOf(g, r)
    case FadeIn => WithAlpha(g.color, FadeInAlpha(r, g.fadeInRows))
    case Body => g.color
    case FadeOut => WithAlpha(g.color, FadeOutAlpha(r, g.rows, g.fadeOutRows))
  }

  /** `2 * charWidth + byteGap + separators[c]`: how far `x` moves after
      column `c`. */
  function Advance(g: Geometry, c: nat): int
    requires c < |g.separators|
  {
    g.advance + g.separators[c]
  }

  /** An address that gets a label when a row starts on it. */
  predicate Landmark(g: Geometry, i: int)
  {
    (g.address + i) % 0x80 == 0
  }

  /** Why a render stops: `math.log` of a non-positive number, fade bands
      that do not fit (hexdoc.py:95), `buffer[i]` past the end of the
      buffer, a byte outside 0..255 (hexdoc.py:105, 120, 135). */
  datatype Fault =
    | LogDomain
    | FadeBandsTooLarge
    | MissingByte(index: nat)
    | BadByte(index: nat, value: int)

  datatype Status = Done | Failed(fault: Fault)

  /** The `drawDigits` calls a render makes, and how it ends. */
  datatype Run = Run(calls: seq<Digits>, status: Status)

  function Prepend(cs: seq<Digits>, run: Run): Run
  {
    Run(cs + run.calls, run.status)
  }

  /** Running `a` and then, if it finished, `b`. */
  function Then(a: Run, b: Run): Run
  {
    if a.status == Done then Prepend(a.calls, b) else a
  }

  // ---------------------------------------------------------------------
  // The walk read row by row: what the loops of `draw` produce.

  /** What a column loop from column `c` (at `x`, cursor `i`) up to `end`
      produces over `buffer`. */
  function CellsRun(g: Geometry, y: int, fill: Rgba, i: nat, x: int, c: nat, end: int,
                    buffer: seq<int>): Run
    requires end <= |g.separators|
    decreases end - c
  {
    if c >= end then Run([], Done)
    else if i >= |buffer| then Run([], Failed(MissingByte(i)))
    else if !(0 <= buffer[i] <= 255) then Run([], Failed(BadByte(i, buffer[i])))
    else Prepend([Digits(x, y, fill, buffer[i], 2)],
                 CellsRun(g, y, fill, i + 1, x + Advance(g, c), c + 1, end, buffer))
  }

  /** The address label of row `r`: the address of the row's first byte in
      the drawer's colour at the left edge. */
  function Label(g: Geometry, r: nat): Digits
  {
    Digits(g.left, RowY(g, r), g.color, g.address + Cursor(g, r), g.digits)
  }

  /** Row `r` starts with a landmark label. */
  predicate Landmarked(g: Geometry, r: nat)
  {
    Landmark(g, Cursor(g, r)) && !(PhaseOf(g, r) == Body && r == g.fadeInRows)
  }

  /** Row `r`'s landmark label, if it has one. */
  function RowLabel(g: Geometry, r: nat): seq<Digits>
  {
    if Landmarked(g, r) then [Label(g, r)] else []
  }

  /** What row `r` produces: its landmark label, then its cells. */
  function RowRun(g: Geometry, r: nat, buffer: seq<int>): Run
    requires WellFormed(g) && r < g.rows
  {
    Prepend(RowLabel(g, r),
            CellsRun(g, RowY(g, r), Fill(g, r), Cursor(g, r), RowX(g, r),
                     LoopStart(g, r), LoopEnd(g, r, Cursor(g, r)), buffer))
  }

  /** Row `r` as its loop sees it: the label, the cells between the
      loop's bounds, and the cursor moved past those cells. */
  lemma RowShape(g: Geometry, r: nat, buffer: seq<int>)
    requires WellFormed(g) && r < g.rows
    ensures RowRun(g, r, buffer)
            == Prepend(RowLabel(g, r), CellsRun(g, RowY(g, r), Fill(g, r), Cursor(g, r), RowX(g, r),
                                                LoopStart(g, r), LoopEnd(g, r, Cursor(g, r)), buffer))
    ensures Cursor(g, r + 1) == Cursor(g, r) + Max(0, LoopEnd(g, r, Cursor(g, r)) - LoopStart(g, r))
  {
  }

  /** What rows `a .. b - 1` produce, one after another, stopping at the
      first row that fails. */
  function Span(g: Geometry, a: nat, b: nat, buffer: seq<int>): Run
    requires WellFormed(g) && a <= b <= g.rows
    decreases b, 0
  {
    if b == a then Run([], Done) else RowsThen(g, a, b - 1, buffer)
  }

  /** Rows `a .. r - 1`, then row `r` if they finished. */
  function RowsThen(g: Geometry, a: nat, r: nat, buffer: seq<int>): Run
    requires WellFormed(g) && a <= r < g.rows
    decreases r, 1
  {
    Then(Span(g, a, r, buffer), RowRun(g, r, buffer))
  }

  /** What the whole walk produces over `buffer`: the fade-in rows, the
      label that always follows them, then the body and fade-out rows. */
  function Walk(g: Geometry, buffer: seq<int>): Run
    requires WellFormed(g)
  {
    Then(Span(g, 0, g.fadeInRows, buffer),
         Prepend([Label(g, g.fadeInRows)], Span(g, g.fadeInRows, g.rows, buffer)))
  }

  /** Row `r` after rows `a .. r - 1` produced `drawn`: the span adds what
      the row produced. */
  lemma SpanStep(g: Geometry, a: nat, r: nat, buffer: seq<int>, drawn: seq<Digits>, run: seq<Digits>, status: Status)
    requires WellFormed(g) && a <= r < g.rows
    requires Span(g, a, r, buffer) == Run(drawn, Done) && RowRun(g, r, buffer) == Run(run, status)
    ensures Span(g, a, r + 1, buffer) == Run(drawn + run, status)
  {
    assert Span(g, a, r + 1, buffer) == RowsThen(g, a, r, buffer);
  }

  /** A failed row ends the span: nothing after it is drawn. */
  lemma {:induction false} FailureSticks(g: Geometry, a: nat, r: nat, s: nat, buffer: seq<int>)
    requires WellFormed(g) && a <= r <= s <= g.rows && Span(g, a, r, buffer).status != Done
    ensures Span(g, a, s, buffer) == Span(g, a, r, buffer)
    decreases s - r
  {
    if r < s {
      FailureSticks(g, a, r, s - 1, buffer);
      assert Span(g, a, s, buffer) == RowsThen(g, a, s - 1, buffer);
    }
  }

  /** The walk when the fade-in rows fail: what they drew. */
  lemma WalkFadeInFails(g: Geometry, buffer: seq<int>)
    requires WellFormed(g) && Span(g, 0, g.fadeInRows, buffer).status != Done
    ensures Walk(g, buffer) == Span(g, 0, g.fadeInRows, buffer)
  {
  }

  /** The walk when the fade-in rows finish: their glyphs, the label, and
      then the rest of the rows. */
  lemma WalkAfterFadeIn(g: Geometry, buffer: seq<int>, head: seq<Digits>, tail: seq<Digits>, status: Status)
    requires WellFormed(g)
    requires Span(g, 0, g.fadeInRows, buffer) == Run(head, Done)
    requires Span(g, g.fadeInRows, g.rows, buffer) == Run(tail, status)
    ensures Walk(g, buffer) == Run(head + [Label(g, g.fadeInRows)] + tail, status)
  {
    Concat(head, [Label(g, g.fadeInRows)], tail);
  }

  /** Appending nothing changes nothing. */
  lemma AppendNothing<T>(a: seq<T>)
    ensures a + [] == a
  {
  }

  /** Appending in two steps is appending once. */
  lemma Concat<T>(a: seq<T>, b: seq<T>, c: seq<T>)
    ensures (a + b) + c == a + (b + c)
  {
  }

  lemma NextRowY(g: Geometry, r: nat)
    ensures RowY(g, r + 1) == RowY(g, r) + g.charHeight
  {
  }
}
