/** Glyph metrics and glyph placement of hexdoc.py. The font is reduced to
    what `setFont` records of it, the sixteen `font.getsize(c)` pairs, and
    the PIL drawing surface to a log of `ImageDraw.text` calls. */
module Glyphs {
  import opened Hex
  import opened Colors

  /** `font.getsize(c)` of one hex character: advance width and height. */
  datatype CharSize = CharSize(w: int, h: int)

  /** One `ImageDraw.text` call: character `ch` drawn at `(x, y)` in `fill`. */
  datatype Glyph = Glyph(x: int, y: int, ch: char, fill: Rgba)

  /** `max(w for w, h in charSizes)`: the cell width. */
  function MaxWidth(sizes: seq<CharSize>): (m: int)
    requires |sizes| > 0
    ensures forall k :: 0 <= k < |sizes| ==> sizes[k].w <= m
    ensures exists k :: 0 <= k < |sizes| && sizes[k].w == m
  {
    if |sizes| == 1 then sizes[0].w
    else
      var rest := MaxWidth(sizes[1..]);
      assert forall k :: 1 <= k < |sizes| ==> sizes[k] == sizes[1..][k - 1];
      Max(sizes[0].w, rest)
  }

  /** `max(h for w, h in charSizes)`: the cell (row) height. */
  function MaxHeight(sizes: seq<CharSize>): (m: int)
    requires |sizes| > 0
    ensures forall k :: 0 <= k < |sizes| ==> sizes[k].h <= m
    ensures exists k :: 0 <= k < |sizes| && sizes[k].h == m
  {
    if |sizes| == 1 then sizes[0].h
    else
      var rest := MaxHeight(sizes[1..]);
      assert forall k :: 1 <= k < |sizes| ==> sizes[k] == sizes[1..][k - 1];
      Max(sizes[0].h, rest)
  }

  /** Horizontal offset of a glyph of width `glyphWidth` inside a cell of
      width `cellWidth`; `align` is 1 for the first digit of a run and 0
      for the others, so an odd slack rounds right only on the first one. */
  function CenterOffset(cellWidth: int, glyphWidth: int, align: int): int
  {
    (cellWidth - glyphWidth + align) / 2
  }

  /** The glyphs `drawDigits` draws for `value` in a run of `digits` cells
      starting at `(x, y)`: nibble `i` (most significant first) centred in
      cell `i`. */
  function DigitGlyphs(sizes: seq<CharSize>, cellWidth: int, x: int, y: int, fill: Rgba,
                       value: int, digits: nat): (gs: seq<Glyph>)
    requires |sizes| == 16
    ensures |gs| == digits
  {
    seq(digits, i requires 0 <= i < digits =>
      var n := Nibble(value, digits, i);
      Glyph(x + i * cellWidth + CenterOffset(cellWidth, sizes[n].w, if i == 0 then 1 else 0),
            y, HexChar(n), fill))
  }

  /** One `drawDigits` call: the low `digits` nibbles of `value` drawn
      from `(x, y)` in `fill`. */
  datatype Digits = Digits(x: int, y: int, fill: Rgba, value: int, digits: nat)

  /** The glyphs of one `drawDigits` call. */
  function CallGlyphs(sizes: seq<CharSize>, cellWidth: int, c: Digits): (gs: seq<Glyph>)
    requires |sizes| == 16
    ensures |gs| == c.digits
  {
    DigitGlyphs(sizes, cellWidth, c.x, c.y, c.fill, c.value, c.digits)
  }

  /** The glyphs a sequence of `drawDigits` calls puts down, in order. */
  function Render(sizes: seq<CharSize>, cellWidth: int, calls: seq<Digits>): seq<Glyph>
    requires |sizes| == 16
    decreases |calls|
  {
    if |calls| == 0 then []
    else Render(sizes, cellWidth, calls[..|calls| - 1]) + CallGlyphs(sizes, cellWidth, calls[|calls| - 1])
  }

  /** One more call adds its glyphs after the others. */
  lemma RenderSnoc(sizes: seq<CharSize>, cellWidth: int, calls: seq<Digits>, c: Digits)
    requires |sizes| == 16
    ensures Render(sizes, cellWidth, calls + [c]) == Render(sizes, cellWidth, calls) + CallGlyphs(sizes, cellWidth, c)
  {
    assert (calls + [c])[..|calls|] == calls;
  }

  /** The characters a sequence of glyphs spells, in drawing order. */
  function Text(gs: seq<Glyph>): (s: string)
    ensures |s| == |gs|
  {
    seq(|gs|, k requires 0 <= k < |gs| => gs[k].ch)
  }

  /** Reading a run's glyphs left to right as hex gives back the value
      modulo 16^digits. */
  lemma DigitGlyphsReadBack(sizes: seq<CharSize>, cellWidth: int, x: int, y: int, fill: Rgba,
                            value: int, digits: nat)
    requires |sizes| == 16
    ensures ParseHex(Text(DigitGlyphs(sizes, cellWidth, x, y, fill, value, digits)))
            == value % Pow16(digits)
  {
    var ds := Nibbles(value, digits);
    NibblesBounded(value, digits);
    forall k | 0 <= k < digits
      ensures Text(DigitGlyphs(sizes, cellWidth, x, y, fill, value, digits))[k] == Spell(ds)[k]
    {
      NibblesAt(value, digits, k);
    }
    assert Text(DigitGlyphs(sizes, cellWidth, x, y, fill, value, digits)) == Spell(ds);
    SpellParse(ds);
    NibblesRoundTrip(value, digits);
  }

  /** When the cell width is the widest glyph, every digit of a run lies
      inside its own cell: its offset is never negative and its right edge
      never passes the cell's. */
  lemma DigitGlyphsInCells(sizes: seq<CharSize>, cellWidth: int, x: int, y: int, fill: Rgba,
                           value: int, digits: nat, i: nat)
    requires |sizes| == 16 && cellWidth == MaxWidth(sizes) && i < digits
    ensures var g := DigitGlyphs(sizes, cellWidth, x, y, fill, value, digits)[i];
            x + i * cellWidth <= g.x
            && g.x + sizes[Nibble(value, digits, i)].w <= x + (i + 1) * cellWidth
  {
    var w := sizes[Nibble(value, digits, i)].w;
    var slack := cellWidth - w;
    assert slack >= 0;
    assert x + (i + 1) * cellWidth == x + i * cellWidth + cellWidth;
  }

  /** Drawing `c` over a canvas that holds `before` and then the glyphs of
      `strokes` gives one that holds `before` and the glyphs of
      `strokes + [c]`. */
  lemma InkOneMore(sizes: seq<CharSize>, cellWidth: int, before: seq<Glyph>, strokes: seq<Digits>, c: Digits)
    requires |sizes| == 16
    ensures (before + Render(sizes, cellWidth, strokes)) + CallGlyphs(sizes, cellWidth, c)
            == before + Render(sizes, cellWidth, strokes + [c])
  {
    RenderSnoc(sizes, cellWidth, strokes, c);
    assert (before + Render(sizes, cellWidth, strokes)) + CallGlyphs(sizes, cellWidth, c)
           == before + (Render(sizes, cellWidth, strokes) + CallGlyphs(sizes, cellWidth, c));
  }

  /** The drawing surface: the log of the characters `ImageDraw.text` has
      been asked to draw, in order, and the `drawDigits` calls of the
      current render that drew the latest of them. */
  class Canvas {
    var glyphs: seq<Glyph>
    ghost var strokes: seq<Digits>

    constructor ()
      ensures glyphs == [] && strokes == []
    {
      glyphs := [];
      strokes := [];
    }

    /** The canvas holds `before`, then exactly the glyphs of its strokes. */
    ghost predicate Shows(before: seq<Glyph>, sizes: seq<CharSize>, cellWidth: int)
      reads this
      requires |sizes| == 16
    {
      glyphs == before + Render(sizes, cellWidth, strokes)
    }

    /** `imgDraw.text((x, y), ch, font=..., fill=fill)`. */
    method Text(x: int, y: int, ch: char, fill: Rgba)
      modifies this
      ensures glyphs == old(glyphs) + [Glyph(x, y, ch, fill)]
      ensures strokes == old(strokes)
    {
      glyphs := glyphs + [Glyph(x, y, ch, fill)];
    }
  }
}
