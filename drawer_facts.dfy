/** What `HexDrawer.draw` promises as a whole, stated about a drawer `d`:
    the checks come before any glyph, when the render finishes, that the
    grid it lays out is the canvas `getSize` reports, that its labels spell
    row addresses, and where the address column is too narrow for them. */
module DrawerFacts {
  import opened Hex
  import opened Glyphs
  import opened Layout
  import opened Walks
  import opened Drawer

  /** `draw` checks the logarithm's argument of `getAddressWidth`, the fade
      bands and the logarithm's argument of `getAddressDigits` before it
      draws anything: a render that draws has passed all three. */
  lemma ChecksComeFirst(d: HexDrawer, left: int, top: int, buffer: seq<int>, count: nat, address: nat)
    requires d.Valid()
    ensures d.Rendering(left, top, buffer, count, address).calls != []
            ==> (d.showAddress ==> d.TextAddress(address) + count > 0)
                && d.RowCount(count, address) >= d.fadeInRows + d.fadeOutRows && address + count > 0
    ensures d.RowCount(count, address) < d.fadeInRows + d.fadeOutRows
            ==> d.Rendering(left, top, buffer, count, address).status.Failed?
  {
  }

  /** Once its checks pass, `draw` finishes exactly when the bytes its walk
      reaches are present and are bytes; when the walk stays in the dump,
      those are exactly `buffer[0 .. count - 1]`. */
  lemma DrawFinishes(d: HexDrawer, left: int, top: int, buffer: seq<int>, count: nat, address: nat)
    requires d.Valid()
    requires d.showAddress ==> d.TextAddress(address) + count > 0
    requires address + count > 0 && d.RowCount(count, address) >= d.fadeInRows + d.fadeOutRows
    ensures var g := d.Layout(left, top, count, address);
            d.Rendering(left, top, buffer, count, address).status == Done <==> Readable(buffer, 0, Cursor(g, g.rows))
    ensures StaysInDump(d.Layout(left, top, count, address))
            ==> (d.Rendering(left, top, buffer, count, address).status == Done <==> Readable(buffer, 0, count))
  {
    var g := d.Layout(left, top, count, address);
    assert d.Rendering(left, top, buffer, count, address) == Walk(g, buffer);
    WalkShows(g, buffer);
    if StaysInDump(g) {
      WalkNeedsTheDump(g, buffer);
    }
  }

  /** In every row but the first, column `c` of the grid `draw` lays out
      starts `c` column advances and `c // groupSize` group gaps right of
      the grid's left edge. */
  lemma GridColumns(d: HexDrawer, left: int, top: int, count: nat, address: nat, c: nat)
    requires d.Valid()
    requires d.showAddress ==> d.TextAddress(address) + count > 0
    requires address + count > 0 && d.RowCount(count, address) >= d.fadeInRows + d.fadeOutRows
    requires c < d.bytesPerRow
    ensures var g := d.Layout(left, top, count, address);
            ColumnX(g, RowX(g, 1), 0, c)
            == left + d.XOffset(count, address) + c * (2 * d.charWidth + d.byteGap) + (c / d.groupSize) * d.groupGap
  {
    var g := d.Layout(left, top, count, address);
    assert Grouped(g.separators, d.groupSize, d.groupGap);
    ColumnXClosed(g, RowX(g, 1), 0, c, d.groupSize, d.groupGap);
    assert (c - 0) * g.advance == c * g.advance && 0 / d.groupSize == 0;
  }

  /** The last column of the grid `draw` lays out ends at the width
      `getSize` reports. */
  lemma GridWidth(d: HexDrawer, left: int, top: int, count: nat, address: nat)
    requires d.Valid()
    requires d.showAddress ==> d.TextAddress(address) + count > 0
    requires address + count > 0 && d.RowCount(count, address) >= d.fadeInRows + d.fadeOutRows
    ensures var g := d.Layout(left, top, count, address);
            ColumnX(g, RowX(g, 1), 0, d.bytesPerRow - 1) + 2 * d.charWidth == left + d.Size(count, address).0
  {
    var g := d.Layout(left, top, count, address);
    var last := d.bytesPerRow - 1;
    assert Grouped(g.separators, d.groupSize, d.groupGap);
    ColumnXClosed(g, RowX(g, 1), 0, last, d.groupSize, d.groupGap);
    LastColumnEdge(left, d.XOffset(count, address), d.charWidth, d.byteGap, last, last / d.groupSize, d.groupGap);
  }

  /** The last row of the grid `draw` lays out ends at the height `getSize`
      reports. */
  lemma GridHeight(d: HexDrawer, left: int, top: int, count: nat, address: nat)
    requires d.Valid()
    requires d.showAddress ==> d.TextAddress(address) + count > 0
    requires address + count > 0 && d.RowCount(count, address) >= d.fadeInRows + d.fadeOutRows
    ensures var g := d.Layout(left, top, count, address);
            g.rows > 0 ==> RowY(g, g.rows - 1) + d.charHeight == top + d.Size(count, address).1
  {
    var g := d.Layout(left, top, count, address);
    if g.rows > 0 {
      LastRowEdge(g.rows, d.charHeight);
    }
  }

  lemma LastRowEdge(rows: int, height: int)
    ensures (rows - 1) * height + height == rows * height
  {
  }

  /** The right edge of the last column is the width `getSize` adds up. */
  lemma LastColumnEdge(left: int, xOffset: int, charWidth: int, byteGap: int, last: int, groups: int, groupGap: int)
    ensures left + xOffset + (last - 0) * (2 * charWidth + byteGap) + (groups - 0) * groupGap + 2 * charWidth
            == left + (xOffset + (last + 1) * charWidth * 2 + last * byteGap + groups * groupGap)
  {
    assert last * (2 * charWidth + byteGap) == last * (2 * charWidth) + last * byteGap;
    assert (last + 1) * charWidth * 2 == last * (2 * charWidth) + 2 * charWidth;
  }

  /** Every label `draw` writes at the start of a row inside the dump
      spells the address of that row's first byte: the digit count reaches
      past the dump's last address. */
  lemma LabelsShowAddresses(d: HexDrawer, left: int, top: int, count: nat, address: nat, r: nat)
    requires d.Valid()
    requires d.showAddress ==> d.TextAddress(address) + count > 0
    requires address + count > 0 && d.RowCount(count, address) >= d.fadeInRows + d.fadeOutRows
    requires Cursor(d.Layout(left, top, count, address), r) < count
    ensures var g := d.Layout(left, top, count, address);
            ParseHex(Text(CallGlyphs(d.charSizes, d.charWidth, Label(g, r)))) == address + Cursor(g, r)
  {
    var g := d.Layout(left, top, count, address);
    LabelReadsBack(g, r);
  }

  /** With 32 bytes per row, aligned data and no fade-in, a one-byte dump
      at address 0x10 gets an address column one character wide, sized
      from the row address 0, while its labels have two digits. */
  lemma NarrowAddressColumn(d: HexDrawer)
    requires d.Valid() && d.alignData && d.bytesPerRow == 32 && d.fadeInRows == 0
    ensures d.TextAddress(0x10) == 0 && d.AddressWidth(1, 0x10) == d.charWidth
    ensures HexDrawer.AddressDigits(1, 0x10) == 2
  {
    assert d.FirstColumn(0x10) == 0x10;
    assert CeilLog16(17) == 1 + CeilLog16(2);
    assert CeilLog16(2) == 1 + CeilLog16(1);
  }

  /** An address column as wide as the wider of the address text and the
      labels `draw` writes into it. */
  function CoveringAddressWidth(d: HexDrawer, count: nat, address: nat): (w: int)
    reads d
    requires d.bytesPerRow > 0 && d.TextAddress(address) + count > 0 && address + count > 0
    ensures d.charWidth >= 0 ==> w >= d.AddressWidth(count, address)
    ensures d.charWidth >= 0 ==> w >= HexDrawer.AddressDigits(count, address) * d.charWidth
  {
    var text, digits := |d.AddressText(count, address)|, HexDrawer.AddressDigits(count, address);
    ScaleMax(d.charWidth, text, digits);
    Max(text, digits) * d.charWidth
  }

  /** Scaling by a non-negative width keeps the larger count larger. */
  lemma ScaleMax(k: int, a: int, b: int)
    ensures k >= 0 ==> Max(a, b) * k >= a * k && Max(a, b) * k >= b * k
  {
    if k > 0 {
      MulMonotone(k, a, Max(a, b));
      MulMonotone(k, b, Max(a, b));
    }
  }
}
