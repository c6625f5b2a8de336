/** Colours of hexdoc.py: `decodeColor`, and the alpha ramps that `draw`
    puts into the last component of the drawer's colour in fade bands. */
module Colors {
  import opened Hex

  /** An `(r, g, b, a)` tuple as PIL takes it for `fill`. */
  datatype Rgba = Rgba(r: int, g: int, b: int, a: int)

  /** `*color[:-1], alpha`: the same colour with its last component replaced. */
  function WithAlpha(c: Rgba, alpha: int): Rgba
  {
    c.(a := alpha)
  }

  predicate IsChannel(x: int) { 0 <= x < 256 }

  /** `decodeColor`: the low three bytes of an RRGGBB integer, fully opaque.
      `& 0xFF` is `% 256` and `>>= 8` is floor division by 256 on every
      integer, negative ones included. */
  function DecodeColor(value: int): (c: Rgba)
    ensures IsChannel(c.r) && IsChannel(c.g) && IsChannel(c.b) && c.a == 0xFF
    ensures c.r * 65536 + c.g * 256 + c.b == value % 0x100_0000
  {
    var b := value % 256;
    var rest := value / 256;
    var g := rest % 256;
    var r := (rest / 256) % 256;
    DecodeColorPacks(value);
    Rgba(r, g, b, 0xFF)
  }

  lemma DecodeColorPacks(value: int)
    ensures ((value / 256) / 256) % 256 * 65536 + (value / 256) % 256 * 256 + value % 256
            == value % 0x100_0000
  {
    DivDiv(value, 256, 256);
    DivDiv(value, 65536, 256);
  }

  /** Decoding the packed form of three channels gives them back. */
  lemma DecodeColorOfPacked(r: int, g: int, b: int)
    requires IsChannel(r) && IsChannel(g) && IsChannel(b)
    ensures DecodeColor(r * 65536 + g * 256 + b) == Rgba(r, g, b, 0xFF)
  {
    var v := r * 65536 + g * 256 + b;
    DivUnique(v, 256, r * 256 + g, b);
    DivUnique(r * 256 + g, 256, r, g);
    DivUnique(r, 256, 0, r);
  }

  /** Alpha of fade-in row `row` (0-based) in a band of `band` rows:
      `(row + 1) * 255 // (band + 1)`. */
  function FadeInAlpha(row: nat, band: nat): (alpha: int)
    requires row < band
    ensures 0 <= alpha < 255
  {
    DivBelow((row + 1) * 255, band + 1, 255);
    (row + 1) * 255 / (band + 1)
  }

  /** Alpha of fade-out row `row` (absolute) when the band is the last
      `band` of `rows` rows: `(rows - row) * 255 // (band + 1)`. It mirrors
      the fade-in ramp: the k-th row from the bottom gets the alpha of the
      k-th fade-in row from the top. */
  function FadeOutAlpha(row: nat, rows: nat, band: nat): (alpha: int)
    requires rows - band <= row < rows
    ensures alpha == FadeInAlpha(rows - 1 - row, band)
  {
    (rows - row) * 255 / (band + 1)
  }

  /** Fade-in alpha never decreases down the band. */
  lemma FadeInNonDecreasing(r1: nat, r2: nat, band: nat)
    requires r1 <= r2 < band
    ensures FadeInAlpha(r1, band) <= FadeInAlpha(r2, band)
  {
    DivMonotone((r1 + 1) * 255, (r2 + 1) * 255, band + 1);
  }

  /** With at most 255 fade-in rows every row is strictly more opaque than
      the one above it. */
  lemma FadeInStrictlyIncreasing(r1: nat, r2: nat, band: nat)
    requires r1 < r2 < band && band <= 255
    ensures FadeInAlpha(r1, band) < FadeInAlpha(r2, band)
  {
    var d := band + 1;
    var a := (r1 + 1) * 255;
    if band < 255 {
      // consecutive numerators differ by at least the divisor
      DivMonotone(a + d, (r2 + 1) * 255, d);
      DivUnique(a + d, d, a / d + 1, a % d);
    } else {
      // band == 255: (k * 255) / 256 == k - 1 for 1 <= k <= 256
      DivUnique(a, 256, r1, 256 - (r1 + 1));
      DivUnique((r2 + 1) * 255, 256, r2, 256 - (r2 + 1));
    }
  }

  /** With 256 fade-in rows two neighbouring rows share an alpha. */
  lemma FadeInPlateau()
    ensures FadeInAlpha(127, 256) == FadeInAlpha(128, 256) == 127
  {
  }

  /** Fade-out alpha never increases down the band. */
  lemma FadeOutNonIncreasing(row1: nat, row2: nat, rows: nat, band: nat)
    requires rows - band <= row1 <= row2 < rows
    ensures FadeOutAlpha(row1, rows, band) >= FadeOutAlpha(row2, rows, band)
  {
    FadeInNonDecreasing(rows - 1 - row2, rows - 1 - row1, band);
  }

  lemma DivMonotone(a: int, b: int, d: int)
    requires a <= b && d > 0
    ensures a / d <= b / d
  {
    if a / d > b / d {
      MulAtLeast(d, a / d - b / d);
    }
  }

  lemma DivBelow(a: int, d: int, k: int)
    requires 0 <= a < d * k && d > 0
    ensures 0 <= a / d < k
  {
    if a / d >= k {
      MulMonotone(d, k, a / d);
    }
  }
}
