/** Hexadecimal digits as hexdoc.py draws them: the sixteen glyph characters,
    nibble extraction (`(value >> 4*k) & 0xF`), digit counts and the
    zero-padded `"%0*x"` formatting used to size the address column. */
module Hex {

  /** The glyph alphabet, indexed by nibble value. */
  const HexChars: string := "0123456789abcdef"

  /** The character drawn for nibble `n`: `HexChars[n]`. */
  function HexChar(n: nat): (c: char)
    requires n < 16
    ensures c in HexChars
  {
    HexChars[n]
  }

  function Pow16(d: nat): (p: nat)
    ensures p >= 1
  {
    if d == 0 then 1 else 16 * Pow16(d - 1)
  }

  function Max(a: int, b: int): int { if a >= b then a else b }

  function Min(a: int, b: int): int { if a <= b then a else b }

  /** A positive factor of at least one does not shrink a positive number. */
  lemma MulAtLeast(d: int, k: int)
    requires d > 0 && k >= 1
    ensures d * k >= d
  {
    var j: int := 1;
    while j < k
      invariant 1 <= j <= k && d * j >= d
    {
      assert d * (j + 1) == d * j + d;
      j := j + 1;
    }
  }

  lemma MulMonotone(d: int, x: int, y: int)
    requires d > 0 && x <= y
    ensures d * x <= d * y
  {
    if x < y {
      MulAtLeast(d, y - x);
      assert d * (y - x) == d * y - d * x;
    }
  }

  /** Euclidean division is determined by its quotient/remainder equation. */
  lemma DivUnique(a: int, d: int, q: int, r: int)
    requires d > 0 && a == d * q + r && 0 <= r < d
    ensures a / d == q && a % d == r
  {
    var q', r' := a / d, a % d;
    assert a == d * q' + r' && 0 <= r' < d;
    assert d * (q - q') == r' - r by {
      assert d * (q - q') == d * q - d * q';
    }
    if q > q' {
      MulAtLeast(d, q - q');
    } else if q < q' {
      MulAtLeast(d, q' - q);
    }
  }

  /** Shifting right by two amounts is shifting by their sum:
      floor division by a product is repeated floor division. */
  lemma DivDiv(a: int, b: int, c: int)
    requires b > 0 && c > 0
    ensures a / (b * c) == (a / b) / c
    ensures a % (b * c) == b * ((a / b) % c) + a % b
  {
    var q, r := a / b, a % b;
    var q2, r2 := q / c, q % c;
    Regroup(a, b, c, q, r, q2, r2);
    RemainderBound(b, c, r, r2);
    DivUnique(a, b * c, q2, b * r2 + r);
  }

  lemma Regroup(a: int, b: int, c: int, q: int, r: int, q2: int, r2: int)
    requires a == b * q + r && q == c * q2 + r2
    ensures a == (b * c) * q2 + (b * r2 + r)
  {
    calc {
      b * q;
      b * (c * q2 + r2);
      b * (c * q2) + b * r2;
      (b * c) * q2 + b * r2;
    }
  }

  lemma RemainderBound(b: int, c: int, r: int, r2: int)
    requires b > 0 && c > 0 && 0 <= r < b && 0 <= r2 < c
    ensures 0 <= b * r2 + r < b * c
  {
    if r2 > 0 {
      MulAtLeast(b, r2);
    }
    if r2 < c - 1 {
      MulAtLeast(b, c - 1 - r2);
    }
    assert b * (c - 1 - r2) == b * c - b - b * r2;
  }

  lemma Pow16Monotone(a: nat, b: nat)
    requires a <= b
    ensures Pow16(a) <= Pow16(b)
  {
    if a < b {
      Pow16Monotone(a, b - 1);
    }
  }

  /** The nibble that `drawDigits` draws at position `i` of a `digits`-wide
      run, most significant first: `(value >> 4*(digits-i-1)) & 0xF`.
      Floor division by a power of 16 is Python's right shift and `% 16`
      is `& 0xF`, negative values included. */
  function Nibble(value: int, digits: nat, i: nat): (n: nat)
    requires i < digits
    ensures n < 16
  {
    (value / Pow16(digits - i - 1)) % 16
  }

  /** The `digits` low nibbles of `value`, most significant first. */
  function Nibbles(value: int, digits: nat): (ds: seq<nat>)
    ensures |ds| == digits
    decreases digits
  {
    if digits == 0 then [] else Nibbles(value / 16, digits - 1) + [value % 16]
  }

  /** Reading base-16 digits most significant first. */
  function HexValue(ds: seq<nat>): nat
  {
    if ds == [] then 0 else HexValue(ds[..|ds| - 1]) * 16 + ds[|ds| - 1]
  }

  lemma {:induction false} NibblesAt(value: int, digits: nat, i: nat)
    requires i < digits
    ensures Nibbles(value, digits)[i] == Nibble(value, digits, i)
    decreases digits
  {
    if i < digits - 1 {
      NibblesAt(value / 16, digits - 1, i);
      assert Pow16(digits - i - 1) == 16 * Pow16(digits - 1 - i - 1);
      DivDiv(value, 16, Pow16(digits - 1 - i - 1));
    }
  }

  /** Reading back the nibbles of a run gives the value modulo 16^digits:
      a run of `digits` glyphs shows `value` exactly when it fits. */
  lemma {:induction false} NibblesRoundTrip(value: int, digits: nat)
    ensures HexValue(Nibbles(value, digits)) == value % Pow16(digits)
    decreases digits
  {
    if digits > 0 {
      var ds := Nibbles(value, digits);
      var front := Nibbles(value / 16, digits - 1);
      assert ds[..|ds| - 1] == front;
      NibblesRoundTrip(value / 16, digits - 1);
      DivDiv(value, 16, Pow16(digits - 1));
    }
  }

  /** The least number of hex digits `d` with `16^d >= n`: the integer
      reading of `ceil(log(n) / log(16))`. */
  function CeilLog16(n: nat): (d: nat)
    requires n >= 1
    ensures Pow16(d) >= n
    ensures d == 0 || Pow16(d - 1) < n
  {
    if n == 1 then 0 else 1 + CeilLog16((n + 15) / 16)
  }

  /** Number of characters of `"%x" % v`: at least one, no leading zeros. */
  function HexLen(v: nat): (len: nat)
    ensures len >= 1 && v < Pow16(len)
    ensures len == 1 || Pow16(len - 1) <= v
  {
    if v == 0 then 1 else CeilLog16(v + 1)
  }

  /** The value of a lower-case hex digit character. */
  function DigitValue(c: char): nat
  {
    if '0' <= c <= '9' then c as nat - '0' as nat
    else if 'a' <= c <= 'f' then c as nat - 'a' as nat + 10
    else 0
  }

  function Spell(ds: seq<nat>): (s: string)
    requires forall k :: 0 <= k < |ds| ==> ds[k] < 16
    ensures |s| == |ds|
  {
    seq(|ds|, k requires 0 <= k < |ds| => HexChar(ds[k]))
  }

  function ParseHex(s: string): nat
  {
    HexValue(seq(|s|, k requires 0 <= k < |s| => DigitValue(s[k])))
  }

  lemma DigitValueOfChar(n: nat)
    requires n < 16
    ensures DigitValue(HexChar(n)) == n
  {
  }

  lemma SpellParse(ds: seq<nat>)
    requires forall k :: 0 <= k < |ds| ==> ds[k] < 16
    ensures ParseHex(Spell(ds)) == HexValue(ds)
  {
    var s := Spell(ds);
    forall k | 0 <= k < |ds| ensures DigitValue(s[k]) == ds[k] {
      DigitValueOfChar(ds[k]);
    }
    assert seq(|s|, k requires 0 <= k < |s| => DigitValue(s[k])) == ds;
  }

  /** `"%0*x" % (width, v)`: lower-case hex of `v`, left-padded with zeros
      to `width` characters, never truncated. */
  function FormatHex(v: nat, width: nat): (s: string)
    ensures |s| == Max(width, HexLen(v))
    ensures forall k :: 0 <= k < |s| ==> s[k] in HexChars
    ensures forall k :: 0 <= k < |s| - HexLen(v) ==> s[k] == '0'
    ensures ParseHex(s) == v
  {
    var n := Max(width, HexLen(v));
    NibblesBounded(v, n);
    FormatHexReadsBack(v, n);
    LeadingZeros(v, n);
    Spell(Nibbles(v, n))
  }

  /** The nibbles of `v` above its `HexLen(v)` significant ones are 0. */
  lemma LeadingZeros(v: nat, n: nat)
    ensures forall k :: 0 <= k < n - HexLen(v) ==> Nibbles(v, n)[k] == 0
  {
    forall k | 0 <= k < n - HexLen(v)
      ensures Nibbles(v, n)[k] == 0
    {
      NibblesAt(v, n, k);
      Pow16Monotone(HexLen(v), n - k - 1);
      DivUnique(v, Pow16(n - k - 1), 0, v);
    }
  }

  lemma FormatHexReadsBack(v: nat, n: nat)
    requires HexLen(v) <= n
    requires forall k :: 0 <= k < n ==> Nibbles(v, n)[k] < 16
    ensures ParseHex(Spell(Nibbles(v, n))) == v
  {
    SpellParse(Nibbles(v, n));
    NibblesRoundTrip(v, n);
    Pow16Monotone(HexLen(v), n);
    DivUnique(v, Pow16(n), 0, v);
  }

  lemma NibblesBounded(value: int, digits: nat)
    ensures forall k :: 0 <= k < digits ==> Nibbles(value, digits)[k] < 16
  {
    forall k | 0 <= k < digits {
      NibblesAt(value, digits, k);
    }
  }

  /** `(n + d - 1) // d` is the ceiling of `n / d`. */
  lemma CeilDiv(n: nat, d: nat)
    requires d > 0
    ensures ((n + d - 1) / d) * d >= n
    ensures (n + d - 1) / d == 0 || ((n + d - 1) / d - 1) * d < n
  {
    var q, r := (n + d - 1) / d, (n + d - 1) % d;
    assert n + d - 1 == q * d + r;
  }
}
