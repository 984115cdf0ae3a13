/** The sender colour swatch: a rolling hash of the sender's id, kept in 32-bit
    signed integers as JavaScript's bitwise operators do, whose three low bytes
    are written as `#rrggbb`. */
module HexColor {
  import opened JsValues

  const TWO32: int := 0x1_0000_0000
  const TWO31: int := 0x8000_0000

  /** ECMAScript ToInt32 on an integer: the int32 congruent to x modulo 2^32. */
  function ToInt32(x: int): (r: int)
    ensures -TWO31 <= r < TWO31
    ensures (x - r) % TWO32 == 0
  {
    var m := x % TWO32;
    if m >= TWO31 then m - TWO32 else m
  }

  /** ECMAScript ToUint32: the unsigned view of the same 32 bits. */
  function ToUint32(x: int): (r: int)
    ensures 0 <= r < TWO32
  {
    x % TWO32
  }

  /** `h << 5`: both operands go through ToInt32, and so does the result;
      as a number it is 32 * h wrapped to 32 bits. */
  function ShiftLeft5(h: int): (r: int)
    ensures -TWO31 <= r < TWO31
    ensures r == ToInt32(32 * h)
  {
    ToInt32Affine(h, 32, 0);
    ToInt32(ToInt32(h) * 32)
  }

  /** `h >> n`: the sign-propagating shift of the int32, which is floor
      division by 2^n: the result keeps the sign, and the int32 lies in
      [r * 2^n, (r + 1) * 2^n). */
  function ShiftRight(h: int, n: nat): int
    requires n < 32
  {
    ToInt32(h) / Pow2(n)
  }

  /** `>>` rounds toward negative infinity, and keeps the sign. */
  lemma ShiftRightIsFloor(h: int, n: nat)
    requires n < 32
    ensures var r, x, p := ShiftRight(h, n), ToInt32(h), Pow2(n);
            r * p <= x < r * p + p && (r < 0 <==> x < 0)
  {
    var r, x, p := ShiftRight(h, n), ToInt32(h), Pow2(n);
    var m := x % p;
    assert r == x / p;
    assert 0 <= m < p && x == r * p + m;
    MulSign(r, p);
  }

  lemma MulSign(r: int, p: int)
    requires p >= 1
    ensures r < 0 ==> r * p <= -p
    ensures r >= 0 ==> r * p >= 0
  {
  }

  /** `x & 0xff`: the low eight bits of the int32. */
  function LowByte(x: int): (b: int)
    ensures 0 <= b < 256
  {
    ToInt32(x) % 256
  }

  function Pow2(n: nat): (p: int)
    ensures p >= 1
  {
    if n == 0 then 1 else 2 * Pow2(n - 1)
  }

  /** One loop step: `hash = charCode + ((hash << 5) - hash)` in exact
      arithmetic, then `hash = hash & hash`, which is ToInt32(hash) since
      ANDing a 32-bit value with itself gives it back. The step is the
      textbook `31 * hash + charCode` wrapped to 32 bits. */
  function HashStep(hash: int, u: CodeUnit): (r: int)
    ensures r == ToInt32(31 * hash + u as int)
  {
    var t := u as int + (ShiftLeft5(hash) - hash);
    StepIsTimes31(hash, u);
    ToInt32(t)
  }

  /** The polynomial the hash computes: sum of units[i] * 31^(n-1-i). */
  function Poly(units: seq<CodeUnit>): int
  {
    if units == [] then 0 else 31 * Poly(units[..|units| - 1]) + units[|units| - 1] as int
  }

  /** The hash after the loop has consumed the code units of `units`: Java's
      String.hashCode polynomial taken modulo 2^32 as a signed integer, and
      so a signed 32-bit integer after every prefix. */
  function Hash(units: seq<CodeUnit>): (r: int)
    ensures -TWO31 <= r < TWO31
    ensures r == ToInt32(Poly(units))
  {
    if units == [] then 0
    else
      var init := units[..|units| - 1];
      var u := units[|units| - 1];
      ToInt32Affine(Poly(init), 31, u as int);
      HashStep(Hash(init), u)
  }

  predicate IsLowerHexDigit(c: char) {
    '0' <= c <= '9' || 'a' <= c <= 'f'
  }

  /** The value of a lower-case hexadecimal digit. */
  function HexDigitValue(c: char): (v: int)
    requires IsLowerHexDigit(c)
    ensures 0 <= v < 16
  {
    if c <= '9' then c as int - '0' as int else c as int - 'a' as int + 10
  }

  /** The digit of value d in "0123456789abcdef". */
  function HexDigit(d: int): (c: char)
    requires 0 <= d < 16
    ensures IsLowerHexDigit(c) && HexDigitValue(c) == d
  {
    if d < 10 then ('0' as int + d) as char else ('a' as int + d - 10) as char
  }

  /** Every lower-case hex digit is the digit of its value. */
  lemma HexDigitRoundTrip(c: char)
    requires IsLowerHexDigit(c)
    ensures HexDigit(HexDigitValue(c)) == c
  {
  }

  predicate AllHexDigits(s: string) {
    forall i :: 0 <= i < |s| ==> IsLowerHexDigit(s[i])
  }

  /** The value of a numeral of lower-case hex digits, most significant
      digit first. */
  function HexValue(s: string): nat
    requires AllHexDigits(s)
  {
    if s == [] then 0 else 16 * HexValue(s[..|s| - 1]) + HexDigitValue(s[|s| - 1])
  }

  /** `c.toString(16)` for a non-negative integer: a hex numeral with the
      value c, one digit below 16 and two below 256. */
  function ToString16(c: nat): (r: string)
    ensures |r| >= 1 && AllHexDigits(r) && HexValue(r) == c
    ensures c < 16 ==> |r| == 1
    ensures c < 256 ==> |r| <= 2
  {
    if c < 16 then [HexDigit(c)]
    else
      var r := ToString16(c / 16) + [HexDigit(c % 16)];
      assert r[..|r| - 1] == ToString16(c / 16);
      r
  }

  /** `s.padStart(n, ch)`: s, preceded by as many `ch` as make it n long. */
  function PadStart(s: string, n: nat, ch: char): (r: string)
    ensures |r| == if |s| >= n then |s| else n
    ensures r[|r| - |s|..] == s
    ensures forall i :: 0 <= i < |r| - |s| ==> r[i] == ch
  {
    if |s| >= n then s else seq(n - |s|, _ => ch) + s
  }

  /** The `toHex` helper: `c.toString(16).padStart(2, '0')`; for a byte,
      two hex digits whose value is that byte. */
  function ToHex(c: nat): (r: string)
    ensures c < 256 ==> |r| == 2 && IsLowerHexDigit(r[0]) && IsLowerHexDigit(r[1])
    ensures c < 256 ==> HexDigitValue(r[0]) * 16 + HexDigitValue(r[1]) == c
  {
    if c < 256 then PaddedByte(c); PadStart(ToString16(c), 2, '0')
    else PadStart(ToString16(c), 2, '0')
  }

  /** A byte's numeral, padded to two, is its two digits. */
  lemma PaddedByte(c: nat)
    requires c < 256
    ensures PadStart(ToString16(c), 2, '0') == [HexDigit(c / 16), HexDigit(c % 16)]
  {
    if c < 16 {
      assert ToString16(c) == [HexDigit(c)];
    } else {
      assert ToString16(c / 16) == [HexDigit(c / 16)];
    }
  }

  /** The colour of a final hash value: always `#` and six hex digits. */
  function ColorOf(hash: int): (color: string)
    ensures IsHexColor(color)
  {
    var r := LowByte(ShiftRight(hash, 16));
    var g := LowByte(ShiftRight(hash, 8));
    var b := LowByte(hash);
    ParseBytes(r, g, b);
    "#" + ToHex(r) + ToHex(g) + ToHex(b)
  }

  /** `#` followed by exactly six lower-case hexadecimal digits. */
  predicate IsHexColor(s: string) {
    |s| == 7 && s[0] == '#' && forall i :: 1 <= i < 7 ==> IsLowerHexDigit(s[i])
  }

  lemma HexTriple(r: string, g: string, b: string)
    requires |r| == 2 && |g| == 2 && |b| == 2
    requires IsLowerHexDigit(r[0]) && IsLowerHexDigit(r[1]) && IsLowerHexDigit(g[0])
    requires IsLowerHexDigit(g[1]) && IsLowerHexDigit(b[0]) && IsLowerHexDigit(b[1])
    ensures IsHexColor("#" + r + g + b)
    ensures ParseColor("#" + r + g + b) ==
              (HexDigitValue(r[0]) * 16 + HexDigitValue(r[1]),
               HexDigitValue(g[0]) * 16 + HexDigitValue(g[1]),
               HexDigitValue(b[0]) * 16 + HexDigitValue(b[1]))
  {
    var s := "#" + r + g + b;
    assert s[1] == r[0] && s[2] == r[1] && s[3] == g[0] && s[4] == g[1] && s[5] == b[0] && s[6] == b[1];
  }

  /** generateHexColor: hashes the code units of `id` and renders the hash.
      The result depends on `id` alone. */
  method GenerateHexColor(id: string) returns (color: string)
    ensures color == ColorOf(Hash(Utf16(id)))
    ensures IsHexColor(color)
  {
    var units := Utf16(id);
    var hash := 0;
    for i := 0 to |units|
      invariant hash == Hash(units[..i])
    {
      assert units[..i + 1][..i] == units[..i];
      hash := HashStep(hash, units[i]);
    }
    assert units[..|units|] == units;
    var r := LowByte(ShiftRight(hash, 16));
    var g := LowByte(ShiftRight(hash, 8));
    var b := LowByte(hash);
    color := "#" + ToHex(r) + ToHex(g) + ToHex(b);
  }

  // ---------------------------------------------------------------- properties

  /** ToInt32 depends only on the residue modulo 2^32. */
  lemma ToInt32Shift(y: int, k: int)
    ensures ToInt32(y + k * TWO32) == ToInt32(y)
  {
    assert (y + k * TWO32) % TWO32 == y % TWO32;
  }

  /** ToInt32 gives back x plus a multiple of 2^32. */
  lemma ToInt32Offset(x: int) returns (k: int)
    ensures ToInt32(x) == x + k * TWO32
  {
    k := if x % TWO32 >= TWO31 then -(x / TWO32) - 1 else -(x / TWO32);
  }

  /** Wrapping the operand of a * x + b first does not change the wrapped
      result. */
  lemma ToInt32Affine(x: int, a: int, b: int)
    ensures ToInt32(a * ToInt32(x) + b) == ToInt32(a * x + b)
  {
    var k := ToInt32Offset(x);
    assert a * ToInt32(x) + b == a * x + b + (a * k) * TWO32;
    ToInt32Shift(a * x + b, a * k);
  }

  /** `charCode + ((hash << 5) - hash)` wraps to `31 * hash + charCode`. */
  lemma StepIsTimes31(hash: int, u: CodeUnit)
    ensures ToInt32(u as int + (ShiftLeft5(hash) - hash)) == ToInt32(31 * hash + u as int)
  {
    var k := ToInt32Offset(32 * hash);
    assert u as int + (ShiftLeft5(hash) - hash) == 31 * hash + u as int + k * TWO32;
    ToInt32Shift(31 * hash + u as int, k);
  }

  /** Reads a colour back as its red, green and blue bytes. */
  function ParseColor(s: string): (rgb: (int, int, int))
    requires IsHexColor(s)
  {
    (HexDigitValue(s[1]) * 16 + HexDigitValue(s[2]),
     HexDigitValue(s[3]) * 16 + HexDigitValue(s[4]),
     HexDigitValue(s[5]) * 16 + HexDigitValue(s[6]))
  }

  /** The colour spells bits 16-23, 8-15 and 0-7 of the hash, in that order. */
  lemma ColorSpellsLowBytes(hash: int)
    requires -TWO31 <= hash < TWO31
    ensures IsHexColor(ColorOf(hash))
    ensures ParseColor(ColorOf(hash)) == ((ToUint32(hash) / 0x1_0000) % 256, (ToUint32(hash) / 0x100) % 256, ToUint32(hash) % 256)
  {
    var r := LowByte(ShiftRight(hash, 16));
    var g := LowByte(ShiftRight(hash, 8));
    var b := LowByte(hash);
    ParseColorOf(hash);
    SignedBytesAreUnsignedBytes(hash);
  }

  /** Read back, the colour gives the three bytes it was rendered from. */
  lemma ParseColorOf(hash: int)
    ensures IsHexColor(ColorOf(hash))
    ensures ParseColor(ColorOf(hash)) == (LowByte(ShiftRight(hash, 16)), LowByte(ShiftRight(hash, 8)), LowByte(hash))
  {
    ParseBytes(LowByte(ShiftRight(hash, 16)), LowByte(ShiftRight(hash, 8)), LowByte(hash));
  }

  lemma ParseBytes(r: nat, g: nat, b: nat)
    requires r < 256 && g < 256 && b < 256
    ensures IsHexColor("#" + ToHex(r) + ToHex(g) + ToHex(b))
    ensures ParseColor("#" + ToHex(r) + ToHex(g) + ToHex(b)) == (r, g, b)
  {
    ByteDigits(r);
    ByteDigits(g);
    ByteDigits(b);
    TripleValues(ToHex(r), ToHex(g), ToHex(b), r, g, b);
  }

  /** The facts about one byte's `toHex` that reading a colour back needs. */
  lemma ByteDigits(c: nat)
    requires c < 256
    ensures |ToHex(c)| == 2 && IsLowerHexDigit(ToHex(c)[0]) && IsLowerHexDigit(ToHex(c)[1])
    ensures HexDigitValue(ToHex(c)[0]) * 16 + HexDigitValue(ToHex(c)[1]) == c
  {
  }

  /** Three two-digit numerals of values r, g and b read back as (r, g, b). */
  lemma TripleValues(R: string, G: string, B: string, r: int, g: int, b: int)
    requires |R| == 2 && |G| == 2 && |B| == 2
    requires IsLowerHexDigit(R[0]) && IsLowerHexDigit(R[1]) && IsLowerHexDigit(G[0])
    requires IsLowerHexDigit(G[1]) && IsLowerHexDigit(B[0]) && IsLowerHexDigit(B[1])
    requires HexDigitValue(R[0]) * 16 + HexDigitValue(R[1]) == r
    requires HexDigitValue(G[0]) * 16 + HexDigitValue(G[1]) == g
    requires HexDigitValue(B[0]) * 16 + HexDigitValue(B[1]) == b
    ensures IsHexColor("#" + R + G + B)
    ensures ParseColor("#" + R + G + B) == (r, g, b)
  {
    HexTriple(R, G, B);
    var p := ParseColor("#" + R + G + B);
    assert p.0 == r && p.1 == g && p.2 == b;
  }

  lemma SignedBytesAreUnsignedBytes(hash: int)
    requires -TWO31 <= hash < TWO31
    ensures LowByte(ShiftRight(hash, 16)) == (ToUint32(hash) / 0x1_0000) % 256
    ensures LowByte(ShiftRight(hash, 8)) == (ToUint32(hash) / 0x100) % 256
    ensures LowByte(hash) == ToUint32(hash) % 256
  {
    Pow2Values();
    assert ToInt32(hash) == hash;
    ShiftedByte(hash, 0x1_0000);
    ShiftedByte(hash, 0x100);
    ShiftedByte(hash, 1);
  }

  lemma Pow2Values()
    ensures Pow2(8) == 0x100 && Pow2(16) == 0x1_0000
  {
    assert Pow2(8) == 0x100;
    Pow2Add(8, 8);
  }

  /** Bits of the signed view are bits of the unsigned view: the two views
      differ by 2^32, and each shift keeps a multiple of 256 of it. */
  lemma ShiftedByte(hash: int, d: int)
    requires -TWO31 <= hash < TWO31
    requires d == 1 || d == 0x100 || d == 0x1_0000
    ensures ToInt32(hash / d) % 256 == (ToUint32(hash) / d) % 256
  {
    if d == 1 {
      assert ToInt32(hash) == hash;
      if hash < 0 {
        assert ToUint32(hash) == hash + 256 * 0x100_0000;
        ByteOfShift(hash, 0x100_0000);
      }
    } else if d == 0x100 {
      var q := hash / 0x100;
      assert -0x80_0000 <= q < 0x80_0000 && ToInt32(q) == q;
      if hash < 0 {
        assert ToUint32(hash) / 0x100 == q + 256 * 0x1_0000;
        ByteOfShift(q, 0x1_0000);
      }
    } else {
      var q := hash / 0x1_0000;
      assert -0x8000 <= q < 0x8000 && ToInt32(q) == q;
      if hash < 0 {
        assert ToUint32(hash) / 0x1_0000 == q + 256 * 0x100;
        ByteOfShift(q, 0x100);
      }
    }
  }

  lemma ByteOfShift(q: int, m: int)
    ensures (q + 256 * m) % 256 == q % 256
  {
  }

  lemma {:induction false} Pow2Add(m: nat, n: nat)
    ensures Pow2(m + n) == Pow2(m) * Pow2(n)
  {
    if m > 0 { Pow2Add(m - 1, n); }
  }
}
