/**
 * The `UIColor` extension of Extensions.swift: `init(red:green:blue:)` with its 0-255 checks and
 * `init(hexInt:)`, which splits a 24-bit colour into its three 8-bit components. The division of
 * each component by 255.0 into a `CGFloat` is not modelled: a colour here is its integer components.
 *
 * On a two's-complement `Int`, `x >> k` is an arithmetic shift, i.e. division by 2^k rounding
 * down, which is Dafny's `/` by a positive divisor; `x & 0xff` keeps the low eight bits, i.e. the
 * non-negative remainder modulo 256, which is Dafny's `%`. Both hold for negative `x` too and do
 * not depend on the width of `Int` beyond its low 24 bits, so `int` stands for Swift's `Int`.
 */
module Colors {
  import opened Wrappers

  /** The red, green and blue values a colour was built from. */
  datatype Color = Color(red: int, green: int, blue: int)

  /** Which of the three asserts of `init(red:green:blue:)` fails; they are checked in this order. */
  datatype ColorError = InvalidRed | InvalidGreen | InvalidBlue

  predicate IsComponent(c: int)
  {
    0 <= c <= 255
  }

  /** `UIColor(red:green:blue:)`: each component must be in 0...255, red checked first, then green, then blue. */
  function ColorFromComponents(red: int, green: int, blue: int): (r: Result<Color, ColorError>)
    ensures r.Success? <==> IsComponent(red) && IsComponent(green) && IsComponent(blue)
    ensures r.Success? ==> r.value == Color(red, green, blue)
    ensures r == Failure(InvalidRed) <==> !IsComponent(red)
    ensures r == Failure(InvalidGreen) <==> IsComponent(red) && !IsComponent(green)
    ensures r == Failure(InvalidBlue) <==> IsComponent(red) && IsComponent(green) && !IsComponent(blue)
  {
    if !IsComponent(red) then Failure(InvalidRed)
    else if !IsComponent(green) then Failure(InvalidGreen)
    else if !IsComponent(blue) then Failure(InvalidBlue)
    else Success(Color(red, green, blue))
  }

  /** `(hexInt >> 16) & 0xff` */
  function Red(hexInt: int): int { (hexInt / 0x1_0000) % 0x100 }

  /** `(hexInt >> 8) & 0xff` */
  function Green(hexInt: int): int { (hexInt / 0x100) % 0x100 }

  /** `hexInt & 0xff` */
  function Blue(hexInt: int): int { hexInt % 0x100 }

  /**
   * `UIColor(hexInt:)`: the three byte-wide components handed to `init(red:green:blue:)`. Its
   * checks pass for every `hexInt`, negative or above 0xFFFFFF included.
   */
  function ColorFromHex(hexInt: int): (r: Result<Color, ColorError>)
    ensures r.Success?
    ensures IsComponent(r.value.red) && IsComponent(r.value.green) && IsComponent(r.value.blue)
  {
    ColorFromComponents(Red(hexInt), Green(hexInt), Blue(hexInt))
  }

  /** `red << 16 | green << 8 | blue` for components in 0...255, whose bits do not overlap. */
  function HexValue(c: Color): int
  {
    c.red * 0x1_0000 + c.green * 0x100 + c.blue
  }

  /** Euclidean division is determined by any quotient and remainder that fit. */
  lemma DivModUnique(a: int, d: int, q: int, r: int)
    requires d > 0 && 0 <= r < d && a == q * d + r
    ensures a / d == q && a % d == r
  {
    var q', r' := a / d, a % d;
    assert a == q' * d + r';
    assert (q - q') * d == r' - r;
    if q > q' {
      MultipleAtLeast(q - q', d);
    } else if q < q' {
      MultipleAtLeast(q' - q, d);
    }
  }

  /** A positive multiple of d is at least d. */
  lemma {:induction false} MultipleAtLeast(n: int, d: int)
    requires n >= 1 && d > 0
    ensures n * d >= d
  {
    if n > 1 {
      MultipleAtLeast(n - 1, d);
      assert n * d == (n - 1) * d + d;
    }
  }

  /** For hexInt in 0...0xFFFFFF, the three components put back together give hexInt. */
  lemma HexRecombines(hexInt: int)
    requires 0 <= hexInt <= 0xFF_FFFF
    ensures HexValue(ColorFromHex(hexInt).value) == hexInt
  {
    var g', b := hexInt / 0x100, hexInt % 0x100;
    var g, high := g' % 0x100, g' / 0x100;
    DivModUnique(hexInt, 0x1_0000, high, g * 0x100 + b);
    DivModUnique(high, 0x100, 0, high);
  }

  /** Conversely, a colour with valid components is what its hex value decodes to. */
  lemma HexOfColor(c: Color)
    requires IsComponent(c.red) && IsComponent(c.green) && IsComponent(c.blue)
    ensures ColorFromHex(HexValue(c)) == Success(c)
  {
    var h := HexValue(c);
    DivModUnique(h, 0x100, c.red * 0x100 + c.green, c.blue);
    DivModUnique(c.red * 0x100 + c.green, 0x100, c.red, c.green);
    DivModUnique(h, 0x1_0000, c.red, c.green * 0x100 + c.blue);
    DivModUnique(c.red, 0x100, 0, c.red);
  }

  /** Adding any multiple of 2^24 to hexInt changes none of the components. */
  lemma HexPeriodic(hexInt: int, k: int)
    ensures ColorFromHex(hexInt + k * 0x100_0000) == ColorFromHex(hexInt)
  {
    var h := hexInt + k * 0x100_0000;
    DivModUnique(h, 0x1_0000, hexInt / 0x1_0000 + k * 0x100, hexInt % 0x1_0000);
    DivModUnique(hexInt / 0x1_0000 + k * 0x100, 0x100, hexInt / 0x1_0000 / 0x100 + k, hexInt / 0x1_0000 % 0x100);
    DivModUnique(h, 0x100, hexInt / 0x100 + k * 0x1_0000, hexInt % 0x100);
    DivModUnique(hexInt / 0x100 + k * 0x1_0000, 0x100, hexInt / 0x100 / 0x100 + k * 0x100, hexInt / 0x100 % 0x100);
  }

  /** Only the low 24 bits of hexInt matter. */
  lemma HexIgnoresHighBits(hexInt: int)
    ensures ColorFromHex(hexInt) == ColorFromHex(hexInt % 0x100_0000)
  {
    HexPeriodic(hexInt % 0x100_0000, hexInt / 0x100_0000);
  }
}
