/** Packed 24-bit RGB colours, stored in the low bits of a 32-bit word as the
    frame buffer expects them: red in bits 16..23, green in 8..15, blue in 0..7.
    Words are modelled as bounded integers, and `FromU8Rgb` computes the
    positional sum `r * 2^16 + g * 2^8 + b`. On 32-bit words the three shifted
    fields occupy disjoint bit ranges, so their bitwise OR equals the same sum
    computed in 32-bit words, which never wraps (`ShiftOrIsPositionalSum`). */
module Colour {
  import opened Arith

  /** A Rust `u8` channel value. */
  type U8 = x: int | 0 <= x < 0x100
  /** One frame-buffer pixel, a Rust `u32`. */
  type Rgb = x: int | 0 <= x < 0x1_0000_0000

  /** Packs three channel bytes into one pixel word: `(r << 16) | (g << 8) | b`. */
  function FromU8Rgb(r: U8, g: U8, b: U8): (v: Rgb)
    ensures v < 0x100_0000
  {
    r * 0x1_0000 + g * 0x100 + b
  }

  /** Channel extraction, `(v >> 16) & 0xFF` and so on: the inverse of `FromU8Rgb`. */
  function Red(v: Rgb): U8 { v / 0x1_0000 % 0x100 }
  function Green(v: Rgb): U8 { v / 0x100 % 0x100 }
  function Blue(v: Rgb): U8 { v % 0x100 }

  const AZURE_BLUE: Rgb := FromU8Rgb(0, 127, 255)
  const RED: Rgb := FromU8Rgb(157, 37, 10)
  const WHITE: Rgb := FromU8Rgb(255, 255, 255)
  const BLACK: Rgb := 0

  /** On 32-bit words the shift-and-OR packing equals the same positional sum
      computed in 32-bit words, and that sum stays below 2^24, so it never wraps. */
  lemma ShiftOrIsPositionalSum(r: bv8, g: bv8, b: bv8)
    ensures ((r as bv32) << 16) | ((g as bv32) << 8) | (b as bv32)
         == (r as bv32) * 0x1_0000 + (g as bv32) * 0x100 + (b as bv32)
    ensures ((r as bv32) << 16) | ((g as bv32) << 8) | (b as bv32) < 0x100_0000
  {
  }

  /** Packing keeps every channel intact: each extracts back to its input. */
  lemma ChannelsOfFromU8Rgb(r: U8, g: U8, b: U8)
    ensures Red(FromU8Rgb(r, g, b)) == r
    ensures Green(FromU8Rgb(r, g, b)) == g
    ensures Blue(FromU8Rgb(r, g, b)) == b
  {
    var v := FromU8Rgb(r, g, b);
    DivModUnique(v, 0x1_0000, r, g * 0x100 + b);
    DivModUnique(r, 0x100, 0, r);
    DivModUnique(v, 0x100, r * 0x100 + g, b);
    DivModUnique(r * 0x100 + g, 0x100, r, g);
  }

  /** Distinct channel triples never pack to the same pixel. */
  lemma FromU8RgbInjective(r: U8, g: U8, b: U8, r': U8, g': U8, b': U8)
    requires FromU8Rgb(r, g, b) == FromU8Rgb(r', g', b')
    ensures r == r' && g == g' && b == b'
  {
    ChannelsOfFromU8Rgb(r, g, b);
    ChannelsOfFromU8Rgb(r', g', b');
  }

  /** Every 24-bit pixel is the packing of its own channels, so packing is onto
      the 24-bit range and extraction loses nothing there. */
  lemma ChannelsRoundTrip(v: Rgb)
    requires v < 0x100_0000
    ensures FromU8Rgb(Red(v), Green(v), Blue(v)) == v
  {
    var hi, lo := v / 0x1_0000, v % 0x1_0000;
    assert hi < 0x100;
    DivModUnique(v, 0x100, hi * 0x100 + lo / 0x100, lo % 0x100);
    DivModUnique(hi * 0x100 + lo / 0x100, 0x100, hi, lo / 0x100);
  }

  /** The named colours are the packings the source writes, and black and white differ. */
  lemma NamedColours()
    ensures BLACK == FromU8Rgb(0, 0, 0)
    ensures WHITE == 0xFF_FFFF
    ensures AZURE_BLUE == 0x00_7FFF
    ensures RED == 0x9D_250A
    ensures BLACK != WHITE
  {
    assert FromU8Rgb(255, 255, 255) == 0xFF_FFFF;
    assert FromU8Rgb(0, 127, 255) == 0x00_7FFF;
    assert FromU8Rgb(157, 37, 10) == 0x9D_250A;
  }
}
