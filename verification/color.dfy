/**
  The colour encoder: an RGB triple becomes the device's native pixel value.
  32 bpp is XRGB with red in the lowest byte; 16 bpp is RGB565 made by
  truncating masks. Any other depth encodes to 0.
 */
module Color {
  import opened Bits

  type uint8 = x: int | 0 <= x < 0x100
  type uint32 = x: int | 0 <= x < 0x1_0000_0000

  /** `pack_color`, written with the same operators as the C expression. */
  function PackColor(bpp: int, r: uint8, g: uint8, b: uint8): (p: uint32)
    ensures bpp == 32 ==> p == r + 0x100 * g + 0x1_0000 * b
    ensures bpp == 16 ==> p == (r / 8) * 0x800 + (g / 4) * 0x20 + b / 8
    ensures bpp == 16 ==> p < 0x1_0000
    ensures bpp != 16 && bpp != 32 ==> p == 0
  {
    if bpp == 32 then
      Pack32Value(r, g, b);
      Xrgb(r, g, b)
    else if bpp == 16 then
      Pack16Value(r, g, b);
      Field565Bound(r / 8, g / 4, b / 8);
      Rgb565(r, g, b)
    else
      0
  }

  /** `r | g << 8 | b << 16` */
  function Xrgb(r: uint8, g: uint8, b: uint8): nat
  {
    Or(Or(r, ShiftLeft(g, 8)), ShiftLeft(b, 16))
  }

  /** `(r & 0xF8) << 8 | (g & 0xFC) << 3 | (b & 0xF8) >> 3` */
  function Rgb565(r: uint8, g: uint8, b: uint8): nat
  {
    Or(Or(ShiftLeft(And(r, 0xF8), 8), ShiftLeft(And(g, 0xFC), 3)), ShiftRight(And(b, 0xF8), 3))
  }

  lemma Pack32Value(r: uint8, g: uint8, b: uint8)
    ensures Xrgb(r, g, b) == r + 0x100 * g + 0x1_0000 * b
  {
    assert Pow2(8) == 0x100 && Pow2(16) == 0x1_0000;
    OrDisjoint(r, g, 8);
    OrDisjoint(r + 0x100 * g, b, 16);
  }

  /** `x & 0xF8` clears the low three bits of a byte. */
  lemma MaskF8(x: uint8)
    ensures And(x, 0xF8) == (x / 8) * 8
  {
    AndEvenMask(x, 0x7C);
    AndEvenMask(x / 2, 0x3E);
    AndEvenMask(x / 2 / 2, 0x1F);
    assert Pow2(5) == 0x20;
    AndLowBits(x / 8, 0, 5);
  }

  /** `x & 0xFC` clears the low two bits of a byte. */
  lemma MaskFC(x: uint8)
    ensures And(x, 0xFC) == (x / 4) * 4
  {
    AndEvenMask(x, 0x7E);
    AndEvenMask(x / 2, 0x3F);
    assert Pow2(6) == 0x40;
    AndLowBits(x / 4, 0, 6);
  }

  lemma Pack16Value(r: uint8, g: uint8, b: uint8)
    ensures Rgb565(r, g, b) == (r / 8) * 0x800 + (g / 4) * 0x20 + b / 8
  {
    assert Pow2(3) == 8 && Pow2(5) == 0x20 && Pow2(8) == 0x100 && Pow2(11) == 0x800;
    MaskF8(r);
    MaskFC(g);
    MaskF8(b);
    var red := ShiftLeft(And(r, 0xF8), 8);
    var green := ShiftLeft(And(g, 0xFC), 3);
    var blue := ShiftRight(And(b, 0xF8), 3);
    assert red == (r / 8) * Pow2(11);
    assert green == (g / 4) * Pow2(5);
    assert blue == b / 8;
    OrDisjointHighFirst(green, r / 8, 11);
    assert Or(red, green) == ((r / 8) * 0x40 + g / 4) * Pow2(5);
    OrDisjointHighFirst(blue, (r / 8) * 0x40 + g / 4, 5);
  }

  /** At 32 bpp the top byte is zero and shifting and masking recovers each channel. */
  lemma Unpack32(r: uint8, g: uint8, b: uint8)
    ensures And(PackColor(32, r, g, b), 0xFF) == r
    ensures And(ShiftRight(PackColor(32, r, g, b), 8), 0xFF) == g
    ensures And(ShiftRight(PackColor(32, r, g, b), 16), 0xFF) == b
    ensures ShiftRight(PackColor(32, r, g, b), 24) == 0
  {
    assert PackColor(32, r, g, b) == (b * 0x100 + g) * 0x100 + r;
    Field888(b, g, r);
  }

  lemma Field888(hi: nat, mid: nat, lo: nat)
    requires hi < 0x100 && mid < 0x100 && lo < 0x100
    ensures And((hi * 0x100 + mid) * 0x100 + lo, 0xFF) == lo
    ensures And(ShiftRight((hi * 0x100 + mid) * 0x100 + lo, 8), 0xFF) == mid
    ensures And(ShiftRight((hi * 0x100 + mid) * 0x100 + lo, 16), 0xFF) == hi
    ensures ShiftRight((hi * 0x100 + mid) * 0x100 + lo, 24) == 0
  {
    assert Pow2(8) == 0x100 && Pow2(16) == 0x1_0000 && Pow2(24) == 0x100_0000;
    ByteShifts(hi, mid, lo);
    AndLowBits(lo, hi * 0x100 + mid, 8);
    AndLowBits(mid, hi, 8);
    AndLowBits(hi, 0, 8);
  }

  /** Shifting three packed bytes right by 8, 16 and 24 bits. */
  lemma ByteShifts(hi: nat, mid: nat, lo: nat)
    requires hi < 0x100 && mid < 0x100 && lo < 0x100
    ensures ((hi * 0x100 + mid) * 0x100 + lo) / 0x100 == hi * 0x100 + mid
    ensures ((hi * 0x100 + mid) * 0x100 + lo) / 0x1_0000 == hi
    ensures ((hi * 0x100 + mid) * 0x100 + lo) / 0x100_0000 == 0
  {
  }

  /** The three 5-6-5 fields together stay below 2^16. */
  lemma Field565Bound(hi: nat, mid: nat, lo: nat)
    requires hi < 0x20 && mid < 0x40 && lo < 0x20
    ensures hi * 0x800 + mid * 0x20 + lo < 0x1_0000
  {
  }

  /** At 16 bpp the 5-6-5 fields hold the top bits of red, green and blue. */
  lemma Unpack16(r: uint8, g: uint8, b: uint8)
    ensures ShiftRight(PackColor(16, r, g, b), 11) == r / 8
    ensures And(ShiftRight(PackColor(16, r, g, b), 5), 0x3F) == g / 4
    ensures And(PackColor(16, r, g, b), 0x1F) == b / 8
  {
    var p := PackColor(16, r, g, b);
    assert p == (r / 8 * 0x40 + g / 4) * 0x20 + b / 8;
    Field565(r / 8, g / 4, b / 8);
  }

  lemma Field565(hi: nat, mid: nat, lo: nat)
    requires hi < 0x20 && mid < 0x40 && lo < 0x20
    ensures ShiftRight((hi * 0x40 + mid) * 0x20 + lo, 11) == hi
    ensures And(ShiftRight((hi * 0x40 + mid) * 0x20 + lo, 5), 0x3F) == mid
    ensures And((hi * 0x40 + mid) * 0x20 + lo, 0x1F) == lo
  {
    var p := (hi * 0x40 + mid) * 0x20 + lo;
    assert Pow2(5) == 0x20 && Pow2(6) == 0x40 && Pow2(11) == 0x800;
    assert p / 0x800 == hi;
    assert p / 0x20 == mid + hi * 0x40;
    AndLowBits(mid, hi, 6);
    AndLowBits(lo, hi * 0x40 + mid, 5);
  }

  /** White is the all-ones RGB565 value; the clock's two colours at both depths. */
  lemma KnownColors()
    ensures PackColor(16, 255, 255, 255) == 0xFFFF
    ensures PackColor(16, 38, 194, 129) == 0x2610
    ensures PackColor(32, 38, 194, 129) == 0x81C226
    ensures PackColor(16, 32, 32, 32) == 0x2104
    ensures PackColor(32, 32, 32, 32) == 0x202020
  {
  }
}
