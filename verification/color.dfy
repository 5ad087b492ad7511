/** Colour-word packing (`NColor.fromARGB` / `NColor.fromRGB`): a 32-bit
    `0xAARRGGBB` pixel, or an integer triple, becomes a 16-bit RGB565-style
    word. The green field is taken six bits wide and shifted by six, so it
    shares bit 11 with the red field. */
module Color {

  /** A pixel as `QImage.pixel` returns it: `0xAARRGGBB`. */
  type Argb = bv32

  /** The 8-bit channels of a pixel. */
  function Red(x: Argb): (c: bv32)
    ensures c < 0x100
  {
    (x >> 16) & 0xFF
  }

  function Green(x: Argb): (c: bv32)
    ensures c < 0x100
  {
    (x >> 8) & 0xFF
  }

  function Blue(x: Argb): (c: bv32)
    ensures c < 0x100
  {
    x & 0xFF
  }

  /** `fromARGB`: input bits 19-23 go to 11-15, bits 10-15 to 6-11 and bits
      0-4 to 0-4; the alpha byte is never read. */
  function FromArgb(x: Argb): (w: bv32)
    ensures w < 0x10000
    ensures w & 0x1F == x & 0x1F
    ensures (w >> 5) & 1 == 0
    ensures (w >> 6) & 0x1F == (x >> 10) & 0x1F
    ensures (w >> 11) & 1 == ((x >> 15) | (x >> 19)) & 1
    ensures (w >> 12) & 0xF == (x >> 20) & 0xF
  {
    var r := ((x >> 19) & 0x1F) << 11;
    var g := ((x >> 10) & 0x3F) << 6;
    var b := x & 0x1F;
    r | g | b
  }

  /** `fromRGB`: the low five, six and five bits of the three channels, in
      the same layout as `FromArgb`; higher channel bits are dropped. */
  function FromRgb(r: bv32, g: bv32, b: bv32): (w: bv32)
    ensures w < 0x10000
    ensures w & 0x1F == b & 0x1F
    ensures (w >> 5) & 1 == 0
    ensures (w >> 6) & 0x1F == g & 0x1F
    ensures (w >> 11) & 1 == (r | (g >> 5)) & 1
    ensures (w >> 12) & 0xF == (r >> 1) & 0xF
  {
    ((r & 0x1F) << 11) | ((g & 0x3F) << 6) | (b & 0x1F)
  }

  /** `fromARGB` is `fromRGB` applied to the top five bits of red, the top six
      of green and the blue byte; alpha plays no part. */
  lemma ArgbIsRgb(x: Argb)
    ensures FromArgb(x) == FromRgb(Red(x) >> 3, Green(x) >> 2, Blue(x))
  {
  }

  /** The alpha byte never changes the word. */
  lemma AlphaIgnored(x: Argb, alpha: bv32)
    ensures FromArgb(x) == FromArgb((x & 0x00FF_FFFF) | (alpha << 24))
  {
  }

  /** Channels that fit their fields, with green's top bit clear or red
      even, pack to `r * 2048 + g * 64 + b`. */
  lemma SmallChannels(r: bv32, g: bv32, b: bv32)
    requires r < 32 && g < 64 && b < 32
    requires g < 32 || r & 1 == 0
    ensures FromRgb(r, g, b) == r * 2048 + g * 64 + b
  {
  }

  /** Full-scale 8-bit channels keep only their low bits: pure red is
      `0xF800`, pure green `0x0FC0` and pure blue `0x001F`. */
  lemma FullChannels()
    ensures FromRgb(255, 0, 0) == 0xF800
    ensures FromRgb(0, 255, 0) == 0x0FC0
    ensures FromRgb(0, 0, 255) == 0x001F
  {
  }

  /** The six-bit green field reaches into the red field: green's top bit
      and red's low bit both land on bit 11. */
  lemma GreenOverlapsRed()
    ensures FromRgb(0, 32, 0) == FromRgb(1, 0, 0) == 0x800
  {
  }
}
