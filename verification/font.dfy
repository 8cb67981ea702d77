/**
 The built-in hexadecimal font: sixteen glyphs, one per digit 0-F, each five
 rows of an 8-pixel-wide sprite of which only the left four pixels are used.
 */
module Font {
  import opened Bits

  /** Bytes per glyph. */
  const GlyphSize := 5

  // One display per glyph, concatenated, so that the verifier can look up
  // any byte without unfolding one long display.
  const Chars: seq<Byte> :=
    [0xF0, 0x90, 0x90, 0x90, 0xF0] + // 0
    [0x20, 0x60, 0x20, 0x20, 0x70] + // 1
    [0xF0, 0x10, 0xF0, 0x80, 0xF0] + // 2
    [0xF0, 0x10, 0xF0, 0x10, 0xF0] + // 3
    [0x90, 0x90, 0xF0, 0x10, 0x10] + // 4
    [0xF0, 0x80, 0xF0, 0x10, 0xF0] + // 5
    [0xF0, 0x80, 0xF0, 0x90, 0xF0] + // 6
    [0xF0, 0x10, 0x20, 0x40, 0x40] + // 7
    [0xF0, 0x90, 0xF0, 0x90, 0xF0] + // 8
    [0xF0, 0x90, 0xF0, 0x10, 0xF0] + // 9
    [0xF0, 0x90, 0xF0, 0x90, 0x90] + // A
    [0xE0, 0x90, 0xE0, 0x90, 0xE0] + // B
    [0xF0, 0x80, 0x80, 0x80, 0xF0] + // C
    [0xE0, 0x90, 0x90, 0x90, 0xE0] + // D
    [0xF0, 0x80, 0xF0, 0x80, 0xF0] + // E
    [0xF0, 0x80, 0xF0, 0x80, 0x80]   // F

  /** The five rows of the glyph for hexadecimal digit `d`: every row lights
      some of the left four pixels and none of the right four. */
  function Glyph(d: Nibble): (g: seq<Byte>)
    ensures |g| == GlyphSize
    ensures forall r :: 0 <= r < GlyphSize ==> g[r] % 0x10 == 0 && g[r] >= 0x10
  {
    LeftHalfOnly();
    Chars[GlyphSize * d .. GlyphSize * d + GlyphSize]
  }

  /** Every byte of the table has an empty low nibble and a nonempty high one. */
  lemma LeftHalfOnly()
    ensures forall a :: 0 <= a < |Chars| ==> Chars[a] % 0x10 == 0 && Chars[a] >= 0x10
  {
  }
}
