/**
 * The crash screen's bitmap font (src/crash_screen.c, lines 12-29): a 128-entry
 * table from 7-bit character codes to glyph indices, and the packed glyph atlas.
 * Each glyph is 7 rows by 6 columns; five glyphs share a group of seven 32-bit
 * words, glyph g occupying bits 31 - 6*(g % 5) downwards of words 7*(g / 5) .. +6.
 */
module CrashFont {

  /** The sentinel stored in the table for characters that have no glyph. */
  const NoGlyph := 0xFF

  /** A table entry: the sentinel, or one of the 45 glyphs of the atlas. */
  type GlyphCode = c: int | c == 0xFF || 0 <= c <= 44

  /** A glyph that the atlas actually holds. */
  type Glyph = g: int | 0 <= g <= 44

  /** gCrashScreenCharToGlyph, as u8 values: the -1 of the source is 0xFF. */
  const CharToGlyph: seq<int> :=
    [0xFF, 0xFF, 0xFF, 0xFF, 0xFF, 0xFF, 0xFF, 0xFF, 0xFF, 0xFF, 0xFF, 0xFF, 0xFF, 0xFF, 0xFF, 0xFF] +
    [0xFF, 0xFF, 0xFF, 0xFF, 0xFF, 0xFF, 0xFF, 0xFF, 0xFF, 0xFF, 0xFF, 0xFF, 0xFF, 0xFF, 0xFF, 0xFF] +
    [0xFF, 41, 0xFF, 0xFF, 0xFF, 43, 0xFF, 0xFF, 37, 38, 0xFF, 42, 0xFF, 39, 44, 0xFF] +
    [0, 1, 2, 3, 4, 5, 6, 7, 8, 9, 36, 0xFF, 0xFF, 0xFF, 0xFF, 40] +
    [0xFF, 10, 11, 12, 13, 14, 15, 16, 17, 18, 19, 20, 21, 22, 23, 24] +
    [25, 26, 27, 28, 29, 30, 31, 32, 33, 34, 35, 0xFF, 0xFF, 0xFF, 0xFF, 0xFF] +
    [0xFF, 10, 11, 12, 13, 14, 15, 16, 17, 18, 19, 20, 21, 22, 23, 24] +
    [25, 26, 27, 28, 29, 30, 31, 32, 33, 34, 35, 0xFF, 0xFF, 0xFF, 0xFF, 0xFF]

  /** gCrashScreenFont: 64 words, of which the 45 glyphs use words 0 .. 62. */
  const Font: seq<bv32> :=
    [0x70871C30, 0x8988A250, 0x88808290, 0x88831C90, 0x888402F8, 0x88882210, 0x71CF9C10, 0xF9CF9C70] +
    [0x8228A288, 0xF200A288, 0x0BC11C78, 0x0A222208, 0x8A222288, 0x71C21C70, 0x23C738F8, 0x5228A480] +
    [0x8A282280, 0x8BC822F0, 0xFA282280, 0x8A28A480, 0x8BC738F8, 0xF9C89C08, 0x82288808, 0x82088808] +
    [0xF2EF8808, 0x82288888, 0x82288888, 0x81C89C70, 0x8A08A270, 0x920DA288, 0xA20AB288, 0xC20AAA88] +
    [0xA208A688, 0x9208A288, 0x8BE8A270, 0xF1CF1CF8, 0x8A28A220, 0x8A28A020, 0xF22F1C20, 0x82AA0220] +
    [0x82492220, 0x81A89C20, 0x8A28A288, 0x8A28A288, 0x8A289488, 0x8A2A8850, 0x894A9420, 0x894AA220] +
    [0x70852220, 0xF8011000, 0x08020800, 0x10840400, 0x20040470, 0x40840400, 0x80020800, 0xF8011000] +
    [0x70800000, 0x88822200, 0x08820400, 0x108F8800, 0x20821000, 0x00022200, 0x20800020, 0x00000000]

  /**
   * The table lookup of the text walk: only the low 7 bits of the byte index the
   * table. The result is the sentinel or a glyph whose seven font words lie in
   * the atlas.
   */
  function GlyphOf(b: bv8): (g: int)
    ensures g == NoGlyph || 0 <= g <= 44
    ensures g != NoGlyph ==> 0 <= g / 5 * 7 && g / 5 * 7 + 6 < |Font|
  {
    CharToGlyph[(b & 0x7F) as int]
  }

  /** The font word holding row `row` of glyph `g`. */
  function GlyphRow(g: Glyph, row: int): bv32
    requires 0 <= row < 7
  {
    Font[g / 5 * 7 + row]
  }

  /** The two colours of the crash screen's text: full white where a font bit is set, near-black elsewhere. */
  function Ink(bit: bv32, rowMask: bv32): (c: bv16)
    ensures c == 0xFFFF <==> bit & rowMask != 0
    ensures c == 0xFFFF || c == 1
  {
    if bit & rowMask != 0 then 0xFFFF else 1
  }

  /** How far right of bit 31 glyph g's columns start: six bits per glyph of its group of five. */
  function Shift(g: Glyph): (sh: int)
    ensures 0 <= sh <= 24
  {
    (g % 5) * 6
  }

  /** The mask of column `col` of glyph g: bit 31 - 6 * (g % 5) - col. */
  function ColumnBit(g: Glyph, col: int): bv32
    requires 0 <= col < 6
  {
    0x8000_0000 >> (Shift(g) + col)
  }

  /** Shifting the mask right by one moves to the next column, as draw_glyph's `bit >>= 1` does. */
  lemma ColumnBitNext(g: Glyph, col: int)
    requires 0 <= col < 5
    ensures ColumnBit(g, col) >> 1 == ColumnBit(g, col + 1)
  {
    TopBitStep(Shift(g) + col);
  }

  /** Shifting bit 31 right by n and then by one more is shifting it by n + 1. */
  lemma TopBitStep(n: int)
    requires 0 <= n < 31
    ensures (0x8000_0000 as bv32 >> n) >> 1 == 0x8000_0000 as bv32 >> (n + 1)
  {
  }

  /** A 7-row by 6-column picture of one glyph, row by row. */
  type Bitmap = bm: seq<seq<bv16>> | |bm| == 7 && forall r :: 0 <= r < |bm| ==> |bm[r]| == 6
    witness seq(7, r => seq(6, c => 1 as bv16))

  /** The picture that draw_glyph paints for glyph g. */
  function GlyphBitmap(g: Glyph): (bm: Bitmap)
    ensures forall r, c :: 0 <= r < 7 && 0 <= c < 6 ==> bm[r][c] == 0xFFFF || bm[r][c] == 1
  {
    seq(7, r requires 0 <= r < 7 => seq(6, c requires 0 <= c < 6 => Ink(ColumnBit(g, c), GlyphRow(g, r))))
  }

  /** Row i of the picture: pixel j is the ink of column j's mask against the row's font word. */
  lemma GlyphRowPixels(g: Glyph, i: int, rowMask: bv32)
    requires 0 <= i < 7 && rowMask == GlyphRow(g, i)
    ensures |GlyphBitmap(g)[i]| == 6 && forall j :: 0 <= j < 6 ==> GlyphBitmap(g)[i][j] == Ink(ColumnBit(g, j), rowMask)
  {
  }

  /** Only the low 7 bits of a byte select its glyph. */
  lemma HighBitIgnored(b: bv8)
    ensures GlyphOf(b) == GlyphOf(b & 0x7F) && GlyphOf(b) == GlyphOf(b ^ 0x80)
  {
  }

  /** Lower-case letters share the glyphs of the upper-case letters, and have one. */
  lemma CaseInsensitive(b: bv8)
    requires 0x61 <= b <= 0x7A
    ensures GlyphOf(b) == GlyphOf(b - 0x20) && GlyphOf(b) != NoGlyph
  {
  }

  /** Digits map to glyphs 0..9 and upper-case letters to glyphs 10..35, in order. */
  lemma DigitsAndLetters(b: bv8)
    ensures 0x30 <= b <= 0x39 ==> GlyphOf(b) == (b as int) - 0x30
    ensures 0x41 <= b <= 0x5A ==> GlyphOf(b) == (b as int) - 0x41 + 10
  {
  }

  // ---------------------------------------------------------------------------
  // Whole strings
  // ---------------------------------------------------------------------------

  /** The table entries of a formatted string, byte by byte. */
  function GlyphCodes(t: seq<bv8>): (codes: seq<GlyphCode>)
    ensures |codes| == |t| && forall k :: 0 <= k < |t| ==> codes[k] == GlyphOf(t[k])
  {
    seq(|t|, k requires 0 <= k < |t| => GlyphOf(t[k]))
  }

  /** The bytes with their high bit cleared. */
  function Low7(t: seq<bv8>): (r: seq<bv8>)
    ensures |r| == |t| && forall k :: 0 <= k < |t| ==> r[k] < 0x80
  {
    seq(|t|, k requires 0 <= k < |t| => t[k] & 0x7F)
  }

  /** The text with lower-case ASCII letters replaced by upper-case ones. */
  function ToUpper(t: seq<bv8>): (r: seq<bv8>)
    ensures |r| == |t|
  {
    seq(|t|, k requires 0 <= k < |t| => if 0x61 <= t[k] <= 0x7A then t[k] - 0x20 else t[k])
  }

  /** Clearing every high bit selects the same glyphs. */
  lemma CodesLow7(t: seq<bv8>)
    ensures GlyphCodes(Low7(t)) == GlyphCodes(t)
  {
    forall k | 0 <= k < |t|
      ensures GlyphCodes(Low7(t))[k] == GlyphCodes(t)[k]
    {
      HighBitIgnored(t[k]);
    }
  }

  /** Upper- and lower-case text select the same glyphs. */
  lemma CodesToUpper(t: seq<bv8>)
    ensures GlyphCodes(ToUpper(t)) == GlyphCodes(t)
  {
    forall k | 0 <= k < |t|
      ensures GlyphCodes(ToUpper(t))[k] == GlyphCodes(t)[k]
    {
      if 0x61 <= t[k] <= 0x7A {
        CaseInsensitive(t[k]);
      }
    }
  }

  /** Looking up a concatenation looks up each part. */
  lemma CodesAppend(t1: seq<bv8>, t2: seq<bv8>)
    ensures GlyphCodes(t1 + t2) == GlyphCodes(t1) + GlyphCodes(t2)
  {
    forall k | 0 <= k < |t1| + |t2|
      ensures GlyphCodes(t1 + t2)[k] == (GlyphCodes(t1) + GlyphCodes(t2))[k]
    {
      if k < |t1| {
        assert (t1 + t2)[k] == t1[k];
      } else {
        assert (t1 + t2)[k] == t2[k - |t1|];
      }
    }
  }
}
