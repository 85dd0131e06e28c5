/**
 * The crash screen's drawing state and primitives (src/crash_screen.c): the
 * global gCrashScreen becomes one object whose framebuffer is an array of
 * 16-bit cells. Every drawing method is proved to leave the framebuffer equal
 * to the matching function of module Framebuffer applied to its old contents.
 */
module Screen {
  import opened CrashFont
  import opened Framebuffer

  /** SCREEN_WIDTH: the normal screen is 320 cells wide; the high-resolution one is twice that. */
  const ScreenWidth := 320

  /** The range of the u16 fields width and height. */
  type U16 = n: int | 0 <= n < 0x1_0000

  /** The formatted text a printf call draws: its first `size` bytes, or none when size <= 0. */
  function Formatted(buf: seq<bv8>, size: int): (t: seq<bv8>)
    requires size <= |buf|
    ensures |t| == (if size > 0 then size else 0)
    ensures forall k :: 0 <= k < |t| ==> t[k] == buf[k]
  {
    if size > 0 then buf[..size] else []
  }

  class CrashScreen {
    var frameBuf: array<bv16>
    var width: U16
    var height: U16

    /** crash_screen_init: the crash screen starts on the 320-cell screen, 16 rows high. */
    constructor Init(frameBuf: array<bv16>)
      ensures this.frameBuf == frameBuf && width == ScreenWidth && height == 16
    {
      this.frameBuf := frameBuf;
      width := ScreenWidth;
      height := 16;
    }

    /** crash_screen_set_draw_info: later drawing goes to `frameBuf` with the given size. */
    method SetDrawInfo(frameBuf: array<bv16>, width: U16, height: U16)
      modifies this
      ensures this.frameBuf == frameBuf && this.width == width && this.height == height
    {
      this.frameBuf := frameBuf;
      this.width := width;
      this.height := height;
    }

    /**
     * crash_screen_draw_rect(x, y, w, h): dims the rectangle, with every
     * coordinate doubled on the 640-cell screen, and leaves every other cell as it was.
     */
    method DrawRect(x: int, y: int, w: int, h: int)
      requires RectFits(width, frameBuf.Length, x, y, w, h)
      modifies frameBuf
      ensures frameBuf[..] == DimRect(old(frameBuf[..]), width, x, y, w, h)
    {
      ghost var s := frameBuf[..];
      var left, top, rw, rh := x, y, w, h;
      if width == 2 * ScreenWidth {
        left, top, rw, rh := left * 2, top * 2, rw * 2, rh * 2;
      }
      RectScaled(s, width, x, y, w, h, left, top, rw, rh);
      var ptr := width * top + left;
      assert ptr == (top + 0) * width + left;
      var i := 0;
      while i < rh
        invariant 0 <= i && (0 <= rh ==> i <= rh)
        invariant 0 < rw ==> ptr == (top + i) * width + left
        invariant frameBuf[..] == DimBoxPartial(s, width, left, top, rw, rh, i, 0)
      {
        ptr := DimRow(s, left, top, rw, rh, i, ptr);
        assert 0 < rw ==> (top + i) * width + width == (top + i + 1) * width;
        ptr := ptr + width - rw;
        i := i + 1;
      }
      DimBoxPartialDone(s, width, left, top, rw, rh, i);
    }

    /** The inner loop of draw_rect: dims the rw cells of row i of the box, moving ptr past them. */
    method DimRow(ghost s: seq<bv16>, left: int, top: int, rw: int, rh: int, i: int, ptr0: int) returns (ptr: int)
      requires |s| == frameBuf.Length && 0 <= i < rh
      requires 0 < rw ==> BoxFits(width, |s|, left, top, rw, rh) && ptr0 == (top + i) * width + left
      requires frameBuf[..] == DimBoxPartial(s, width, left, top, rw, rh, i, 0)
      modifies frameBuf
      ensures 0 < rw ==> ptr == ptr0 + rw
      ensures frameBuf[..] == DimBoxPartial(s, width, left, top, rw, rh, i + 1, 0)
    {
      ptr := ptr0;
      var j := 0;
      while j < rw
        invariant 0 <= j && (0 <= rw ==> j <= rw)
        invariant 0 < rw ==> ptr == ptr0 + j
        invariant frameBuf[..] == DimBoxPartial(s, width, left, top, rw, rh, i, j)
      {
        DimBoxPartialStep(s, width, left, top, rw, rh, i, j);
        frameBuf[ptr] := Dim(frameBuf[ptr]);
        ptr := ptr + 1;
        j := j + 1;
      }
      DimBoxPartialRow(s, width, left, top, rw, rh, i, j);
    }

    /**
     * crash_screen_draw_glyph(x, y, glyph): paints the glyph's 7 x 6 picture at
     * (x, y) on the 320-cell screen, as 2 x 2 blocks from (2x, 2y) on the
     * 640-cell screen, and nothing on a screen of any other width.
     */
    method DrawGlyph(x: int, y: int, glyph: Glyph)
      requires GlyphFits(width, frameBuf.Length, x, y)
      modifies frameBuf
      ensures frameBuf[..] == GlyphImage(old(frameBuf[..]), width, x, y, GlyphBitmap(glyph))
    {
      var shift := Shift(glyph);
      var data := glyph / 5 * 7;
      if width == ScreenWidth {
        BlitGlyph320(x, y, glyph, shift, data);
      } else if width == 2 * ScreenWidth {
        BlitGlyph640(x, y, glyph, shift, data);
      } else {
        GlyphImageDone(frameBuf[..], width, x, y, GlyphBitmap(glyph), 7);
      }
    }

    /** The font read `*data++` of draw_glyph: the word holding row i of the glyph. */
    static method FontWord(glyph: Glyph, i: int, data: int) returns (w: bv32)
      requires 0 <= i < 7 && data == glyph / 5 * 7 + i
      ensures w == GlyphRow(glyph, i)
    {
      w := Font[data];
    }

    /** The outer loop of draw_glyph at width 320: seven rows, the cursor moving down one screen row each. */
    method BlitGlyph320(x: int, y: int, glyph: Glyph, shift: int, data0: int)
      requires width == 320 && GlyphFits(320, frameBuf.Length, x, y)
      requires shift == Shift(glyph) && data0 == glyph / 5 * 7
      modifies frameBuf
      ensures frameBuf[..] == GlyphImage(old(frameBuf[..]), 320, x, y, GlyphBitmap(glyph))
    {
      ghost var s := frameBuf[..];
      ghost var bm := GlyphBitmap(glyph);
      assert bm[..0] == [];
      var data := data0;
      var ptr := width * y + x;
      var i := 0;
      while i < 7
        invariant 0 <= i <= 7 && data == glyph / 5 * 7 + i
        invariant ptr == (y + i) * 320 + x
        invariant frameBuf[..] == Paint(s, Blit320(x, y, bm[..i]))
      {
        var bit: bv32 := 0x8000_0000 >> shift;
        var rowMask := FontWord(glyph, i, data);
        data := data + 1;
        GlyphRowPixels(glyph, i, rowMask);
        ptr := BlitRow320(bm[i], x, y, glyph, i, bit, rowMask, ptr);
        BlitRowDone(s, x, y, bm, i);
        ptr := ptr + width - 6;
        i := i + 1;
      }
      GlyphImageDone(s, 320, x, y, bm, i);
    }

    /** The outer loop of draw_glyph at width 640: seven rows of blocks, the cursor moving down two screen rows each. */
    method BlitGlyph640(x: int, y: int, glyph: Glyph, shift: int, data0: int)
      requires width == 640 && GlyphFits(640, frameBuf.Length, x, y)
      requires shift == Shift(glyph) && data0 == glyph / 5 * 7
      modifies frameBuf
      ensures frameBuf[..] == GlyphImage(old(frameBuf[..]), 640, x, y, GlyphBitmap(glyph))
    {
      ghost var s := frameBuf[..];
      ghost var bm := GlyphBitmap(glyph);
      assert bm[..0] == [];
      var data := data0;
      var ptr := y * 0x500 + x * 2;
      var i := 0;
      while i < 7
        invariant 0 <= i <= 7 && data == glyph / 5 * 7 + i
        invariant ptr == (2 * y + 2 * i) * 640 + 2 * x
        invariant frameBuf[..] == Paint(s, Blit640(x, y, bm[..i]))
      {
        var bit: bv32 := 0x8000_0000 >> shift;
        var rowMask := FontWord(glyph, i, data);
        data := data + 1;
        GlyphRowPixels(glyph, i, rowMask);
        ptr := BlitRow640(bm[i], x, y, glyph, i, bit, rowMask, ptr);
        BlitRowDone(s, x, y, bm, i);
        ptr := ptr + 0x9E8 / 2;
        i := i + 1;
      }
      GlyphImageDone(s, 640, x, y, bm, i);
    }

    /** The inner loop of draw_glyph at width 320: the six pixels of glyph row i, one cell each. */
    method BlitRow320(ghost row: seq<bv16>, x: int, y: int, glyph: Glyph, i: int, bit0: bv32, rowMask: bv32, ptr0: int)
      returns (ptr: int)
      requires width == 320 && GlyphFits(320, frameBuf.Length, x, y) && 0 <= i < 7
      requires |row| == 6 && forall j :: 0 <= j < 6 ==> row[j] == Ink(ColumnBit(glyph, j), rowMask)
      requires bit0 == ColumnBit(glyph, 0) && ptr0 == (y + i) * 320 + x
      modifies frameBuf
      ensures ptr == ptr0 + 6
      ensures frameBuf[..] == Paint(old(frameBuf[..]), Row320(x, y, i, row))
    {
      ghost var t := frameBuf[..];
      RowStart(t, x, y, i, row);
      var bit := bit0;
      ptr := ptr0;
      var j := 0;
      while j < 6
        invariant 0 <= j <= 6
        invariant j < 6 ==> bit == ColumnBit(glyph, j)
        invariant ptr == ptr0 + j
        invariant frameBuf[..] == Paint(t, Row320(x, y, i, row[..j]))
      {
        var colour := Ink(bit, rowMask);
        StorePixel320(t, x, y, i, row, j, colour, ptr);
        ptr := ptr + 1;
        if j < 5 {
          ColumnBitNext(glyph, j);
        }
        bit := bit >> 1;
        j := j + 1;
      }
      assert row[..j] == row;
    }

    /** The inner loop of draw_glyph at width 640: the six pixels of glyph row i, a 2 x 2 block each. */
    method BlitRow640(ghost row: seq<bv16>, x: int, y: int, glyph: Glyph, i: int, bit0: bv32, rowMask: bv32, ptr0: int)
      returns (ptr: int)
      requires width == 640 && GlyphFits(640, frameBuf.Length, x, y) && 0 <= i < 7
      requires |row| == 6 && forall j :: 0 <= j < 6 ==> row[j] == Ink(ColumnBit(glyph, j), rowMask)
      requires bit0 == ColumnBit(glyph, 0) && ptr0 == (2 * y + 2 * i) * 640 + 2 * x
      modifies frameBuf
      ensures ptr == ptr0 + 12
      ensures frameBuf[..] == Paint(old(frameBuf[..]), Row640(x, y, i, row))
    {
      ghost var t := frameBuf[..];
      RowStart(t, x, y, i, row);
      var bit := bit0;
      ptr := ptr0;
      var j := 0;
      while j < 6
        invariant 0 <= j <= 6
        invariant j < 6 ==> bit == ColumnBit(glyph, j)
        invariant ptr == ptr0 + 2 * j
        invariant frameBuf[..] == Paint(t, Row640(x, y, i, row[..j]))
      {
        var temp := Ink(bit, rowMask);
        StoreBlock640(t, x, y, i, row, j, temp, ptr);
        ptr := ptr + 2;
        if j < 5 {
          ColumnBitNext(glyph, j);
        }
        bit := bit >> 1;
        j := j + 1;
      }
      assert row[..j] == row;
    }

    /** `*ptr++ = temp` at width 320: the store for pixel j of glyph row i. */
    method StorePixel320(ghost t: seq<bv16>, x: int, y: int, i: int, ghost row: seq<bv16>, j: int, colour: bv16, ptr: int)
      requires |t| == frameBuf.Length && GlyphFits(320, |t|, x, y) && 0 <= i < 7 && 0 <= j < |row| == 6
      requires colour == row[j] && ptr == (y + i) * 320 + x + j
      requires frameBuf[..] == Paint(t, Row320(x, y, i, row[..j]))
      modifies frameBuf
      ensures frameBuf[..] == Paint(t, Row320(x, y, i, row[..j + 1]))
    {
      Row320Step(t, x, y, i, row, j);
      frameBuf[ptr] := colour;
    }

    /** `ptr[0] = ptr[1] = ptr[640] = ptr[641] = temp` at width 640: the block for pixel j of glyph row i. */
    method StoreBlock640(ghost t: seq<bv16>, x: int, y: int, i: int, ghost row: seq<bv16>, j: int, temp: bv16, ptr: int)
      requires |t| == frameBuf.Length && GlyphFits(640, |t|, x, y) && 0 <= i < 7 && 0 <= j < |row| == 6
      requires temp == row[j] && ptr == (2 * y + 2 * i) * 640 + 2 * x + 2 * j
      requires frameBuf[..] == Paint(t, Row640(x, y, i, row[..j]))
      modifies frameBuf
      ensures frameBuf[..] == Paint(t, Row640(x, y, i, row[..j + 1]))
    {
      Row640Step(t, x, y, i, row, j);
      frameBuf[ptr] := temp;
      frameBuf[ptr + 1] := temp;
      frameBuf[ptr + 2 * ScreenWidth] := temp;
      frameBuf[ptr + 2 * ScreenWidth + 1] := temp;
    }

    /**
     * The glyph walk shared by crash_screen_printf and crash_screen_printf_with_bg:
     * each of the `size` bytes is looked up by its low 7 bits, its glyph (if any)
     * is drawn at the cursor, and the cursor moves 6 cells right.
     */
    method DrawText(x: int, y: int, buf: seq<bv8>, size: int)
      requires 0 < size <= |buf|
      requires TextFits(width, frameBuf.Length, x, y, GlyphCodes(buf[..size]))
      modifies frameBuf
      ensures frameBuf[..] == Print(old(frameBuf[..]), width, x, y, buf[..size])
    {
      ghost var s := frameBuf[..];
      ghost var codes := GlyphCodes(buf[..size]);
      var ptr := 0;
      var cursor := x;
      var n := size;
      while n > 0
        invariant 0 <= ptr <= size && n == size - ptr && cursor == Cursor(x, ptr)
        invariant frameBuf[..] == TextImage(s, width, x, y, codes[..ptr])
      {
        var glyph := LookupGlyph(buf[ptr]);
        assert glyph == codes[ptr];
        TextImagePrefix(s, width, x, y, codes, ptr);
        DrawEntry(cursor, y, glyph);
        n := n - 1;
        ptr := ptr + 1;
        cursor := cursor + 6;
      }
      assert codes[..ptr] == codes;
    }

    /** The table read `gCrashScreenCharToGlyph[*ptr & 0x7F]` of the glyph walk. */
    static method LookupGlyph(b: bv8) returns (g: GlyphCode)
      ensures g == GlyphOf(b)
    {
      var entry := CharToGlyph[(b & 0x7F) as int];
      assert entry == GlyphOf(b);
      g := entry;
    }

    /** One step of the glyph walk: the entry's glyph at the cursor, or nothing for the sentinel. */
    method DrawEntry(x: int, y: int, glyph: GlyphCode)
      requires glyph != NoGlyph ==> GlyphFits(width, frameBuf.Length, x, y)
      modifies frameBuf
      ensures frameBuf[..] == CharImage(old(frameBuf[..]), width, x, y, glyph)
    {
      if glyph != NoGlyph {
        DrawGlyph(x, y, glyph);
      }
    }

    /**
     * crash_screen_printf(x, y, ...), given the formatted bytes and the count
     * _Printf returned: draws the text, and draws nothing when the count is not positive.
     */
    method Printf(x: int, y: int, buf: seq<bv8>, size: int)
      requires size <= |buf|
      requires TextFits(width, frameBuf.Length, x, y, GlyphCodes(Formatted(buf, size)))
      modifies frameBuf
      ensures frameBuf[..] == Print(old(frameBuf[..]), width, x, y, Formatted(buf, size))
      ensures size <= 0 ==> frameBuf[..] == old(frameBuf[..])
    {
      if size > 0 {
        DrawText(x, y, buf, size);
      }
    }

    /**
     * crash_screen_printf_with_bg(x, y, ...): for a positive count, first dims
     * the box reaching 6 cells beyond the text on every side (19 rows, 6 * (size + 2)
     * columns), then draws the text on top of it.
     */
    method PrintfWithBg(x: int, y: int, buf: seq<bv8>, size: int)
      requires size <= |buf|
      requires size > 0 ==> RectFits(width, frameBuf.Length, x - 6, y - 6, (size + 2) * 6, 19)
      requires TextFits(width, frameBuf.Length, x, y, GlyphCodes(Formatted(buf, size)))
      modifies frameBuf
      ensures frameBuf[..] ==
        if size > 0
        then Print(DimRect(old(frameBuf[..]), width, x - 6, y - 6, (size + 2) * 6, 19), width, x, y, buf[..size])
        else old(frameBuf[..])
    {
      if size > 0 {
        DrawRect(x - 6, y - 6, (size + 2) * 6, 19);
        DrawText(x, y, buf, size);
      }
    }
  }
}
