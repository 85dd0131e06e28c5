/**
 * Pure descriptions of what the crash screen's drawing primitives do to the
 * framebuffer (src/crash_screen.c, lines 91-156 and 162-192, 348-377). The
 * framebuffer is a flat sequence of 16-bit RGBA-5551 cells; the cell at offset k
 * is on row k / width and in column k % width. The methods in module Screen are
 * proved to leave the framebuffer equal to these functions of its old contents.
 */
module Framebuffer {
  import opened CrashFont

  // ---------------------------------------------------------------------------
  // Integer helpers for the row/column view of a flat framebuffer
  // ---------------------------------------------------------------------------

  lemma {:induction false} MulLe(a: int, b: int, n: int)
    requires a <= b && 0 <= n
    ensures a * n <= b * n
  {
    var d := b - a;
    assert b * n == a * n + d * n;
  }

  /** Cell (row, col) of a framebuffer `n` cells wide is at offset row * n + col. */
  lemma {:induction false} DivMod(row: int, col: int, n: int)
    requires 0 <= col < n
    ensures (row * n + col) / n == row && (row * n + col) % n == col
  {
    var k := row * n + col;
    var q, m := k / n, k % n;
    assert k == q * n + m;
    var d := row - q;
    assert row * n == q * n + d * n;
    assert d * n == m - col;
    if d >= 1 {
      MulLe(1, d, n);
    } else if d <= -1 {
      MulLe(d, -1, n);
    }
  }

  /** Every offset is the cell of its own row and column. */
  lemma {:induction false} Decompose(k: int, n: int)
    requires 0 < n
    ensures k == (k / n) * n + k % n && 0 <= k % n < n
  {
  }

  // ---------------------------------------------------------------------------
  // Sequence helpers for the last element of a sequence
  // ---------------------------------------------------------------------------

  /** A prefix of n + 1 elements: dropping its last element leaves the prefix of n. */
  lemma {:induction false} TakeLast<T>(c: seq<T>, n: int)
    requires 0 <= n < |c|
    ensures var p := c[..n + 1]; |p| - 1 == n && p[..|p| - 1] == c[..n] && p[|p| - 1] == c[n]
  {
    assert c[..n + 1][..n] == c[..n];
  }

  /** The last element of c1 + c2, for a non-empty c2, is that of c2. */
  lemma {:induction false} AppendLast<T>(c1: seq<T>, c2: seq<T>)
    requires c2 != []
    ensures var c, n := c1 + c2, |c2| - 1;
      |c| - 1 == |c1| + n && c[..|c| - 1] == c1 + c2[..n] && c[|c| - 1] == c2[n]
  {
    var c, n := c1 + c2, |c2| - 1;
    assert c[..|c| - 1] == c1 + c2[..n];
  }

  // ---------------------------------------------------------------------------
  // The dimming blend
  // ---------------------------------------------------------------------------

  /** The per-pixel transform of draw_rect. */
  function Dim(c: bv16): bv16
  {
    ((c & 0xE738) >> 2) | 1
  }

  function Red(c: bv16): bv16 { (c >> 11) & 0x1F }
  function Green(c: bv16): bv16 { (c >> 6) & 0x1F }
  function Blue(c: bv16): bv16 { (c >> 1) & 0x1F }
  function Alpha(c: bv16): bv16 { c & 1 }

  /**
   * Read as RGBA-5551, the blend divides each colour channel by four and sets
   * the alpha bit: it darkens what is on the screen instead of clearing it.
   */
  lemma {:induction false} DimChannels(c: bv16)
    ensures Red(Dim(c)) == Red(c) >> 2
    ensures Green(Dim(c)) == Green(c) >> 2
    ensures Blue(Dim(c)) == Blue(c) >> 2
    ensures Alpha(Dim(c)) == 1
  {
  }

  /** Three blends make any colour the fixed point 0x0001 (0xFFFF -> 0x39CF -> 0x0843 -> 0x0001). */
  lemma {:induction false} DimReachesFixedPoint(c: bv16)
    ensures Dim(Dim(Dim(c))) == 1 && Dim(1) == 1
  {
  }

  // ---------------------------------------------------------------------------
  // draw_rect
  // ---------------------------------------------------------------------------

  /** The high-resolution mode doubles every coordinate (width 640, twice the 320-pixel screen). */
  function Scale(width: int): (sc: int)
    ensures sc == 1 || sc == 2
  {
    if width == 640 then 2 else 1
  }

  /** Offset k lies in the box with top-left cell (left, top), w columns wide and h rows high. */
  predicate InBox(k: int, width: int, left: int, top: int, w: int, h: int)
    requires width > 0
  {
    top <= k / width < top + h && left <= k % width < left + w
  }

  /** The framebuffer `s` after every cell of a box has been dimmed. */
  function DimBox(s: seq<bv16>, width: int, left: int, top: int, w: int, h: int): (r: seq<bv16>)
    ensures |r| == |s|
  {
    if width <= 0 then s
    else seq(|s|, k requires 0 <= k < |s| => if InBox(k, width, left, top, w, h) then Dim(s[k]) else s[k])
  }

  /**
   * crash_screen_draw_rect(x, y, w, h): the box is given in 320-pixel coordinates
   * and is doubled on the 640-pixel screen.
   */
  function DimRect(s: seq<bv16>, width: int, x: int, y: int, w: int, h: int): (r: seq<bv16>)
    ensures |r| == |s|
  {
    var sc := Scale(width);
    DimBox(s, width, sc * x, sc * y, sc * w, sc * h)
  }

  /** The box with top-left cell (left, top), w columns wide and h rows high, lies inside the framebuffer. */
  predicate BoxFits(width: int, len: int, left: int, top: int, w: int, h: int)
  {
    0 <= left && left + w <= width && 0 <= top && (top + h) * width <= len
  }

  /**
   * What callers of draw_rect must guarantee (the source does no clipping): a
   * non-empty rectangle, once scaled, lies inside the screen's columns and inside
   * the framebuffer's rows.
   */
  predicate RectFits(width: int, len: int, x: int, y: int, w: int, h: int)
  {
    var sc := Scale(width);
    w <= 0 || h <= 0 || BoxFits(width, len, sc * x, sc * y, sc * w, sc * h)
  }

  /** draw_rect's scaled coordinates name a box that fits, and dimming it is DimRect. */
  lemma {:induction false} RectScaled(s: seq<bv16>, width: int, x: int, y: int, w: int, h: int, left: int, top: int, rw: int, rh: int)
    requires RectFits(width, |s|, x, y, w, h)
    requires left == Scale(width) * x && top == Scale(width) * y && rw == Scale(width) * w && rh == Scale(width) * h
    ensures 0 < rw && 0 < rh ==> BoxFits(width, |s|, left, top, rw, rh)
    ensures DimRect(s, width, x, y, w, h) == DimBox(s, width, left, top, rw, rh)
  {
  }

  /**
   * The rectangle's cells, addressed by row and column, are dimmed and every
   * other cell of the framebuffer keeps its colour.
   */
  lemma {:induction false} DimRectCell(s: seq<bv16>, width: int, x: int, y: int, w: int, h: int, row: int, col: int)
    requires 0 <= col < width && 0 <= row * width + col < |s|
    ensures var sc := Scale(width);
      DimRect(s, width, x, y, w, h)[row * width + col] ==
        (if sc * y <= row < sc * y + sc * h && sc * x <= col < sc * x + sc * w
         then Dim(s[row * width + col]) else s[row * width + col])
  {
    DivMod(row, col, width);
  }

  /** The part of DimBox done after rows 0 .. i-1 and the first j cells of row i. */
  function DimBoxPartial(s: seq<bv16>, width: int, left: int, top: int, w: int, h: int, i: int, j: int): (r: seq<bv16>)
    ensures |r| == |s|
  {
    if width <= 0 then s
    else
      seq(|s|, k requires 0 <= k < |s| =>
        if InBox(k, width, left, top, w, h) && (k / width - top < i || (k / width - top == i && k % width - left < j))
        then Dim(s[k]) else s[k])
  }

  lemma {:induction false} DimBoxPartialStart(s: seq<bv16>, width: int, left: int, top: int, w: int, h: int)
    ensures DimBoxPartial(s, width, left, top, w, h, 0, 0) == s
  {
  }

  lemma {:induction false} DimBoxPartialRow(s: seq<bv16>, width: int, left: int, top: int, w: int, h: int, i: int, j: int)
    requires w <= j
    ensures DimBoxPartial(s, width, left, top, w, h, i, j) == DimBoxPartial(s, width, left, top, w, h, i + 1, 0)
  {
  }

  lemma {:induction false} DimBoxPartialDone(s: seq<bv16>, width: int, left: int, top: int, w: int, h: int, i: int)
    requires h <= i
    ensures DimBoxPartial(s, width, left, top, w, h, i, 0) == DimBox(s, width, left, top, w, h)
  {
  }

  /** Cell k's colour after one more cell of row i is dimmed. */
  lemma {:induction false} DimBoxPartialStepAt(s: seq<bv16>, width: int, left: int, top: int, w: int, h: int, i: int, j: int, k: int)
    requires 0 <= left && left + w <= width && 0 <= i < h && 0 <= j < w && 0 <= k < |s|
    ensures var p := (top + i) * width + left + j;
      DimBoxPartial(s, width, left, top, w, h, i, j + 1)[k] ==
        (if k == p then Dim(s[k]) else DimBoxPartial(s, width, left, top, w, h, i, j)[k])
  {
    var p := (top + i) * width + left + j;
    Decompose(k, width);
    DivMod(top + i, left + j, width);
    if k != p {
      assert !(k / width == top + i && k % width == left + j);
    }
  }

  /** Cell (left + j, top + i) of a box that fits in the framebuffer is a valid offset. */
  lemma {:induction false} BoxCell(width: int, left: int, top: int, w: int, h: int, i: int, j: int, len: int)
    requires BoxFits(width, len, left, top, w, h)
    requires 0 <= i < h && 0 <= j < w
    ensures var p := (top + i) * width + left + j;
      0 <= p < len && p / width == top + i && p % width == left + j
  {
    MulLe(0, top + i, width);
    MulLe(top + i + 1, top + h, width);
    DivMod(top + i, left + j, width);
  }

  /** Dimming cell j of row i is the next step of DimBoxPartial. */
  lemma {:induction false} DimBoxPartialStep(s: seq<bv16>, width: int, left: int, top: int, w: int, h: int, i: int, j: int)
    requires BoxFits(width, |s|, left, top, w, h)
    requires 0 <= i < h && 0 <= j < w
    ensures var p := (top + i) * width + left + j;
      0 <= p < |s| &&
      DimBoxPartial(s, width, left, top, w, h, i, j)[p] == s[p] &&
      DimBoxPartial(s, width, left, top, w, h, i, j + 1) ==
        DimBoxPartial(s, width, left, top, w, h, i, j)[p := Dim(s[p])]
  {
    var p := (top + i) * width + left + j;
    BoxCell(width, left, top, w, h, i, j, |s|);
    var before := DimBoxPartial(s, width, left, top, w, h, i, j);
    var after := DimBoxPartial(s, width, left, top, w, h, i, j + 1);
    assert before[p] == s[p];
    forall k | 0 <= k < |s|
      ensures after[k] == before[p := Dim(s[p])][k]
    {
      DimBoxPartialStepAt(s, width, left, top, w, h, i, j, k);
    }
  }

  // ---------------------------------------------------------------------------
  // draw_glyph
  // ---------------------------------------------------------------------------

  /**
   * What callers of draw_glyph must guarantee on the two supported screens: the
   * 6 x 7 cell (doubled at width 640) lies inside the screen's columns and the
   * framebuffer's rows.
   */
  predicate GlyphFits(width: int, len: int, x: int, y: int)
  {
    (width == 320 ==> 0 <= x && x + 6 <= 320 && 0 <= y && (y + 7) * 320 <= len) &&
    (width == 640 ==> 0 <= x && 2 * x + 12 <= 640 && 0 <= y && (2 * y + 14) * 640 <= len)
  }

  /** One store of a blit loop: colour `colour` goes to framebuffer offset `at`. */
  datatype Store = Store(at: int, colour: bv16)

  /** The framebuffer after the stores, made in order; a store outside the framebuffer changes nothing. */
  function Paint(s: seq<bv16>, stores: seq<Store>): (r: seq<bv16>)
    ensures |r| == |s|
    decreases |stores|
  {
    if stores == [] then s
    else
      var n := |stores| - 1;
      var before := Paint(s, stores[..n]);
      if 0 <= stores[n].at < |before| then before[stores[n].at := stores[n].colour] else before
  }

  /** One more store: the framebuffer so far, with that one cell changed. */
  lemma {:induction false} PaintSnoc(s: seq<bv16>, stores: seq<Store>, st: Store)
    requires 0 <= st.at < |s|
    ensures Paint(s, stores + [st]) == Paint(s, stores)[st.at := st.colour]
  {
    assert (stores + [st])[..|stores|] == stores;
  }

  /** Making the stores a and then the stores b is making the stores a + b. */
  lemma {:induction false} PaintAppend(s: seq<bv16>, a: seq<Store>, b: seq<Store>)
    ensures Paint(s, a + b) == Paint(Paint(s, a), b)
    decreases |b|
  {
    if b == [] {
      assert a + b == a;
    } else {
      var n := |b| - 1;
      assert (a + b)[..|a| + n] == a + b[..n] && (a + b)[|a| + n] == b[n];
      PaintAppend(s, a, b[..n]);
    }
  }

  /** The offset of pixel b of glyph row i at width 320: cell (x + b, y + i). */
  function Cell320(x: int, y: int, i: int, b: int): int
  {
    (y + i) * 320 + x + b
  }

  /** The stores for glyph row i at width 320: its pixel b goes to cell (x + b, y + i). */
  function Row320(x: int, y: int, i: int, row: seq<bv16>): seq<Store>
    decreases |row|
  {
    if row == [] then []
    else Row320(x, y, i, row[..|row| - 1]) + [Store(Cell320(x, y, i, |row| - 1), row[|row| - 1])]
  }

  /**
   * The stores the width-320 loop of crash_screen_draw_glyph(x, y, bm) makes for
   * the glyph rows `rows`: row a on screen row y + a, top to bottom, left to right.
   */
  function Blit320(x: int, y: int, rows: seq<seq<bv16>>): seq<Store>
    decreases |rows|
  {
    if rows == [] then []
    else
      var n := |rows| - 1;
      Blit320(x, y, rows[..n]) + Row320(x, y, n, rows[n])
  }

  /**
   * The stores for glyph row i at width 640: its pixel b goes to the 2 x 2 block
   * at (2x + 2b, 2y + 2i) in the order top left, top right, bottom left, bottom right.
   */
  function Row640(x: int, y: int, i: int, row: seq<bv16>): seq<Store>
    decreases |row|
  {
    if row == [] then []
    else Row640(x, y, i, row[..|row| - 1]) + Block(Cell640(x, y, i, |row| - 1), row[|row| - 1])
  }

  /** The top-left offset of the block of pixel b of glyph row i at width 640: cell (2x + 2b, 2y + 2i). */
  function Cell640(x: int, y: int, i: int, b: int): int
  {
    (2 * y + 2 * i) * 640 + 2 * x + 2 * b
  }

  /** The four stores of one 2 x 2 block from offset p on a framebuffer 640 cells wide. */
  function Block(p: int, v: bv16): seq<Store>
  {
    [Store(p, v), Store(p + 1, v), Store(p + 640, v), Store(p + 641, v)]
  }

  /**
   * The stores the width-640 loop of crash_screen_draw_glyph(x, y, bm) makes: glyph
   * row a from cell (2x, 2y + 2a), a nearest-neighbour magnification.
   */
  function Blit640(x: int, y: int, rows: seq<seq<bv16>>): seq<Store>
    decreases |rows|
  {
    if rows == [] then []
    else
      var n := |rows| - 1;
      Blit640(x, y, rows[..n]) + Row640(x, y, n, rows[n])
  }

  /** The stores crash_screen_draw_glyph(x, y, bm) makes; none on a screen of any other width. */
  function GlyphStores(width: int, x: int, y: int, bm: Bitmap): seq<Store>
  {
    if width == 320 then Blit320(x, y, bm)
    else if width == 640 then Blit640(x, y, bm)
    else []
  }

  /** The framebuffer after crash_screen_draw_glyph(x, y, bm). */
  function GlyphImage(s: seq<bv16>, width: int, x: int, y: int, bm: Bitmap): (r: seq<bv16>)
    ensures |r| == |s|
  {
    Paint(s, GlyphStores(width, x, y, bm))
  }

  /** Storing a block: the framebuffer so far, with the block's four cells changed. */
  lemma {:induction false} PaintBlock(t: seq<bv16>, stores: seq<Store>, p: int, v: bv16)
    requires 0 <= p && p + 641 < |t|
    ensures Paint(t, stores + Block(p, v)) == Paint(t, stores)[p := v][p + 1 := v][p + 640 := v][p + 641 := v]
  {
    var s1 := stores + [Store(p, v)];
    var s2 := s1 + [Store(p + 1, v)];
    var s3 := s2 + [Store(p + 640, v)];
    assert stores + Block(p, v) == s3 + [Store(p + 641, v)];
    PaintSnoc(t, stores, Store(p, v));
    PaintSnoc(t, s1, Store(p + 1, v));
    PaintSnoc(t, s2, Store(p + 640, v));
    PaintSnoc(t, s3, Store(p + 641, v));
  }

  /** Cell k after a 2 x 2 block of colour v is stored from offset p of a framebuffer 640 cells wide. */
  lemma {:induction false} BlockAt(t: seq<bv16>, p: int, v: bv16, k: int)
    requires 0 <= p && p + 641 < |t| && 0 <= k < |t|
    ensures t[p := v][p + 1 := v][p + 640 := v][p + 641 := v][k] ==
      if k == p || k == p + 1 || k == p + 640 || k == p + 641 then v else t[k]
  {
  }

  /** At width 320, a row's pixel b ends up on cell (x + b, y). */
  lemma {:induction false} Row320Cell(t: seq<bv16>, x: int, y: int, i: int, row: seq<bv16>, b: int)
    requires |row| <= 6 && 0 <= b < 6 && 0 <= Cell320(x, y, i, 0) && Cell320(x, y, i, 6) <= |t|
    ensures var k := Cell320(x, y, i, b);
      Paint(t, Row320(x, y, i, row))[k] == if b < |row| then row[b] else t[k]
    decreases |row|
  {
    if row != [] {
      var n := |row| - 1;
      Row320Snoc(t, x, y, i, row);
      if b != n {
        Row320Cell(t, x, y, i, row[..n], b);
      }
    }
  }

  /** The last pixel of a row at width 320: its store on top of the row's earlier pixels. */
  lemma {:induction false} Row320Snoc(t: seq<bv16>, x: int, y: int, i: int, row: seq<bv16>)
    requires row != [] && 0 <= Cell320(x, y, i, |row| - 1) < |t|
    ensures Paint(t, Row320(x, y, i, row)) ==
      Paint(t, Row320(x, y, i, row[..|row| - 1]))[Cell320(x, y, i, |row| - 1) := row[|row| - 1]]
  {
    PaintSnoc(t, Row320(x, y, i, row[..|row| - 1]), Store(Cell320(x, y, i, |row| - 1), row[|row| - 1]));
  }

  /** At width 320, a row's stores touch only its run of cells from (x, y). */
  lemma {:induction false} Row320Outside(t: seq<bv16>, x: int, y: int, i: int, row: seq<bv16>, k: int)
    requires 0 <= k < |t| && !(Cell320(x, y, i, 0) <= k < Cell320(x, y, i, |row|))
    ensures Paint(t, Row320(x, y, i, row))[k] == t[k]
    decreases |row|
  {
    if row != [] {
      Row320Outside(t, x, y, i, row[..|row| - 1], k);
    }
  }

  /** At width 640, a row's pixel b ends up on all four cells of its block. */
  lemma {:induction false} Row640Cell(t: seq<bv16>, x: int, y: int, i: int, row: seq<bv16>, b: int, da: int, db: int)
    requires |row| <= 6 && 0 <= b < 6 && 0 <= da < 2 && 0 <= db < 2
    requires 0 <= Cell640(x, y, i, 0) && Cell640(x, y, i, 6) + 640 <= |t|
    ensures var k := Cell640(x, y, i, b) + 640 * da + db;
      Paint(t, Row640(x, y, i, row))[k] == if b < |row| then row[b] else t[k]
    decreases |row|
  {
    if row != [] {
      var n := |row| - 1;
      var p := Cell640(x, y, i, n);
      var k := Cell640(x, y, i, b) + 640 * da + db;
      Row640Snoc(t, x, y, i, row);
      BlockAt(Paint(t, Row640(x, y, i, row[..n])), p, row[n], k);
      if b != n {
        Row640Cell(t, x, y, i, row[..n], b, da, db);
      }
    }
  }

  /** The last pixel of a row at width 640: its four stores on top of the row's earlier pixels. */
  lemma {:induction false} Row640Snoc(t: seq<bv16>, x: int, y: int, i: int, row: seq<bv16>)
    requires row != [] && 0 <= Cell640(x, y, i, |row| - 1) && Cell640(x, y, i, |row| - 1) + 641 < |t|
    ensures var p, v := Cell640(x, y, i, |row| - 1), row[|row| - 1];
      Paint(t, Row640(x, y, i, row)) == Paint(t, Row640(x, y, i, row[..|row| - 1]))[p := v][p + 1 := v][p + 640 := v][p + 641 := v]
  {
    PaintBlock(t, Row640(x, y, i, row[..|row| - 1]), Cell640(x, y, i, |row| - 1), row[|row| - 1]);
  }

  /** At width 640, a row's stores touch only its two runs of cells from (x, y) and (x, y + 1). */
  lemma {:induction false} Row640Outside(t: seq<bv16>, x: int, y: int, i: int, row: seq<bv16>, k: int)
    requires 0 <= k < |t| && |row| <= 6
    requires 0 <= Cell640(x, y, i, 0) && Cell640(x, y, i, 6) + 640 <= |t|
    requires !(Cell640(x, y, i, 0) <= k < Cell640(x, y, i, |row|))
    requires !(Cell640(x, y, i, 0) + 640 <= k < Cell640(x, y, i, |row|) + 640)
    ensures Paint(t, Row640(x, y, i, row))[k] == t[k]
    decreases |row|
  {
    if row != [] {
      var n := |row| - 1;
      var p := Cell640(x, y, i, n);
      Row640Snoc(t, x, y, i, row);
      BlockAt(Paint(t, Row640(x, y, i, row[..n])), p, row[n], k);
      Row640Outside(t, x, y, i, row[..n], k);
    }
  }

  /** The glyph rows drawn so far: at most 7, each 6 pixels wide. */
  predicate GlyphRows(rows: seq<seq<bv16>>)
  {
    |rows| <= 7 && forall r :: 0 <= r < |rows| ==> |rows[r]| == 6
  }

  /** At width 320, pixel (a, b) of the rows drawn ends up on cell (x + b, y + a). */
  lemma {:induction false} Blit320Cell(s: seq<bv16>, x: int, y: int, rows: seq<seq<bv16>>, a: int, b: int)
    requires GlyphFits(320, |s|, x, y) && GlyphRows(rows) && 0 <= a < 7 && 0 <= b < 6
    ensures var k := (y + a) * 320 + x + b;
      0 <= k < |s| && Paint(s, Blit320(x, y, rows))[k] == if a < |rows| then rows[a][b] else s[k]
    decreases |rows|
  {
    if rows != [] {
      var n := |rows| - 1;
      var k := (y + a) * 320 + x + b;
      var b0, r := Blit320(x, y, rows[..n]), Row320(x, y, n, rows[n]);
      var t := Paint(s, b0);
      assert Paint(s, Blit320(x, y, rows)) == Paint(t, r) by {
        assert Blit320(x, y, rows) == b0 + r;
        PaintAppend(s, b0, r);
      }
      if a == n {
        Row320Cell(t, x, y, n, rows[n], b);
      } else {
        assert t[k] == if a < n then rows[a][b] else s[k] by {
          assert GlyphRows(rows[..n]);
          Blit320Cell(s, x, y, rows[..n], a, b);
        }
        assert !((y + n) * 320 + x <= k < (y + n) * 320 + x + |rows[n]|);
        Row320Outside(t, x, y, n, rows[n], k);
      }
    }
  }

  /** At width 320, cells outside the glyph box are never stored to. */
  lemma {:induction false} Blit320Outside(s: seq<bv16>, x: int, y: int, rows: seq<seq<bv16>>, k: int)
    requires GlyphFits(320, |s|, x, y) && GlyphRows(rows) && 0 <= k < |s| && !InBox(k, 320, x, y, 6, 7)
    ensures Paint(s, Blit320(x, y, rows))[k] == s[k]
    decreases |rows|
  {
    if rows != [] {
      var n := |rows| - 1;
      var b0, r := Blit320(x, y, rows[..n]), Row320(x, y, n, rows[n]);
      var t := Paint(s, b0);
      assert Paint(s, Blit320(x, y, rows)) == Paint(t, r) by {
        assert Blit320(x, y, rows) == b0 + r;
        PaintAppend(s, b0, r);
      }
      assert t[k] == s[k] by {
        assert GlyphRows(rows[..n]);
        Blit320Outside(s, x, y, rows[..n], k);
      }
      assert !((y + n) * 320 + x <= k < (y + n) * 320 + x + |rows[n]|) by {
        var c := k - (y + n) * 320 - x;
        if 0 <= c < 6 {
          DivMod(y + n, x + c, 320);
        }
      }
      Row320Outside(t, x, y, n, rows[n], k);
    }
  }

  /** At width 640, pixel (a, b) of the rows drawn ends up on all four cells of its block. */
  lemma {:induction false} Blit640Cell(s: seq<bv16>, x: int, y: int, rows: seq<seq<bv16>>, a: int, b: int, da: int, db: int)
    requires GlyphFits(640, |s|, x, y) && GlyphRows(rows) && 0 <= a < 7 && 0 <= b < 6 && 0 <= da < 2 && 0 <= db < 2
    ensures var k := Cell640(x, y, a, b) + 640 * da + db;
      0 <= k < |s| && Paint(s, Blit640(x, y, rows))[k] == if a < |rows| then rows[a][b] else s[k]
    decreases |rows|
  {
    var k := Cell640(x, y, a, b) + 640 * da + db;
    assert 0 <= k < |s| by {
      assert Cell640(x, y, a, b) <= Cell640(x, y, 6, 5);
    }
    if rows != [] {
      var n := |rows| - 1;
      var b0, r := Blit640(x, y, rows[..n]), Row640(x, y, n, rows[n]);
      var t := Paint(s, b0);
      assert Paint(s, Blit640(x, y, rows)) == Paint(t, r) by {
        assert Blit640(x, y, rows) == b0 + r;
        PaintAppend(s, b0, r);
      }
      if a == n {
        Row640Cell(t, x, y, n, rows[n], b, da, db);
      } else {
        assert t[k] == if a < n then rows[a][b] else s[k] by {
          assert GlyphRows(rows[..n]);
          Blit640Cell(s, x, y, rows[..n], a, b, da, db);
        }
        assert !((2 * y + 2 * n) * 640 + 2 * x <= k < (2 * y + 2 * n) * 640 + 2 * x + 2 * |rows[n]|);
        assert !((2 * y + 2 * n + 1) * 640 + 2 * x <= k < (2 * y + 2 * n + 1) * 640 + 2 * x + 2 * |rows[n]|);
        Row640Outside(t, x, y, n, rows[n], k);
      }
    }
  }

  /** At width 640, cells outside the doubled glyph box are never stored to. */
  lemma {:induction false} Blit640Outside(s: seq<bv16>, x: int, y: int, rows: seq<seq<bv16>>, k: int)
    requires GlyphFits(640, |s|, x, y) && GlyphRows(rows) && 0 <= k < |s| && !InBox(k, 640, 2 * x, 2 * y, 12, 14)
    ensures Paint(s, Blit640(x, y, rows))[k] == s[k]
    decreases |rows|
  {
    if rows != [] {
      var n := |rows| - 1;
      var b0, r := Blit640(x, y, rows[..n]), Row640(x, y, n, rows[n]);
      var t := Paint(s, b0);
      assert Paint(s, Blit640(x, y, rows)) == Paint(t, r) by {
        assert Blit640(x, y, rows) == b0 + r;
        PaintAppend(s, b0, r);
      }
      assert t[k] == s[k] by {
        assert GlyphRows(rows[..n]);
        Blit640Outside(s, x, y, rows[..n], k);
      }
      assert !((2 * y + 2 * n) * 640 + 2 * x <= k < (2 * y + 2 * n) * 640 + 2 * x + 2 * |rows[n]|) by {
        var c := k - (2 * y + 2 * n) * 640 - 2 * x;
        if 0 <= c < 12 {
          DivMod(2 * y + 2 * n, 2 * x + c, 640);
        }
      }
      assert !((2 * y + 2 * n + 1) * 640 + 2 * x <= k < (2 * y + 2 * n + 1) * 640 + 2 * x + 2 * |rows[n]|) by {
        var c := k - (2 * y + 2 * n + 1) * 640 - 2 * x;
        if 0 <= c < 12 {
          DivMod(2 * y + 2 * n + 1, 2 * x + c, 640);
        }
      }
      Row640Outside(t, x, y, n, rows[n], k);
    }
  }

  /** At width 320, glyph pixel (i, j) is drawn on cell (x + j, y + i). */
  lemma {:induction false} GlyphImageCell320(s: seq<bv16>, x: int, y: int, bm: Bitmap, i: int, j: int)
    requires GlyphFits(320, |s|, x, y) && 0 <= i < 7 && 0 <= j < 6
    ensures var k := (y + i) * 320 + x + j;
      0 <= k < |s| && GlyphImage(s, 320, x, y, bm)[k] == bm[i][j]
  {
    Blit320Cell(s, x, y, bm, i, j);
  }

  /**
   * At width 640, glyph pixel (i, j) is drawn on all four cells
   * (2x + 2j + dj, 2y + 2i + di) with di, dj in {0, 1}: a nearest-neighbour 2x blit.
   */
  lemma {:induction false} GlyphImageCell640(s: seq<bv16>, x: int, y: int, bm: Bitmap, i: int, j: int, di: int, dj: int)
    requires GlyphFits(640, |s|, x, y) && 0 <= i < 7 && 0 <= j < 6 && 0 <= di < 2 && 0 <= dj < 2
    ensures var k := (2 * y + 2 * i + di) * 640 + 2 * x + 2 * j + dj;
      0 <= k < |s| && GlyphImage(s, 640, x, y, bm)[k] == bm[i][j]
  {
    Blit640Cell(s, x, y, bm, i, j, di, dj);
    assert (2 * y + 2 * i + di) * 640 + 2 * x + 2 * j + dj == Cell640(x, y, i, j) + 640 * di + dj;
  }

  /** Cells outside the glyph's 6 x 7 box (12 x 14 at width 640) keep their colour. */
  lemma {:induction false} GlyphImageOutside(s: seq<bv16>, width: int, x: int, y: int, bm: Bitmap, k: int)
    requires GlyphFits(width, |s|, x, y) && 0 < width && 0 <= k < |s|
    requires var sc := Scale(width); !InBox(k, width, sc * x, sc * y, 6 * sc, 7 * sc)
    ensures GlyphImage(s, width, x, y, bm)[k] == s[k]
  {
    if width == 320 {
      Blit320Outside(s, x, y, bm, k);
    } else if width == 640 {
      Blit640Outside(s, x, y, bm, k);
    }
  }

  /** At width 320, the blit's store for pixel j of glyph row i is the next step of the inner loop. */
  lemma {:induction false} Row320Step(t: seq<bv16>, x: int, y: int, i: int, row: seq<bv16>, j: int)
    requires GlyphFits(320, |t|, x, y) && 0 <= i < 7 && 0 <= j < |row| == 6
    ensures var p := (y + i) * 320 + x + j;
      0 <= p < |t| &&
      Paint(t, Row320(x, y, i, row[..j + 1])) == Paint(t, Row320(x, y, i, row[..j]))[p := row[j]]
  {
    assert row[..j + 1][..j] == row[..j];
    Row320Snoc(t, x, y, i, row[..j + 1]);
  }

  /** At width 640, the blit's four stores for pixel j of glyph row i are the next step of the inner loop. */
  lemma {:induction false} Row640Step(t: seq<bv16>, x: int, y: int, i: int, row: seq<bv16>, j: int)
    requires GlyphFits(640, |t|, x, y) && 0 <= i < 7 && 0 <= j < |row| == 6
    ensures var p := (2 * y + 2 * i) * 640 + 2 * x + 2 * j;
      var v := row[j];
      0 <= p && p + 641 < |t| &&
      Paint(t, Row640(x, y, i, row[..j + 1])) ==
        Paint(t, Row640(x, y, i, row[..j]))[p := v][p + 1 := v][p + 640 := v][p + 641 := v]
  {
    assert row[..j + 1][..j] == row[..j];
    Row640Snoc(t, x, y, i, row[..j + 1]);
  }

  /** All 7 rows drawn: the stores made so far are the glyph's image, and a screen of another width gets none. */
  lemma {:induction false} GlyphImageDone(s: seq<bv16>, width: int, x: int, y: int, bm: Bitmap, i: int)
    requires i == 7
    ensures width == 320 ==> GlyphImage(s, width, x, y, bm) == Paint(s, Blit320(x, y, bm[..i]))
    ensures width == 640 ==> GlyphImage(s, width, x, y, bm) == Paint(s, Blit640(x, y, bm[..i]))
    ensures width != 320 && width != 640 ==> GlyphImage(s, width, x, y, bm) == s
  {
    assert bm[..i] == bm;
  }

  /** The empty row prefix: the inner loop starts from the framebuffer as the rows above left it. */
  lemma {:induction false} RowStart(t: seq<bv16>, x: int, y: int, i: int, row: seq<bv16>)
    ensures Paint(t, Row320(x, y, i, row[..0])) == t && Paint(t, Row640(x, y, i, row[..0])) == t
  {
    assert row[..0] == [];
  }

  /** A finished row: the stores for rows 0 .. i are those for rows 0 .. i-1 and then all of row i. */
  lemma {:induction false} BlitRowDone(s: seq<bv16>, x: int, y: int, bm: Bitmap, i: int)
    requires 0 <= i < 7
    ensures Paint(s, Blit320(x, y, bm[..i + 1])) == Paint(Paint(s, Blit320(x, y, bm[..i])), Row320(x, y, i, bm[i]))
    ensures Paint(s, Blit640(x, y, bm[..i + 1])) == Paint(Paint(s, Blit640(x, y, bm[..i])), Row640(x, y, i, bm[i]))
  {
    assert bm[..i + 1][..i] == bm[..i];
    PaintAppend(s, Blit320(x, y, bm[..i]), Row320(x, y, i, bm[i]));
    PaintAppend(s, Blit640(x, y, bm[..i]), Row640(x, y, i, bm[i]));
  }

  // ---------------------------------------------------------------------------
  // The text walk of crash_screen_printf and crash_screen_printf_with_bg
  // ---------------------------------------------------------------------------

  /** One table entry at cursor x: its glyph, or nothing for the sentinel. */
  function CharImage(s: seq<bv16>, width: int, x: int, y: int, g: GlyphCode): (r: seq<bv16>)
    ensures |r| == |s|
  {
    if g == NoGlyph then s else GlyphImage(s, width, x, y, GlyphBitmap(g))
  }

  /** How one table entry is drawn at cursor x over a framebuffer. */
  type Drawer = (seq<bv16>, int, GlyphCode) -> seq<bv16>

  /** Where entry k of a text starting at column x is drawn. */
  function Cursor(x: int, k: int): int
  {
    x + 6 * k
  }

  /**
   * The walk of the printf loops: entry k is drawn at x + 6 * k over what the
   * entries before it drew, so the cursor moves on by 6 for every entry, drawn or not.
   */
  function Walk(draw: Drawer, s: seq<bv16>, x: int, codes: seq<GlyphCode>): seq<bv16>
    decreases |codes|
  {
    if codes == [] then s
    else draw(Walk(draw, s, x, codes[..|codes| - 1]), Cursor(x, |codes| - 1), codes[|codes| - 1])
  }

  /** Splitting the entries anywhere: the second part starts 6 cells per entry of the first part further right. */
  lemma {:induction false} WalkAppend(draw: Drawer, s: seq<bv16>, x: int, c1: seq<GlyphCode>, c2: seq<GlyphCode>)
    ensures Walk(draw, s, x, c1 + c2) == Walk(draw, Walk(draw, s, x, c1), x + 6 * |c1|, c2)
    decreases |c2|
  {
    if c2 == [] {
      assert c1 + c2 == c1;
    } else {
      var n := |c2| - 1;
      AppendLast(c1, c2);
      assert Cursor(x, |c1| + n) == Cursor(x + 6 * |c1|, n);
      WalkAppend(draw, s, x, c1, c2[..n]);
    }
  }

  /** The crash screen's way of drawing one entry: CharImage on row y. */
  function GlyphDrawer(width: int, y: int): Drawer
  {
    (s: seq<bv16>, x: int, g: GlyphCode) => CharImage(s, width, x, y, g)
  }

  /** Table entries drawn on the crash screen from cursor x on row y. */
  function TextImage(s: seq<bv16>, width: int, x: int, y: int, codes: seq<GlyphCode>): seq<bv16>
  {
    Walk(GlyphDrawer(width, y), s, x, codes)
  }

  /** What the printf variants draw for the formatted bytes t: each byte's entry, in order. */
  function Print(s: seq<bv16>, width: int, x: int, y: int, t: seq<bv8>): seq<bv16>
  {
    TextImage(s, width, x, y, GlyphCodes(t))
  }

  /** Every glyph the text draws fits on the screen (entries without a glyph need not). */
  predicate TextFits(width: int, len: int, x: int, y: int, codes: seq<GlyphCode>)
  {
    forall k :: 0 <= k < |codes| && codes[k] != NoGlyph ==> GlyphFits(width, len, x + 6 * k, y)
  }

  /** The last entry of a non-empty text is drawn over what the entries before it drew. */
  lemma {:induction false} TextImageLast(s: seq<bv16>, width: int, x: int, y: int, codes: seq<GlyphCode>)
    requires codes != []
    ensures var n := |codes| - 1;
      TextImage(s, width, x, y, codes) == CharImage(TextImage(s, width, x, y, codes[..n]), width, Cursor(x, n), y, codes[n])
  {
  }

  /** The loop form on prefixes: the first n + 1 entries are the first n and then entry n at x + 6 * n. */
  lemma {:induction false} TextImagePrefix(s: seq<bv16>, width: int, x: int, y: int, codes: seq<GlyphCode>, n: int)
    requires 0 <= n < |codes|
    ensures TextImage(s, width, x, y, codes[..n + 1]) ==
            CharImage(TextImage(s, width, x, y, codes[..n]), width, Cursor(x, n), y, codes[n])
  {
    TakeLast(codes, n);
    TextImageLast(s, width, x, y, codes[..n + 1]);
  }

  /**
   * Splitting the text anywhere: the second part starts 6 cells per entry of the
   * first part further right, whether or not those entries had a glyph.
   */
  lemma {:induction false} TextImageAppend(s: seq<bv16>, width: int, x: int, y: int, c1: seq<GlyphCode>, c2: seq<GlyphCode>)
    ensures TextImage(s, width, x, y, c1 + c2) ==
            TextImage(TextImage(s, width, x, y, c1), width, x + 6 * |c1|, y, c2)
  {
    WalkAppend(GlyphDrawer(width, y), s, x, c1, c2);
  }

  /** Drawing text never changes the framebuffer's size. */
  lemma {:induction false} TextImageLength(s: seq<bv16>, width: int, x: int, y: int, codes: seq<GlyphCode>)
    ensures |TextImage(s, width, x, y, codes)| == |s|
    decreases |codes|
  {
    if codes != [] {
      TextImageLength(s, width, x, y, codes[..|codes| - 1]);
    }
  }

  /** Text made only of entries without a glyph leaves the framebuffer as it was. */
  lemma {:induction false} TextImageUnmapped(s: seq<bv16>, width: int, x: int, y: int, codes: seq<GlyphCode>)
    requires forall k :: 0 <= k < |codes| ==> codes[k] == NoGlyph
    ensures TextImage(s, width, x, y, codes) == s
    decreases |codes|
  {
    if codes != [] {
      var n := |codes| - 1;
      assert forall k :: 0 <= k < n ==> codes[..n][k] == NoGlyph by {
        forall k | 0 <= k < n ensures codes[..n][k] == NoGlyph {
          assert codes[..n][k] == codes[k];
        }
      }
      TextImageUnmapped(s, width, x, y, codes[..n]);
    }
  }

  /** The entries before the last one of a text that fits fit too. */
  lemma {:induction false} TextFitsPrefix(width: int, len: int, x: int, y: int, codes: seq<GlyphCode>)
    requires codes != [] && TextFits(width, len, x, y, codes)
    ensures TextFits(width, len, x, y, codes[..|codes| - 1])
  {
    var n := |codes| - 1;
    forall k | 0 <= k < n && codes[..n][k] != NoGlyph
      ensures GlyphFits(width, len, x + 6 * k, y)
    {
      assert codes[..n][k] == codes[k];
    }
  }

  /** A line of text that fits only touches the (scaled) 7 rows starting at row y. */
  lemma {:induction false} TextImageRows(s: seq<bv16>, width: int, x: int, y: int, codes: seq<GlyphCode>, k: int)
    requires 0 < width && 0 <= k < |s| && TextFits(width, |s|, x, y, codes)
    requires !(Scale(width) * y <= k / width < Scale(width) * y + 7 * Scale(width))
    ensures |TextImage(s, width, x, y, codes)| == |s| && TextImage(s, width, x, y, codes)[k] == s[k]
    decreases |codes|
  {
    if codes != [] {
      var n := |codes| - 1;
      var before := TextImage(s, width, x, y, codes[..n]);
      assert |before| == |s| && before[k] == s[k] by {
        TextFitsPrefix(width, |s|, x, y, codes);
        TextImageRows(s, width, x, y, codes[..n], k);
      }
      TextImageLast(s, width, x, y, codes);
      if codes[n] != NoGlyph {
        assert GlyphFits(width, |s|, Cursor(x, n), y);
        GlyphImageOutside(before, width, Cursor(x, n), y, GlyphBitmap(codes[n]), k);
      }
    }
  }

  /** On a screen of any other width than 320 or 640 no text is drawn. */
  lemma {:induction false} TextImageOtherWidth(s: seq<bv16>, width: int, x: int, y: int, codes: seq<GlyphCode>)
    requires width != 320 && width != 640
    ensures TextImage(s, width, x, y, codes) == s
    decreases |codes|
  {
    if codes != [] {
      var n := |codes| - 1;
      TextImageOtherWidth(s, width, x, y, codes[..n]);
      if codes[n] != NoGlyph {
        assert GlyphImage(s, width, Cursor(x, n), y, GlyphBitmap(codes[n])) == s;
      }
    }
  }

  /** Only the low 7 bits of each byte matter. */
  lemma {:induction false} PrintLow7(s: seq<bv16>, width: int, x: int, y: int, t: seq<bv8>)
    ensures Print(s, width, x, y, t) == Print(s, width, x, y, Low7(t))
  {
    CodesLow7(t);
  }

  /** Upper- and lower-case text look the same on the crash screen. */
  lemma {:induction false} PrintCaseInsensitive(s: seq<bv16>, width: int, x: int, y: int, t: seq<bv8>)
    ensures Print(s, width, x, y, t) == Print(s, width, x, y, ToUpper(t))
  {
    CodesToUpper(t);
  }

  /**
   * A byte without a glyph draws nothing, yet the text after it still starts
   * 6 cells further right.
   */
  lemma {:induction false} PrintSkipsUnmapped(s: seq<bv16>, width: int, x: int, y: int, t1: seq<bv8>, b: bv8, t2: seq<bv8>)
    requires GlyphOf(b) == NoGlyph
    ensures Print(s, width, x, y, t1 + [b] + t2) ==
            Print(Print(s, width, x, y, t1), width, x + 6 * (|t1| + 1), y, t2)
  {
    CodesAppend(t1 + [b], t2);
    CodesAppend(t1, [b]);
    var c1 := GlyphCodes(t1);
    assert GlyphCodes([b]) == [NoGlyph];
    TextImageAppend(s, width, x, y, c1 + [NoGlyph], GlyphCodes(t2));
    TextImageAppend(s, width, x, y, c1, [NoGlyph]);
    TextImageUnmapped(TextImage(s, width, x, y, c1), width, x + 6 * |c1|, y, [NoGlyph]);
  }
}
