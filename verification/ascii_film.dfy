/**
 * The OpenCL colour-ASCII renderer: cell-grid geometry, the glyph atlas layout,
 * the per-pixel kernel `render_ascii_color`, and a whole dispatch over the
 * rounded-up global work size.
 */
module AsciiFilm {
  import opened Common

  /** The character ramp, darkest first. */
  const ASCII_CHARS: seq<char> := "@#%"
  const NUM_CHARS: int := |ASCII_CHARS|

  /** Work-group size of the dispatch. */
  const LOCAL_W: int := 32
  const LOCAL_H: int := 8

  datatype Geometry = Geometry(cols: nat, rows: nat, outWidth: nat, outHeight: nat)

  /**
   * Cells of the output grid for a `width` x `height` frame: only whole cells count,
   * and the remainder pixels on the right and at the bottom are dropped.
   */
  function CellGeometry(width: nat, height: nat, charWidth: nat, charHeight: nat): (g: Geometry)
    requires charWidth > 0 && charHeight > 0
    ensures g.cols * charWidth <= width < (g.cols + 1) * charWidth
    ensures g.rows * charHeight <= height < (g.rows + 1) * charHeight
    ensures g.outWidth == g.cols * charWidth && g.outHeight == g.rows * charHeight
    ensures g.outWidth <= width && width - g.outWidth < charWidth
    ensures g.outHeight <= height && height - g.outHeight < charHeight
  {
    var cols := width / charWidth;
    var rows := height / charHeight;
    Geometry(cols, rows, cols * charWidth, rows * charHeight)
  }

  /** One dimension of the global work size: `n` rounded up to a multiple of `local`. */
  function GlobalSize(n: nat, local: nat): (r: nat)
    requires local > 0
    ensures r % local == 0
    ensures n <= r < n + local
  {
    var k := (n + local - 1) / local;
    MulDivMod(k, 0, local);
    k * local
  }

  /** The smallest multiple of `local` that is at least `n` is the global size. */
  lemma {:induction false} GlobalSizeIsLeast(n: nat, local: nat, m: nat)
    requires local > 0 && m % local == 0 && n <= m
    ensures GlobalSize(n, local) <= m
  {
    var k := (n + local - 1) / local;
    var j := m / local;
    var g := GlobalSize(n, local);
    assert g == k * local;
    assert m == j * local;
    assert (j + 1) * local == m + local;
    DivLessThan(g, local, j + 1);
    MulDivMod(k, 0, local);
    MulMonotone(k, j, local);
  }

  /** Scalar arguments of one kernel launch. */
  datatype Params = Params(cols: int, rows: int, charWidth: int, charHeight: int, numChars: int)
  {
    predicate Valid() {
      cols >= 0 && rows >= 0 && charWidth > 0 && charHeight > 0 && numChars >= 1
    }
    function OutWidth(): int { cols * charWidth }
    function OutHeight(): int { rows * charHeight }
    function DstLength(): int { OutHeight() * OutWidth() * 3 }
  }

  /** The value written to one destination pixel, blue, green, red. */
  datatype PixelWrite = PixelWrite(dstIdx: int, b: Byte, g: Byte, r: Byte)

  /** Truncated mean of the three channels. */
  function Brightness(b: Byte, g: Byte, r: Byte): (v: int)
    ensures 0 <= v <= 255
    ensures 3 * v <= b + g + r < 3 * v + 3
  {
    (r + g + b) / 3
  }

  /** Linear quantisation of a brightness to a ramp position. */
  function CharIndex(brightness: int, numChars: int): (k: int)
    requires 0 <= brightness <= 255 && numChars >= 1
    ensures 0 <= k <= numChars - 1
    ensures brightness == 0 ==> k == 0
    ensures brightness == 255 ==> k == numChars - 1
  {
    MulMonotone(brightness, 255, numChars - 1);
    (brightness * (numChars - 1)) / 255
  }

  /** Brighter cells never select an earlier ramp character. */
  lemma {:induction false} CharIndexMonotone(b1: int, b2: int, numChars: int)
    requires 0 <= b1 <= b2 <= 255 && numChars >= 1
    ensures CharIndex(b1, numChars) <= CharIndex(b2, numChars)
  {
    MulMonotone(b1, b2, numChars - 1);
  }

  /** With the three-character ramp, the last glyph is used only at full brightness. */
  lemma ThreeCharRampTop(brightness: int)
    requires 0 <= brightness <= 255
    ensures CharIndex(brightness, NUM_CHARS) == NUM_CHARS - 1 <==> brightness == 255
  {
  }

  /**
   * Offset in the flattened atlas of row `outY % charHeight`, column `outX % charWidth`
   * of glyph `charIdx`.
   */
  function GlyphIndex(charIdx: int, outX: int, outY: int, charWidth: int, charHeight: int): int
    requires charIdx >= 0 && outX >= 0 && outY >= 0 && charWidth > 0 && charHeight > 0
  {
    (charIdx * charHeight + outY % charHeight) * charWidth + outX % charWidth
  }

  /** The glyph offset lies inside an atlas of `numChars` glyphs and addresses the intended glyph, row and column. */
  lemma GlyphIndexInAtlas(charIdx: int, outX: int, outY: int, charWidth: int, charHeight: int, numChars: int)
    requires 0 <= charIdx < numChars && outX >= 0 && outY >= 0 && charWidth > 0 && charHeight > 0
    ensures 0 <= GlyphIndex(charIdx, outX, outY, charWidth, charHeight) < numChars * charHeight * charWidth
    ensures GlyphIndex(charIdx, outX, outY, charWidth, charHeight) / charWidth == charIdx * charHeight + outY % charHeight
    ensures GlyphIndex(charIdx, outX, outY, charWidth, charHeight) % charWidth == outX % charWidth
  {
    var row := charIdx * charHeight + outY % charHeight;
    RowMajorBound(charIdx, outY % charHeight, numChars, charHeight);
    RowMajorBound(row, outX % charWidth, numChars * charHeight, charWidth);
    MulDivMod(row, outX % charWidth, charWidth);
  }

  /** A glyph mask multiplied onto one colour channel. */
  function Shade(mask: Byte, channel: Byte): (v: Byte)
    ensures v <= mask && v <= channel
    ensures mask == 0 ==> v == 0
    ensures mask == 255 ==> v == channel
  {
    MulMonotone(mask, 255, channel);
    MulMonotone(channel, 255, mask);
    (mask * channel) / 255
  }

  /** Index of the BGR triple of the cell containing output pixel (`outX`, `outY`). */
  function CellOffset(p: Params, outX: int, outY: int): int
    requires p.Valid() && outX >= 0 && outY >= 0
  {
    ((outY / p.charHeight) * p.cols + outX / p.charWidth) * 3
  }

  /** For an in-range pixel the cell guard never fires and the cell lies inside the source. */
  lemma CellOffsetInSource(p: Params, outX: int, outY: int)
    requires p.Valid() && 0 <= outX < p.OutWidth() && 0 <= outY < p.OutHeight()
    ensures outX / p.charWidth < p.cols && outY / p.charHeight < p.rows
    ensures 0 <= CellOffset(p, outX, outY) && CellOffset(p, outX, outY) + 3 <= p.rows * p.cols * 3
  {
    DivLessThan(outX, p.charWidth, p.cols);
    DivLessThan(outY, p.charHeight, p.rows);
    RowMajorBound(outY / p.charHeight, outX / p.charWidth, p.rows, p.cols);
  }

  /** Row-major index of the first byte of output pixel (`outX`, `outY`). */
  function DstIndex(p: Params, outX: int, outY: int): int
    requires p.Valid()
  {
    (outY * p.OutWidth() + outX) * 3
  }

  lemma DstIndexInFrame(p: Params, outX: int, outY: int)
    requires p.Valid() && 0 <= outX < p.OutWidth() && 0 <= outY < p.OutHeight()
    ensures 0 <= DstIndex(p, outX, outY) && DstIndex(p, outX, outY) + 3 <= p.DstLength()
  {
    RowMajorBound(outY, outX, p.OutHeight(), p.OutWidth());
  }

  /** Ramp position selected by the cell at source offset `o`. */
  function CellCharIndex(p: Params, src: seq<Byte>, o: int): int
    requires p.Valid() && 0 <= o && o + 3 <= |src|
  {
    CharIndex(Brightness(src[o], src[o + 1], src[o + 2]), p.numChars)
  }

  /**
   * The kernel body for work item (`outX`, `outY`): `None` when the item writes nothing.
   * `src` holds `rows * cols` BGR cells and `glyphs` the flattened atlas.
   */
  function RenderItem(p: Params, src: seq<Byte>, glyphs: seq<Byte>, outX: int, outY: int): (w: Option<PixelWrite>)
    requires p.Valid() && outX >= 0 && outY >= 0
    requires |src| == p.rows * p.cols * 3
    requires |glyphs| == p.numChars * p.charHeight * p.charWidth
    ensures w.None? <==> outX >= p.OutWidth() || outY >= p.OutHeight()
    ensures w.Some? ==> w.value.dstIdx == (outY * p.OutWidth() + outX) * 3
    ensures w.Some? ==> 0 <= w.value.dstIdx && w.value.dstIdx + 3 <= p.DstLength()
  {
    if outX >= p.OutWidth() || outY >= p.OutHeight() then None
    else
      CellOffsetInSource(p, outX, outY);
      if outX / p.charWidth >= p.cols || outY / p.charHeight >= p.rows then assert false; None
      else
        var o := CellOffset(p, outX, outY);
        var charIdx := CellCharIndex(p, src, o);
        GlyphIndexInAtlas(charIdx, outX, outY, p.charWidth, p.charHeight, p.numChars);
        var mask := glyphs[GlyphIndex(charIdx, outX, outY, p.charWidth, p.charHeight)];
        DstIndexInFrame(p, outX, outY);
        Some(PixelWrite(DstIndex(p, outX, outY), Shade(mask, src[o]), Shade(mask, src[o + 1]), Shade(mask, src[o + 2])))
  }

  /**
   * A work item reads only the cell that contains it: two sources that agree on that
   * cell's three bytes produce the same write.
   */
  lemma RenderItemReadsOwnCell(p: Params, src1: seq<Byte>, src2: seq<Byte>, glyphs: seq<Byte>, outX: int, outY: int)
    requires p.Valid() && outX >= 0 && outY >= 0
    requires |src1| == |src2| == p.rows * p.cols * 3
    requires |glyphs| == p.numChars * p.charHeight * p.charWidth
    requires outX < p.OutWidth() && outY < p.OutHeight()
    requires var o := CellOffset(p, outX, outY);
      0 <= o && o + 3 <= |src1| && src1[o] == src2[o] && src1[o + 1] == src2[o + 1] && src1[o + 2] == src2[o + 2]
    ensures RenderItem(p, src1, glyphs, outX, outY) == RenderItem(p, src2, glyphs, outX, outY)
  {
  }

  /** An in-range pixel is the glyph mask of its cell's ramp character, shaded by that cell's colour. */
  lemma RenderItemComposites(p: Params, src: seq<Byte>, glyphs: seq<Byte>, outX: int, outY: int)
    requires p.Valid() && 0 <= outX < p.OutWidth() && 0 <= outY < p.OutHeight()
    requires |src| == p.rows * p.cols * 3
    requires |glyphs| == p.numChars * p.charHeight * p.charWidth
    ensures var o := CellOffset(p, outX, outY);
            0 <= o && o + 3 <= |src| &&
            var k := CellCharIndex(p, src, o);
            0 <= GlyphIndex(k, outX, outY, p.charWidth, p.charHeight) < |glyphs| &&
            var mask := glyphs[GlyphIndex(k, outX, outY, p.charWidth, p.charHeight)];
            var w := RenderItem(p, src, glyphs, outX, outY).value;
            w.b == Shade(mask, src[o]) && w.g == Shade(mask, src[o + 1]) && w.r == Shade(mask, src[o + 2])
  {
    CellOffsetInSource(p, outX, outY);
    var o := CellOffset(p, outX, outY);
    GlyphIndexInAtlas(CellCharIndex(p, src, o), outX, outY, p.charWidth, p.charHeight, p.numChars);
  }

  function Channel(w: PixelWrite, c: int): Byte
    requires 0 <= c < 3
  {
    if c == 0 then w.b else if c == 1 then w.g else w.r
  }

  /** The pixel of destination byte `i` lies inside the output frame. */
  lemma PixelOfByteInFrame(p: Params, i: int)
    requires p.Valid() && 0 <= i < p.DstLength()
    ensures p.OutWidth() > 0
    ensures 0 <= (i / 3) % p.OutWidth() < p.OutWidth() && 0 <= (i / 3) / p.OutWidth() < p.OutHeight()
  {
    DivLessThan(i / 3, p.OutWidth(), p.OutHeight());
  }

  /** The byte the kernel writes at destination index `i`. */
  function ExpectedByte(p: Params, src: seq<Byte>, glyphs: seq<Byte>, i: int): Byte
    requires p.Valid() && 0 <= i < p.DstLength()
    requires |src| == p.rows * p.cols * 3
    requires |glyphs| == p.numChars * p.charHeight * p.charWidth
  {
    PixelOfByteInFrame(p, i);
    var pix := i / 3;
    var w := RenderItem(p, src, glyphs, pix % p.OutWidth(), pix / p.OutWidth());
    Channel(w.value, i % 3)
  }

  /** The three bytes written by work item (`x`, `y`) are the expected bytes at its destination. */
  lemma ExpectedAtItem(p: Params, src: seq<Byte>, glyphs: seq<Byte>, x: int, y: int)
    requires p.Valid() && 0 <= x < p.OutWidth() && 0 <= y < p.OutHeight()
    requires |src| == p.rows * p.cols * 3
    requires |glyphs| == p.numChars * p.charHeight * p.charWidth
    ensures var w := RenderItem(p, src, glyphs, x, y).value;
            0 <= w.dstIdx && w.dstIdx + 3 <= p.DstLength() &&
            ExpectedByte(p, src, glyphs, w.dstIdx) == w.b &&
            ExpectedByte(p, src, glyphs, w.dstIdx + 1) == w.g &&
            ExpectedByte(p, src, glyphs, w.dstIdx + 2) == w.r
  {
    MulDivMod(y, x, p.OutWidth());
  }

  /** The destination frame a complete dispatch produces. */
  function RenderedFrame(p: Params, src: seq<Byte>, glyphs: seq<Byte>): seq<Byte>
    requires p.Valid()
    requires |src| == p.rows * p.cols * 3
    requires |glyphs| == p.numChars * p.charHeight * p.charWidth
  {
    seq(p.DstLength(), i requires 0 <= i < p.DstLength() => ExpectedByte(p, src, glyphs, i))
  }

  /**
   * One launch over the rounded-up global range: every work item runs the kernel body
   * and stores its write, if any. Whatever `previous` held, the result is the rendered
   * frame: every destination byte is written, by the work item of its own pixel.
   */
  method Dispatch(p: Params, src: seq<Byte>, glyphs: seq<Byte>, previous: seq<Byte>) returns (dst: seq<Byte>)
    requires p.Valid()
    requires |src| == p.rows * p.cols * 3
    requires |glyphs| == p.numChars * p.charHeight * p.charWidth
    requires |previous| == p.DstLength()
    ensures dst == RenderedFrame(p, src, glyphs)
  {
    var w := p.OutWidth();
    var h := p.OutHeight();
    var globalW := GlobalSize(w, LOCAL_W);
    var globalH := GlobalSize(h, LOCAL_H);
    dst := previous;
    var gy := 0;
    while gy < globalH
      invariant 0 <= gy <= globalH
      invariant |dst| == p.DstLength()
      invariant forall i :: 0 <= i < |dst| ==>
        dst[i] == if i / 3 < gy * w then ExpectedByte(p, src, glyphs, i) else previous[i]
    {
      var gx := 0;
      while gx < globalW
        invariant 0 <= gx <= globalW
        invariant |dst| == p.DstLength()
        invariant forall i :: 0 <= i < |dst| ==>
          dst[i] == if i / 3 < gy * w + Min(gx, w) then ExpectedByte(p, src, glyphs, i) else previous[i]
      {
        var item := RenderItem(p, src, glyphs, gx, gy);
        if item.Some? {
          ExpectedAtItem(p, src, glyphs, gx, gy);
          var d := item.value.dstIdx;
          dst := dst[d := item.value.b][d + 1 := item.value.g][d + 2 := item.value.r];
        } else if gy >= h && gx < w {
          // Rows below the frame: every byte is already below the written boundary.
          MulMonotone(h, gy, w);
        }
        gx := gx + 1;
      }
      assert gy * w + w == (gy + 1) * w;
      gy := gy + 1;
    }
    MulMonotone(h, gy, w);
  }

  /** Row-major flattening of a stack of glyph masks, as the atlas upload lays them out. */
  function FlattenAtlas(glyphs: seq<seq<seq<Byte>>>): seq<Byte>
  {
    if |glyphs| == 0 then [] else FlattenRows(glyphs[0]) + FlattenAtlas(glyphs[1..])
  }

  function FlattenRows(rows: seq<seq<Byte>>): seq<Byte>
  {
    if |rows| == 0 then [] else rows[0] + FlattenRows(rows[1..])
  }

  predicate Rectangular(rows: seq<seq<Byte>>, height: int, width: int) {
    |rows| == height && forall y :: 0 <= y < height ==> |rows[y]| == width
  }

  lemma {:induction false} FlattenRowsLength(rows: seq<seq<Byte>>, width: int)
    requires width >= 0 && Rectangular(rows, |rows|, width)
    ensures |FlattenRows(rows)| == |rows| * width
    decreases |rows|
  {
    if |rows| > 0 {
      FlattenRowsLength(rows[1..], width);
      assert |rows| * width == width + (|rows| - 1) * width;
    }
  }

  /** A flattened mask holds row `y`, column `x` at `y * width + x`. */
  lemma {:induction false} FlattenRowsAt(rows: seq<seq<Byte>>, width: int, y: int, x: int)
    requires width >= 0 && Rectangular(rows, |rows|, width)
    requires 0 <= y < |rows| && 0 <= x < width
    ensures 0 <= y * width + x < |FlattenRows(rows)|
    ensures FlattenRows(rows)[y * width + x] == rows[y][x]
    decreases y
  {
    FlattenRowsLength(rows, width);
    RowMajorBound(y, x, |rows|, width);
    if y > 0 {
      FlattenRowsAt(rows[1..], width, y - 1, x);
      assert y * width + x == width + ((y - 1) * width + x);
    }
  }

  lemma {:induction false} FlattenAtlasLength(glyphs: seq<seq<seq<Byte>>>, charWidth: int, charHeight: int)
    requires charWidth >= 0 && charHeight >= 0
    requires forall k :: 0 <= k < |glyphs| ==> Rectangular(glyphs[k], charHeight, charWidth)
    ensures |FlattenAtlas(glyphs)| == |glyphs| * (charHeight * charWidth)
    decreases |glyphs|
  {
    if |glyphs| > 0 {
      FlattenRowsLength(glyphs[0], charWidth);
      FlattenAtlasLength(glyphs[1..], charWidth, charHeight);
      assert |glyphs| * (charHeight * charWidth) == charHeight * charWidth + (|glyphs| - 1) * (charHeight * charWidth);
    }
  }

  /** The glyph index is glyph `k`'s block start plus the offset inside the glyph. */
  lemma GlyphIndexSplit(k: int, x: int, y: int, charWidth: int, charHeight: int)
    requires k >= 0 && x >= 0 && y >= 0 && charWidth > 0 && charHeight > 0
    ensures GlyphIndex(k, x, y, charWidth, charHeight) ==
      k * (charHeight * charWidth) + ((y % charHeight) * charWidth + x % charWidth)
  {
    var r := y % charHeight;
    assert (k * charHeight + r) * charWidth == (k * charHeight) * charWidth + r * charWidth;
    assert (k * charHeight) * charWidth == k * (charHeight * charWidth);
  }

  /** Byte `off` of block `k` of an atlas whose blocks all have `size` bytes. */
  lemma {:induction false} FlattenAtlasBlock(glyphs: seq<seq<seq<Byte>>>, size: int, k: int, off: int)
    requires forall j :: 0 <= j < |glyphs| ==> |FlattenRows(glyphs[j])| == size
    requires 0 <= k < |glyphs| && 0 <= off < size
    ensures k * size + off < |FlattenAtlas(glyphs)|
    ensures FlattenAtlas(glyphs)[k * size + off] == FlattenRows(glyphs[k])[off]
    decreases k
  {
    var head := FlattenRows(glyphs[0]);
    assert FlattenAtlas(glyphs) == head + FlattenAtlas(glyphs[1..]);
    if k > 0 {
      FlattenAtlasBlock(glyphs[1..], size, k - 1, off);
      assert k * size + off == size + ((k - 1) * size + off);
      assert glyphs[1..][k - 1] == glyphs[k];
    }
  }

  /**
   * The flattened atlas has `N * charHeight * charWidth` bytes, and `GlyphIndex` reads
   * row `y % charHeight`, column `x % charWidth` of glyph `k`.
   */
  lemma FlattenAtlasAt(glyphs: seq<seq<seq<Byte>>>, charWidth: int, charHeight: int, k: int, x: int, y: int)
    requires charWidth > 0 && charHeight > 0
    requires forall j :: 0 <= j < |glyphs| ==> Rectangular(glyphs[j], charHeight, charWidth)
    requires 0 <= k < |glyphs| && 0 <= x && 0 <= y
    ensures |FlattenAtlas(glyphs)| == |glyphs| * (charHeight * charWidth)
    ensures 0 <= GlyphIndex(k, x, y, charWidth, charHeight) < |FlattenAtlas(glyphs)|
    ensures |glyphs[k]| == charHeight && |glyphs[k][y % charHeight]| == charWidth
    ensures FlattenAtlas(glyphs)[GlyphIndex(k, x, y, charWidth, charHeight)] == glyphs[k][y % charHeight][x % charWidth]
  {
    var size := charHeight * charWidth;
    FlattenAtlasLength(glyphs, charWidth, charHeight);
    forall j | 0 <= j < |glyphs|
      ensures |FlattenRows(glyphs[j])| == size
    {
      FlattenRowsLength(glyphs[j], charWidth);
    }
    var r, c := y % charHeight, x % charWidth;
    var off := r * charWidth + c;
    RowMajorBound(r, c, charHeight, charWidth);
    GlyphIndexSplit(k, x, y, charWidth, charHeight);
    FlattenAtlasBlock(glyphs, size, k, off);
    FlattenRowsAt(glyphs[k], charWidth, r, c);
  }
}
