/** Image_Draw: one image drawn into another. The source rectangle is clamped to
    the source, resized to the destination rectangle when the sizes differ,
    clipped against the destination, and then copied row by row, either with one
    memcpy per row or pixel by pixel through Color_GetPixel, Color_AlphaBlend and
    Color_SetPixel. */
module Blit {
  import opened Bytes
  import opened PixelFormats
  import opened Colors
  import opened Grids
  import opened Images
  import opened Geometry
  import opened Formatting
  import opened Drawing

  // ---------------------------------------------------------------------------
  // Clipping
  // ---------------------------------------------------------------------------

  /** One axis of the copy: the first source pixel, the number of pixels, and the
      first destination pixel. */
  datatype Axis = Axis(src: int, len: int, dst: int)

  /** The destination out-of-bounds checks of Image_Draw on one axis, as written: a
      negative destination start shrinks the copy and moves the source start to
      -dst, whatever it was before; a copy running past the far edge is cut there;
      and a copy longer than the destination is cut to its size. */
  function ClipAxis(a: Axis, dstSize: int): Axis
  {
    var b := if a.dst < 0 then Axis(-a.dst, a.len + a.dst, 0)
             else if a.dst + a.len > dstSize then Axis(a.src, dstSize - a.dst, a.dst)
             else a;
    if dstSize < b.len then b.(len := dstSize) else b
  }

  /** The same checks with the source start moved by as much as the destination
      start: `src - dst` instead of `-dst`. */
  function ClipAxisFixed(a: Axis, dstSize: int): Axis
  {
    var b := if a.dst < 0 then Axis(a.src - a.dst, a.len + a.dst, 0)
             else if a.dst + a.len > dstSize then Axis(a.src, dstSize - a.dst, a.dst)
             else a;
    if dstSize < b.len then b.(len := dstSize) else b
  }

  /** Both versions keep the part of the requested destination span that lies inside
      the destination: they start at max(dst, 0) and end at min(dst + len, size).
      A non-empty copy therefore writes inside the destination, and, when the
      source span lies inside a source of srcSize pixels, reads inside it too. */
  lemma ClipAxisInside(a: Axis, dstSize: int, srcSize: int)
    requires dstSize >= 0
    ensures var c := ClipAxis(a, dstSize);
      c.dst == MaxInt(a.dst, 0) && c.dst + c.len == MinInt(a.dst + a.len, dstSize)
    ensures var c := ClipAxisFixed(a, dstSize);
      c.dst == MaxInt(a.dst, 0) && c.dst + c.len == MinInt(a.dst + a.len, dstSize)
    ensures var c := ClipAxis(a, dstSize);
      0 <= a.src && a.src + a.len <= srcSize && c.len > 0 ==> 0 <= c.src && c.src + c.len <= srcSize
    ensures var c := ClipAxisFixed(a, dstSize);
      0 <= a.src && a.src + a.len <= srcSize && c.len > 0 ==> 0 <= c.src && c.src + c.len <= srcSize
  {
  }

  /** The fixed clip keeps the translation between source and destination: every
      destination pixel it writes gets the source pixel it would get without
      clipping. */
  lemma ClipAxisFixedKeepsOffset(a: Axis, dstSize: int)
    ensures var c := ClipAxisFixed(a, dstSize); c.src - c.dst == a.src - a.dst
  {
  }

  /** The clip as written keeps that translation exactly when the destination start
      is not negative or the source start is 0. */
  lemma ClipAxisOffset(a: Axis, dstSize: int)
    ensures var c := ClipAxis(a, dstSize);
      c.src - c.dst == a.src - a.dst <==> a.dst >= 0 || a.src == 0
  {
  }

  /** A source rectangle starting at column 2 of a 4-wide image, drawn one column
      left of the destination: as written the copy reads column 1, where column 3
      is the one that belongs at destination column 0. */
  lemma ClipAxisReadsWrongColumn()
    ensures ClipAxis(Axis(2, 2, -1), 10) == Axis(1, 1, 0)
    ensures ClipAxisFixed(Axis(2, 2, -1), 10) == Axis(3, 1, 0)
  {
  }

  /** The row length as written: a destination rectangle wholly left of the
      destination leaves a negative length, which the memcpy fast path would hand
      to memcpy. */
  lemma ClipAxisNegativeLength()
    ensures ClipAxis(Axis(0, 3, -10), 10).len == -7
  {
  }

  // ---------------------------------------------------------------------------
  // The plan of a draw
  // ---------------------------------------------------------------------------

  /** Whether the clamped source rectangle differs in size from the destination
      rectangle, so that Image_Draw copies and resizes the source first. */
  predicate Resizes(srcRec: Rect, dstRec: Rect, sw: int, sh: int)
  {
    var c := ClampCrop(srcRec, sw, sh);
    c.width != dstRec.width || c.height != dstRec.height
  }

  /** What Image_Draw settles on before copying: whether it resized the source, the
      size of the source it reads, and the clipped copy on each axis. */
  datatype Plan = Plan(resized: bool, sourceW: int, sourceH: int, x: Axis, y: Axis)

  /** The plan for drawing srcRec of a sw x sh source into dstRec of a dw x dh
      destination. A resized source is the clamped rectangle scaled to the
      destination rectangle's size, unless the clamped rectangle is empty, which
      Image_Resize leaves alone. */
  function PlanOf(srcRec: Rect, dstRec: Rect, sw: int, sh: int, dw: int, dh: int): (p: Plan)
    ensures p.resized == Resizes(srcRec, dstRec, sw, sh)
  {
    var c := ClampCrop(srcRec, sw, sh);
    if Resizes(srcRec, dstRec, sw, sh) then
      var empty := c.width == 0 || c.height == 0;
      var w := if empty then c.width else dstRec.width;
      var h := if empty then c.height else dstRec.height;
      Plan(true, w, h, ClipAxis(Axis(0, w, dstRec.x), dw), ClipAxis(Axis(0, h, dstRec.y), dh))
    else
      Plan(false, sw, sh, ClipAxis(Axis(c.x, c.width, dstRec.x), dw),
           ClipAxis(Axis(c.y, c.height, dstRec.y), dh))
  }

  /** A plan that draws something writes inside the destination and reads inside a
      source of sourceW x sourceH pixels. */
  predicate PlanFits(p: Plan, dw: int, dh: int)
  {
    p.x.len > 0 && p.y.len > 0 ==>
      0 <= p.x.dst && p.x.dst + p.x.len <= dw && 0 <= p.y.dst && p.y.dst + p.y.len <= dh &&
      0 <= p.x.src && p.x.src + p.x.len <= p.sourceW && 0 <= p.y.src && p.y.src + p.y.len <= p.sourceH
  }

  /** Whatever the rectangles, Image_Draw neither writes outside the destination nor
      reads outside the source it draws from. The drawn block starts at the
      destination corner clamped to 0; its source corner is that of the clamped
      source rectangle, or (0, 0) in a resized source, except on an axis where the
      destination rectangle starts before 0, where it is minus that start (see
      `ClipAxisReadsWrongColumn`). Destination pixel (x, y) therefore receives source
      pixel (x - dstRec.x + x0, y - dstRec.y + y0) exactly on the axes where the
      destination start is not negative or the source start is 0. */
  lemma PlanInside(srcRec: Rect, dstRec: Rect, sw: nat, sh: nat, dw: nat, dh: nat)
    ensures PlanFits(PlanOf(srcRec, dstRec, sw, sh, dw, dh), dw, dh)
    ensures var p := PlanOf(srcRec, dstRec, sw, sh, dw, dh);
      var c := ClampCrop(srcRec, sw, sh);
      var x0, y0 := if p.resized then 0 else c.x, if p.resized then 0 else c.y;
      p.x.dst == MaxInt(dstRec.x, 0) && p.y.dst == MaxInt(dstRec.y, 0) &&
      p.x.src == (if dstRec.x < 0 then -dstRec.x else x0) &&
      p.y.src == (if dstRec.y < 0 then -dstRec.y else y0) &&
      (p.x.src - p.x.dst == x0 - dstRec.x <==> dstRec.x >= 0 || x0 == 0) &&
      (p.y.src - p.y.dst == y0 - dstRec.y <==> dstRec.y >= 0 || y0 == 0)
  {
    var c := ClampCrop(srcRec, sw, sh);
    var p := PlanOf(srcRec, dstRec, sw, sh, dw, dh);
    var ax := if p.resized then Axis(0, p.sourceW, dstRec.x) else Axis(c.x, c.width, dstRec.x);
    var ay := if p.resized then Axis(0, p.sourceH, dstRec.y) else Axis(c.y, c.height, dstRec.y);
    ClipAxisInside(ax, dw, p.sourceW);
    ClipAxisInside(ay, dh, p.sourceH);
    ClipAxisOffset(ax, dw);
    ClipAxisOffset(ay, dh);
  }

  /** The source Image_Draw reads has no columns when the destination rectangle
      has none, or when the clamped source rectangle has none and differs in size
      from it: a 2 x 2 source drawn into a 0 x 2 rectangle is resized to width 0,
      and the per-pixel size is then computed as a row stride divided by that
      width. */
  lemma ZeroWidthSource()
    ensures var p := PlanOf(Rect(0, 0, 2, 2), Rect(0, 0, 0, 2), 2, 2, 4, 4); p.resized && p.sourceW == 0
    ensures var p := PlanOf(Rect(2, 0, 2, 2), Rect(0, 0, 2, 2), 2, 2, 4, 4); p.resized && p.sourceW == 0
  {
  }

  /** The row stride of Image_Draw divided by the width is the pixel size, for every
      format that is not block-compressed and every width but 0. */
  lemma StrideBytes(w: nat, f: int)
    requires w > 0 && !IsCompressed(f)
    ensures PixelDataSize(w, 1, f) / w == BytesPerPixel(f)
  {
    UncompressedSize(w, 1, f);
    DivUnique(w * 1 * BytesPerPixel(f), w, BytesPerPixel(f), 0);
  }

  // ---------------------------------------------------------------------------
  // One pixel
  // ---------------------------------------------------------------------------

  /** How a pixel is drawn: the destination and source formats, whether
      Color_AlphaBlend is used, the tint, and the float conversions. */
  datatype Mode = Mode(dstFormat: int, srcFormat: int, blend: bool, tint: Color, ops: FloatOps)

  /** The blend is skipped when the tint is opaque and the source format has no
      alpha channel. */
  predicate BlendRequired(tint: Color, srcFormat: int)
  {
    !(tint.a == 255 && (srcFormat == Grayscale || srcFormat == R8G8B8 || srcFormat == R5G6B5))
  }

  /** Rows are copied with memcpy when no blend is needed and both images have the
      same format. */
  predicate Fast(m: Mode)
  {
    !m.blend && m.srcFormat == m.dstFormat
  }

  /** The per-pixel path on one destination cell `d` and one source cell `s`: the
      source colour, blended over the destination colour by Color_AlphaBlend as
      written (wrapping, see `Colors.AlphaBlendSaturated`) when a blend is needed,
      stored in the destination format by Color_SetPixel; a format Color_SetPixel
      ignores keeps the cell as it was. */
  function DrawnCell(d: seq<byte>, s: seq<byte>, m: Mode): (r: seq<byte>)
    ensures |d| == BytesPerPixel(m.dstFormat) ==> |r| == |d|
    ensures !(Grayscale <= m.dstFormat <= R8G8B8A8) ==> r == d
  {
    if |d| == BytesPerPixel(m.dstFormat) && |s| == BytesPerPixel(m.srcFormat) then
      var c := GetPixel(s, m.srcFormat, m.ops);
      var p := SetPixel(if m.blend then AlphaBlend(GetPixel(d, m.dstFormat, m.ops), c, m.tint) else c,
                        m.dstFormat, m.ops);
      if p == [] then d else p
    else d
  }

  /** In R8G8B8, with the blend skipped, the per-pixel path stores the source bytes
      unchanged, so the memcpy fast path draws what the per-pixel path would. */
  lemma FastPathAgrees(d: seq<byte>, s: seq<byte>, m: Mode)
    requires m.dstFormat == R8G8B8 && m.srcFormat == R8G8B8 && !m.blend
    requires |d| == 3 && |s| == 3
    ensures DrawnCell(d, s, m) == s
  {
    assert s == [s[0], s[1], s[2]];
  }

  /** A fully transparent tint leaves an R8G8B8A8 destination pixel as it was. */
  lemma TransparentTintKeeps(d: seq<byte>, s: seq<byte>, m: Mode)
    requires m.dstFormat == R8G8B8A8 && m.blend && m.tint.a == 0
    requires |d| == 4 && |s| == BytesPerPixel(m.srcFormat)
    ensures DrawnCell(d, s, m) == d
  {
    var c := GetPixel(s, m.srcFormat, m.ops);
    assert Tint(c, m.tint).a == 0;
    assert d == [d[0], d[1], d[2], d[3]];
  }

  // ---------------------------------------------------------------------------
  // The per-pixel loops
  // ---------------------------------------------------------------------------

  /** The block being drawn: its corner in the destination and in the source, and
      its size. */
  datatype Block = Block(dx: nat, dy: nat, sx: nat, sy: nat, rows: nat, cols: nat)

  /** The per-pixel step as the loops see it: the cell sizes of the two buffers and
      the bytes a destination cell gets from its old bytes and a source cell. */
  datatype Painter = Painter(dstBpp: nat, srcBpp: nat, draw: (seq<byte>, seq<byte>) -> seq<byte>)

  /** The painter of a mode: DrawnCell on cells of the two formats. */
  function PainterOf(m: Mode): (p: Painter)
    ensures SizeKept(p)
  {
    Painter(BytesPerPixel(m.dstFormat), BytesPerPixel(m.srcFormat), (d, s) => DrawnCell(d, s, m))
  }

  /** A painter gives a destination cell as many bytes as it had. */
  ghost predicate SizeKept(p: Painter)
  {
    forall d, s | |d| == p.dstBpp :: |p.draw(d, s)| == p.dstBpp
  }

  /** Cell (r, c) of the destination lies in the block and has been drawn once the
      first y rows and the first x cells of row y are done. */
  predicate Done(b: Block, r: int, c: int, y: int, x: int)
  {
    b.dy <= r && b.dx <= c < b.dx + b.cols && (r - b.dy < y || (r - b.dy == y && c - b.dx < x))
  }

  /** The bytes cell (r, c) of a destination `dw` cells wide should hold: drawn from
      its source cell when it is done, as it was in `orig` otherwise. */
  function Expected(orig: seq<byte>, dw: nat, source: seq<byte>, sw: nat, b: Block, p: Painter,
                    y: int, x: int, r: nat, c: nat): seq<byte>
  {
    var cell := Pixel(orig, r, c, dw, p.dstBpp);
    if Done(b, r, c, y, x) then p.draw(cell, Pixel(source, r - b.dy + b.sy, c - b.dx + b.sx, sw, p.srcBpp))
    else cell
  }

  /** Every cell of the dw x dh destination `cur` holds what it should once the
      first y rows and x cells of the block are drawn. */
  predicate BlendedUpTo(cur: seq<byte>, orig: seq<byte>, dw: nat, dh: nat, source: seq<byte>, sw: nat,
                        b: Block, p: Painter, y: int, x: int)
  {
    forall r: nat, c: nat | r < dh && c < dw ::
      Pixel(cur, r, c, dw, p.dstBpp) == Expected(orig, dw, source, sw, b, p, y, x, r, c)
  }

  /** The whole block is drawn pixel by pixel and nothing else has changed. */
  predicate Blended(cur: seq<byte>, orig: seq<byte>, dw: nat, dh: nat, source: seq<byte>, sw: nat,
                    b: Block, m: Mode)
  {
    BlendedUpTo(cur, orig, dw, dh, source, sw, b, PainterOf(m), b.rows, 0)
  }

  /** What Blended says of each pixel: a cell of the block holds DrawnCell of its old
      bytes and of the source cell at the same offset from the source corner, and
      every other cell its old bytes. */
  lemma BlendedCells(cur: seq<byte>, orig: seq<byte>, dw: nat, dh: nat, source: seq<byte>, sw: nat,
                     b: Block, m: Mode, r: nat, c: nat)
    requires Blended(cur, orig, dw, dh, source, sw, b, m) && r < dh && c < dw
    ensures var bpp := BytesPerPixel(m.dstFormat);
      b.dy <= r < b.dy + b.rows && b.dx <= c < b.dx + b.cols ==>
        Pixel(cur, r, c, dw, bpp) ==
        DrawnCell(Pixel(orig, r, c, dw, bpp),
                  Pixel(source, r - b.dy + b.sy, c - b.dx + b.sx, sw, BytesPerPixel(m.srcFormat)), m)
    ensures !(b.dy <= r < b.dy + b.rows && b.dx <= c < b.dx + b.cols) ==>
      Pixel(cur, r, c, dw, BytesPerPixel(m.dstFormat)) == Pixel(orig, r, c, dw, BytesPerPixel(m.dstFormat))
  {
    assert Pixel(cur, r, c, dw, BytesPerPixel(m.dstFormat)) ==
           Expected(orig, dw, source, sw, b, PainterOf(m), b.rows, 0, r, c);
  }

  /** Drawing the next cell of row y, from the bytes it holds before the write,
      extends the drawn part by that cell. */
  lemma {:induction false} BlendStep(before: seq<byte>, orig: seq<byte>, dw: nat, dh: nat, source: seq<byte>,
                                     sw: nat, b: Block, p: Painter, y: nat, x: nat, j: nat, fill: seq<byte>)
    requires SizeKept(p)
    requires b.dx + b.cols <= dw && b.dy + y < dh && x < b.cols
    requires dw * dh * p.dstBpp <= |before|
    requires BlendedUpTo(before, orig, dw, dh, source, sw, b, p, y, x)
    requires j == (b.dy + y) * dw + (b.dx + x)
    requires fill == p.draw(Pixel(before, b.dy + y, b.dx + x, dw, p.dstBpp),
                            Pixel(source, b.sy + y, b.sx + x, sw, p.srcBpp))
    ensures j * p.dstBpp + |fill| <= |before|
    ensures BlendedUpTo(Put(before, j * p.dstBpp, fill), orig, dw, dh, source, sw, b, p, y, x + 1)
  {
    GridCells(before, dw, dh, p.dstBpp, b.dy + y, b.dx + x);
    MulNat(j, p.dstBpp);
    var after := Put(before, j * p.dstBpp, fill);
    forall r: nat, c: nat | r < dh && c < dw
      ensures Pixel(after, r, c, dw, p.dstBpp) == Expected(orig, dw, source, sw, b, p, y, x + 1, r, c)
    {
      if r == b.dy + y && c == b.dx + x {
        PutCell(before, fill, j, j, p.dstBpp);
      } else {
        GridIndexDistinct(r, c, b.dy + y, b.dx + x, dw);
        KeptCell(before, orig, dw, source, sw, b, p, y, x, j, fill, r, c);
      }
    }
  }

  /** Distinct cells of a row-major grid have distinct flat indices. */
  lemma GridIndexDistinct(y1: nat, x1: nat, y2: nat, x2: nat, w: nat)
    requires x1 < w && x2 < w && (y1 != y2 || x1 != x2)
    ensures y1 * w + x1 != y2 * w + x2
  {
    if y1 * w + x1 == y2 * w + x2 {
      GridIndexUnique(y1, x1, y2, x2, w);
    }
  }

  /** The write of the next cell leaves every other cell (r, c) as it should be. */
  lemma {:induction false} KeptCell(before: seq<byte>, orig: seq<byte>, dw: nat, source: seq<byte>, sw: nat,
                                    b: Block, p: Painter, y: nat, x: nat, j: nat, fill: seq<byte>, r: nat, c: nat)
    requires r != b.dy + y || c != b.dx + x
    requires r * dw + c != j && j * p.dstBpp + p.dstBpp <= |before| && |fill| == p.dstBpp
    requires Pixel(before, r, c, dw, p.dstBpp) == Expected(orig, dw, source, sw, b, p, y, x, r, c)
    ensures Pixel(Put(before, j * p.dstBpp, fill), r, c, dw, p.dstBpp) ==
            Expected(orig, dw, source, sw, b, p, y, x + 1, r, c)
  {
    PutCell(before, fill, r * dw + c, j, p.dstBpp);
    assert Done(b, r, c, y, x) == Done(b, r, c, y, x + 1);
  }

  /** Row y of the block, pixel by pixel: each destination cell gets the bytes the
      painter makes of it and of its source cell. */
  method BlendRow(dst: array<byte>, dw: nat, dh: nat, source: array<byte>, sw: nat, sh: nat,
                  b: Block, p: Painter, y: nat, ghost orig: seq<byte>)
    requires dst != source && SizeKept(p)
    requires b.dx + b.cols <= dw && b.dy + y < dh && dw * dh * p.dstBpp <= dst.Length
    requires b.sx + b.cols <= sw && b.sy + y < sh && sw * sh * p.srcBpp <= source.Length
    requires BlendedUpTo(dst[..], orig, dw, dh, source[..], sw, b, p, y, 0)
    modifies dst
    ensures BlendedUpTo(dst[..], orig, dw, dh, source[..], sw, b, p, y + 1, 0)
  {
    for x := 0 to b.cols
      invariant BlendedUpTo(dst[..], orig, dw, dh, source[..], sw, b, p, y, x)
    {
      MulNat((b.dy + y) * dw + (b.dx + x), p.dstBpp);
      MulNat((b.sy + y) * sw + (b.sx + x), p.srcBpp);
      var at := ((b.dy + y) * dw + (b.dx + x)) * p.dstBpp;
      var from := ((b.sy + y) * sw + (b.sx + x)) * p.srcBpp;
      GridCells(dst[..], dw, dh, p.dstBpp, b.dy + y, b.dx + x);
      GridCells(source[..], sw, sh, p.srcBpp, b.sy + y, b.sx + x);
      var fill := p.draw(dst[at .. at + p.dstBpp], source[from .. from + p.srcBpp]);
      BlendStep(dst[..], orig, dw, dh, source[..], sw, b, p, y, x, (b.dy + y) * dw + (b.dx + x), fill);
      PutBytes(dst, at, fill);
    }
  }

  /** The per-pixel path of Image_Draw: every row of the block in turn. */
  method BlendRows(dst: array<byte>, dw: nat, dh: nat, source: array<byte>, sw: nat, sh: nat, b: Block, m: Mode)
    requires dst != source
    requires b.dx + b.cols <= dw && b.dy + b.rows <= dh && dw * dh * BytesPerPixel(m.dstFormat) <= dst.Length
    requires b.sx + b.cols <= sw && b.sy + b.rows <= sh && sw * sh * BytesPerPixel(m.srcFormat) <= source.Length
    modifies dst
    ensures Blended(dst[..], old(dst[..]), dw, dh, source[..], sw, b, m)
  {
    ghost var orig := dst[..];
    for y := 0 to b.rows
      invariant BlendedUpTo(dst[..], orig, dw, dh, source[..], sw, b, PainterOf(m), y, 0)
    {
      BlendRow(dst, dw, dh, source, sw, sh, b, PainterOf(m), y, orig);
    }
  }

  // ---------------------------------------------------------------------------
  // Image_Draw
  // ---------------------------------------------------------------------------

  /** The mode Image_Draw draws in: the blend is decided by the tint and the source
      format. */
  function ModeOf(dstFormat: int, srcFormat: int, tint: Color, ops: FloatOps): (m: Mode)
    ensures Fast(m) <==> srcFormat == dstFormat && tint.a == 255 &&
                         (srcFormat == Grayscale || srcFormat == R8G8B8 || srcFormat == R5G6B5)
  {
    Mode(dstFormat, srcFormat, BlendRequired(tint, srcFormat), tint, ops)
  }

  /** The destination `cur` after Image_Draw with plan p, from `orig`: nothing
      changes when the clipped block is empty; otherwise the block is copied from
      `source` row by row on the fast path, or drawn pixel by pixel, and every other
      cell keeps its bytes. */
  ghost predicate Drawn(cur: seq<byte>, orig: seq<byte>, dw: nat, dh: nat, source: seq<byte>, p: Plan, m: Mode)
  {
    PlanFits(p, dw, dh) &&
    if p.x.len <= 0 || p.y.len <= 0 then cur == orig
    else
      var b := Block(p.x.dst, p.y.dst, p.x.src, p.y.src, p.y.len, p.x.len);
      var bpp := BytesPerPixel(m.dstFormat);
      if Fast(m) then
        BlockCopied(cur, dw, b.dx, b.dy, source, p.sourceW, b.sx, b.sy, b.rows, b.cols, bpp) &&
        OutsideKept(cur, orig, dw, dh, b.dx, b.dy, b.rows, b.cols, bpp)
      else Blended(cur, orig, dw, dh, source, p.sourceW, b, m)
  }

  /** The first half of Image_Draw: the source rectangle clamped to the source and,
      when its size differs from the destination rectangle's, cut out (`cut`) and
      resized to that size; then the copy clipped against the destination. `from`
      is the image drawn from. */
  method Prepare(src: Image, srcRec: Rect, dstRec: Rect, dw: nat, dh: nat, ops: FloatOps)
    returns (from: Image, p: Plan, ghost cut: seq<byte>)
    requires src.Valid() && src.data != null && IsUncompressed(src.format)
    requires Resizes(srcRec, dstRec, src.width, src.height) ==>
      ClampCrop(srcRec, src.width, src.height).width >= 0 && ClampCrop(srcRec, src.width, src.height).height >= 0 &&
      dstRec.width >= 0 && dstRec.height >= 0
    ensures p == PlanOf(srcRec, dstRec, src.width, src.height, dw, dh)
    ensures from.width == p.sourceW && from.height == p.sourceH
    ensures from.data != null && from.format == src.format
    ensures from.width * from.height * BytesPerPixel(from.format) <= from.data.Length
    ensures !Resizes(srcRec, dstRec, src.width, src.height) ==> from == src
    ensures Resizes(srcRec, dstRec, src.width, src.height) ==>
      var c := ClampCrop(srcRec, src.width, src.height);
      var bpp := BytesPerPixel(src.format);
      fresh(from.data) &&
      |cut| == c.width * c.height * bpp &&
      Grid(cut, c.width, c.height, bpp) == SubGrid(src.View(), c.x, c.y, c.width, c.height) &&
      (c.width == 0 || c.height == 0 ==> from.data[..] == cut) &&
      (c.width > 0 && c.height > 0 ==> from.data.Length == dstRec.width * dstRec.height * bpp) &&
      (c.width > 0 && c.height > 0 && Resampled(src.format) ==>
         from.data[..] == Fit(ops.resize(cut, c.width, c.height, src.format, dstRec.width, dstRec.height),
                              dstRec.width * dstRec.height * bpp))
  {
    cut := [];
    var rec := ClampCrop(srcRec, src.width, src.height);
    from := src;
    var resized := rec.width != dstRec.width || rec.height != dstRec.height;
    if resized {
      var srcMod := FromImage(src, rec);
      cut := srcMod.data[..];
      UncompressedSize(rec.width, rec.height, src.format);
      Resize(srcMod, dstRec.width, dstRec.height, ops);
      from := srcMod;
      rec := Rect(0, 0, srcMod.width, srcMod.height);
    }
    var x := ClipAxis(Axis(rec.x, rec.width, dstRec.x), dw);
    var y := ClipAxis(Axis(rec.y, rec.height, dstRec.y), dh);
    p := Plan(resized, from.width, from.height, x, y);
  }

  /** The second half of Image_Draw on a non-empty clipped block: one memcpy per row
      on the fast path, the per-pixel loops otherwise. The pixel sizes are the row
      strides divided by the widths. */
  method DrawBlock(dst: array<byte>, dw: nat, dh: nat, source: array<byte>, sw: nat, sh: nat, p: Plan, m: Mode)
    requires dst != source && p.x.len > 0 && p.y.len > 0 && PlanFits(p, dw, dh)
    requires p.sourceW == sw && p.sourceH == sh && !IsCompressed(m.dstFormat) && IsUncompressed(m.srcFormat)
    requires dw * dh * BytesPerPixel(m.dstFormat) <= dst.Length && sw * sh * BytesPerPixel(m.srcFormat) <= source.Length
    modifies dst
    ensures Drawn(dst[..], old(dst[..]), dw, dh, source[..], p, m)
  {
    StrideBytes(dw, m.dstFormat);
    StrideBytes(sw, m.srcFormat);
    var bD := PixelDataSize(dw, 1, m.dstFormat) / dw;
    var bS := PixelDataSize(sw, 1, m.srcFormat) / sw;
    if !m.blend && m.srcFormat == m.dstFormat {
      CopyRows(dst, dw, dh, p.x.dst, p.y.dst, source, sw, sh, p.x.src, p.y.src, p.y.len, p.x.len, bD);
    } else {
      BlendRows(dst, dw, dh, source, sw, sh, Block(p.x.dst, p.y.dst, p.x.src, p.y.src, p.y.len, p.x.len), m);
    }
  }

  /** Image_Draw. Nothing is drawn into an image without pixels, from an image
      without pixels, or into a block-compressed image. Otherwise the source
      rectangle is clamped to the source; when its size differs from the
      destination rectangle's, the clamped part is cut out (`cut`) and resized to
      that size; the result (`source`) is drawn into the part of the destination
      rectangle that lies inside the destination. */
  method Draw(dst: Image, src: Image, srcRec: Rect, dstRec: Rect, tint: Color, ops: FloatOps)
    returns (ghost source: seq<byte>, ghost cut: seq<byte>)
    requires dst.Valid() && src.Valid() && IsUncompressed(src.format)
    requires dst.data == null || dst.data != src.data
    requires Resizes(srcRec, dstRec, src.width, src.height) ==>
      ClampCrop(srcRec, src.width, src.height).width >= 0 && ClampCrop(srcRec, src.width, src.height).height >= 0 &&
      dstRec.width >= 0 && dstRec.height >= 0
    modifies dst.data
    ensures dst.data != null && (dst.Empty() || src.Empty() || IsCompressed(dst.format)) ==>
      dst.data[..] == old(dst.data[..])
    ensures !dst.Empty() && !src.Empty() && !IsCompressed(dst.format) ==>
      Drawn(dst.data[..], old(dst.data[..]), dst.width, dst.height, source,
            PlanOf(srcRec, dstRec, src.width, src.height, dst.width, dst.height),
            ModeOf(dst.format, src.format, tint, ops))
    ensures !dst.Empty() && !src.Empty() && !IsCompressed(dst.format) && !Resizes(srcRec, dstRec, src.width, src.height) ==>
      source == src.data[..]
    ensures !dst.Empty() && !src.Empty() && !IsCompressed(dst.format) && Resizes(srcRec, dstRec, src.width, src.height) ==>
      var c := ClampCrop(srcRec, src.width, src.height);
      var bpp := BytesPerPixel(src.format);
      |cut| == c.width * c.height * bpp &&
      Grid(cut, c.width, c.height, bpp) == SubGrid(src.View(), c.x, c.y, c.width, c.height) &&
      (c.width == 0 || c.height == 0 ==> source == cut) &&
      (c.width > 0 && c.height > 0 ==> |source| == dstRec.width * dstRec.height * bpp) &&
      (c.width > 0 && c.height > 0 && Resampled(src.format) ==>
         source == Fit(ops.resize(cut, c.width, c.height, src.format, dstRec.width, dstRec.height),
                       dstRec.width * dstRec.height * bpp))
  {
    source, cut := [], [];
    if dst.data == null || dst.width == 0 || dst.height == 0 || src.data == null || src.width == 0 || src.height == 0 {
      return;
    }
    if dst.format >= Dxt1Rgb {
      return;
    }
    var from, p;
    from, p, cut := Prepare(src, srcRec, dstRec, dst.width, dst.height, ops);
    source := from.data[..];
    PlanInside(srcRec, dstRec, src.width, src.height, dst.width, dst.height);
    if p.x.len > 0 && p.y.len > 0 {
      DrawBlock(dst.data, dst.width, dst.height, from.data, from.width, from.height, p,
                ModeOf(dst.format, from.format, tint, ops));
    }
  }
}
