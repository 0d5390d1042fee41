/** The pixel-drawing operations of the image engine: Image_DrawPixel and the
    shapes built from it (Image_Clear, Image_DrawRectangleRec, the Bresenham
    Image_DrawLine and the midpoint Image_DrawCircle). Each shape is specified by
    the list of points it hands to Image_DrawPixel, in the order it hands them
    over. */
module Drawing {
  import opened Bytes
  import opened PixelFormats
  import opened Colors
  import opened Grids
  import opened Images
  import opened Alpha
  import opened Shapes

  // ---------------------------------------------------------------------------
  // Image_DrawPixel
  // ---------------------------------------------------------------------------

  /** The bytes Image_DrawPixel stores for a colour: the channels themselves in
      R8G8B8 and R8G8B8A8, the float-computed encoding in the other uncompressed
      formats, and nothing in the formats its switch does not list. */
  function PixelBytes(color: Color, format: int, ops: FloatOps): (p: seq<byte>)
    ensures IsUncompressed(format) ==> |p| == BytesPerPixel(format)
    ensures !IsUncompressed(format) ==> p == []
    ensures format == R8G8B8A8 ==> GetPixel(p, format, ops) == color
    ensures format == R8G8B8 ==> GetPixel(p, format, ops) == color.(a := 255)
    ensures Grayscale <= format <= R8G8B8A8 ==> p == SetPixel(color, format, ops)
  {
    if format == R8G8B8 then [color.r, color.g, color.b]
    else if format == R8G8B8A8 then [color.r, color.g, color.b, color.a]
    else if IsUncompressed(format) then Fit(ops.encodePixel(color, format), BytesPerPixel(format))
    else []
  }

  /** The buffer holds the w x h base level of an uncompressed format. */
  predicate Holds(d: seq<byte>, w: nat, h: nat, format: int)
  {
    IsUncompressed(format) ==> w * h * BytesPerPixel(format) <= |d|
  }

  /** s with the bytes from `at` on replaced by `fill`. */
  function Put(s: seq<byte>, at: nat, fill: seq<byte>): (r: seq<byte>)
    requires at + |fill| <= |s|
    ensures |r| == |s|
  {
    s[..at] + fill + s[at + |fill|..]
  }

  /** The buffer after Image_DrawPixel at p: the pixel is written when it lies
      inside the image and the format is uncompressed, and the buffer is returned
      as it was otherwise. */
  function Plot(d: seq<byte>, w: nat, h: nat, format: int, p: Point, color: Color, ops: FloatOps): (r: seq<byte>)
    requires Holds(d, w, h, format)
    ensures |r| == |d|
  {
    if 0 <= p.x < w && 0 <= p.y < h && IsUncompressed(format) then
      GridCells(d, w, h, BytesPerPixel(format), p.y, p.x);
      Put(d, (p.y * w + p.x) * BytesPerPixel(format), PixelBytes(color, format, ops))
    else d
  }

  /** Image_DrawPixel at each point of the list in turn. */
  function PlotAll(d: seq<byte>, w: nat, h: nat, format: int, pts: seq<Point>, color: Color, ops: FloatOps): (r: seq<byte>)
    requires Holds(d, w, h, format)
    ensures |r| == |d|
  {
    if |pts| == 0 then d
    else Plot(PlotAll(d, w, h, format, pts[..|pts| - 1], color, ops), w, h, format, pts[|pts| - 1], color, ops)
  }

  /** Drawing the points of a list and then one more point draws the longer list. */
  lemma PlotAllSnoc(d: seq<byte>, w: nat, h: nat, format: int, pts: seq<Point>, p: Point, color: Color, ops: FloatOps)
    requires Holds(d, w, h, format)
    ensures PlotAll(d, w, h, format, pts + [p], color, ops) ==
            Plot(PlotAll(d, w, h, format, pts, color, ops), w, h, format, p, color, ops)
  {
    assert (pts + [p])[..|pts|] == pts;
  }

  /** Writing one cell of a buffer changes that cell and no other. */
  lemma {:induction false} PutCell(s: seq<byte>, fill: seq<byte>, i: nat, j: nat, bpp: nat)
    requires |fill| == bpp && j * bpp + bpp <= |s|
    ensures Cell(Put(s, j * bpp, fill), i, bpp) == if i == j then fill else Cell(s, i, bpp)
  {
    if i == j {
      PutInside(s, j * bpp, fill);
    } else {
      CellsApart(i, j, bpp);
      var lo := i * bpp;
      if lo + bpp <= |s| {
        PutOutside(s, j * bpp, fill, lo, lo + bpp);
      }
    }
  }

  /** Two different cells do not overlap. */
  lemma CellsApart(i: nat, j: nat, bpp: nat)
    requires i != j
    ensures i * bpp + bpp <= j * bpp || j * bpp + bpp <= i * bpp
  {
    if i < j {
      MulLe(i + 1, j, bpp);
    } else {
      MulLe(j + 1, i, bpp);
    }
  }

  /** The written range holds the fill. */
  lemma PutInside(s: seq<byte>, at: nat, fill: seq<byte>)
    requires at + |fill| <= |s|
    ensures Put(s, at, fill)[at..at + |fill|] == fill
  {
    assert Put(s, at, fill)[at..at + |fill|] == (s[..at] + fill + s[at + |fill|..])[at..at + |fill|];
  }

  /** A range that does not meet the written one is unchanged. */
  lemma PutOutside(s: seq<byte>, at: nat, fill: seq<byte>, lo: nat, hi: nat)
    requires at + |fill| <= |s| && lo <= hi <= |s| && (hi <= at || at + |fill| <= lo)
    ensures Put(s, at, fill)[lo..hi] == s[lo..hi]
  {
    assert forall k :: lo <= k < hi ==> Put(s, at, fill)[k] == s[k];
  }

  /** Writing bytes below n leaves the bytes from n on as they were. */
  lemma PutBeyond(s: seq<byte>, at: nat, fill: seq<byte>, n: nat)
    requires at + |fill| <= n <= |s|
    ensures Put(s, at, fill)[n..] == s[n..]
  {
  }

  /** Image_DrawPixel changes the pixel at p, when it lies inside the image, to the
      bytes of the colour, and no other pixel. */
  lemma {:induction false} PlotPixel(d: seq<byte>, w: nat, h: nat, format: int, p: Point, color: Color, ops: FloatOps,
                                     y: nat, x: nat)
    requires IsUncompressed(format) && Holds(d, w, h, format) && y < h && x < w
    ensures Pixel(Plot(d, w, h, format, p, color, ops), y, x, w, BytesPerPixel(format)) ==
      if p == Point(x, y) then PixelBytes(color, format, ops) else Pixel(d, y, x, w, BytesPerPixel(format))
  {
    if 0 <= p.x < w && 0 <= p.y < h {
      var bpp := BytesPerPixel(format);
      GridCells(d, w, h, bpp, p.y, p.x);
      var j := p.y * w + p.x;
      var i := y * w + x;
      PutCell(d, PixelBytes(color, format, ops), i, j, bpp);
      if i == j {
        GridIndexUnique(y, x, p.y, p.x, w);
      }
    }
  }

  /** Image_DrawPixel never touches the bytes past the base level. */
  lemma PlotBeyond(d: seq<byte>, w: nat, h: nat, format: int, p: Point, color: Color, ops: FloatOps)
    requires IsUncompressed(format) && Holds(d, w, h, format)
    ensures Plot(d, w, h, format, p, color, ops)[w * h * BytesPerPixel(format)..] == d[w * h * BytesPerPixel(format)..]
  {
    if 0 <= p.x < w && 0 <= p.y < h {
      var bpp := BytesPerPixel(format);
      GridCell(p.y, p.x, w, h, bpp);
      PutBeyond(d, (p.y * w + p.x) * bpp, PixelBytes(color, format, ops), w * h * bpp);
    }
  }

  /** After drawing a list of points in one colour, a pixel holds that colour when
      its position is in the list and is unchanged otherwise, whatever the order. */
  lemma {:induction false} PlotAllPixels(d: seq<byte>, w: nat, h: nat, format: int, pts: seq<Point>, color: Color,
                                         ops: FloatOps, y: nat, x: nat)
    requires IsUncompressed(format) && Holds(d, w, h, format) && y < h && x < w
    ensures Pixel(PlotAll(d, w, h, format, pts, color, ops), y, x, w, BytesPerPixel(format)) ==
      if Point(x, y) in pts then PixelBytes(color, format, ops) else Pixel(d, y, x, w, BytesPerPixel(format))
  {
    if |pts| > 0 {
      var init := pts[..|pts| - 1];
      var last := pts[|pts| - 1];
      PlotAllPixels(d, w, h, format, init, color, ops, y, x);
      PlotAllBeyond(d, w, h, format, init, color, ops);
      PlotPixel(PlotAll(d, w, h, format, init, color, ops), w, h, format, last, color, ops, y, x);
      assert pts == init + [last];
      assert Point(x, y) in pts <==> Point(x, y) in init || Point(x, y) == last;
    }
  }

  /** Drawing a list of points leaves the bytes past the base level unchanged. */
  lemma {:induction false} PlotAllBeyond(d: seq<byte>, w: nat, h: nat, format: int, pts: seq<Point>, color: Color,
                                         ops: FloatOps)
    requires IsUncompressed(format) && Holds(d, w, h, format)
    ensures var n := w * h * BytesPerPixel(format);
      PlotAll(d, w, h, format, pts, color, ops)[n..] == d[n..]
  {
    if |pts| > 0 {
      var init := pts[..|pts| - 1];
      PlotAllBeyond(d, w, h, format, init, color, ops);
      var e := PlotAll(d, w, h, format, init, color, ops);
      PlotBeyond(e, w, h, format, pts[|pts| - 1], color, ops);
    }
  }

  /** A format Image_DrawPixel does not handle leaves every buffer as it is. */
  lemma {:induction false} PlotAllIgnored(d: seq<byte>, w: nat, h: nat, format: int, pts: seq<Point>, color: Color,
                                          ops: FloatOps)
    requires !IsUncompressed(format)
    ensures PlotAll(d, w, h, format, pts, color, ops) == d
  {
    if |pts| > 0 {
      PlotAllIgnored(d, w, h, format, pts[..|pts| - 1], color, ops);
    }
  }

  /** An image without rows or columns is left as it is by any list of points. */
  lemma {:induction false} PlotAllNoPixels(d: seq<byte>, w: nat, h: nat, format: int, pts: seq<Point>, color: Color,
                                           ops: FloatOps)
    requires w == 0 || h == 0
    ensures PlotAll(d, w, h, format, pts, color, ops) == d
  {
    if |pts| > 0 {
      PlotAllNoPixels(d, w, h, format, pts[..|pts| - 1], color, ops);
    }
  }

  /** The bytes from `at` on are overwritten with `fill`. */
  method PutBytes(data: array<byte>, at: nat, fill: seq<byte>)
    requires at + |fill| <= data.Length
    modifies data
    ensures data[..] == Put(old(data[..]), at, fill)
  {
    WriteBytes(data, at, fill);
    assert data[..] == data[..at] + data[at .. at + |fill|] + data[at + |fill|..];
  }

  /** Image_DrawPixel. */
  method DrawPixel(image: Image, x: int, y: int, color: Color, ops: FloatOps)
    requires image.Valid()
    modifies image.data
    ensures image.data != null ==>
      Holds(old(image.data[..]), image.width, image.height, image.format) &&
      image.data[..] == Plot(old(image.data[..]), image.width, image.height, image.format, Point(x, y), color, ops)
  {
    if image.data == null || x < 0 || x >= image.width || y < 0 || y >= image.height {
      return;
    }
    if IsUncompressed(image.format) {
      var w, bpp := image.width, BytesPerPixel(image.format);
      PlotInside(image.data[..], w, image.height, image.format, x, y, color, ops);
      PutBytes(image.data, (y * w + x) * bpp, PixelBytes(color, image.format, ops));
    }
  }

  /** Inside the image, Image_DrawPixel writes the colour's bytes over the pixel's cell. */
  lemma PlotInside(d: seq<byte>, w: nat, h: nat, format: int, x: nat, y: nat, color: Color, ops: FloatOps)
    requires IsUncompressed(format) && Holds(d, w, h, format) && x < w && y < h
    ensures (y * w + x) * BytesPerPixel(format) + |PixelBytes(color, format, ops)| <= |d|
    ensures Plot(d, w, h, format, Point(x, y), color, ops) ==
      Put(d, (y * w + x) * BytesPerPixel(format), PixelBytes(color, format, ops))
  {
    GridCells(d, w, h, BytesPerPixel(format), y, x);
  }

  // ---------------------------------------------------------------------------
  // Image_Clear
  // ---------------------------------------------------------------------------

  /** After Image_Clear every pixel of the base level holds the bytes of the colour,
      and the bytes past it are unchanged. */
  lemma Cleared(d: seq<byte>, w: nat, h: nat, format: int, color: Color, ops: FloatOps, x: nat, y: nat)
    requires IsUncompressed(format) && Holds(d, w, h, format) && x < w && y < h
    ensures Pixel(PlotAll(d, w, h, format, ClearPoints(w, h), color, ops), y, x, w, BytesPerPixel(format)) ==
      PixelBytes(color, format, ops)
    ensures PlotAll(d, w, h, format, ClearPoints(w, h), color, ops)[w * h * BytesPerPixel(format)..] ==
      d[w * h * BytesPerPixel(format)..]
  {
    ClearCovers(w, h, x, y);
    PlotAllPixels(d, w, h, format, ClearPoints(w, h), color, ops, y, x);
    PlotAllBeyond(d, w, h, format, ClearPoints(w, h), color, ops);
  }

  /** Image_Clear. */
  method Clear(image: Image, color: Color, ops: FloatOps)
    requires image.Valid()
    modifies image.data
    ensures image.data != null ==>
      Holds(old(image.data[..]), image.width, image.height, image.format) &&
      image.data[..] == PlotAll(old(image.data[..]), image.width, image.height, image.format,
                                ClearPoints(image.width, image.height), color, ops)
  {
    var w, h := image.width, image.height;
    MulNat(w, h);
    ghost var pts := ClearPoints(w, h);
    for i := 0 to w * h
      invariant image.data != null ==>
        Holds(old(image.data[..]), w, h, image.format) &&
        image.data[..] == PlotAll(old(image.data[..]), w, h, image.format, pts[..i], color, ops)
    {
      IndexOfCell(i, w, h);
      DrawPixel(image, i % w, i / w, color, ops);
      if image.data != null {
        assert pts[..i + 1] == pts[..i] + [Point(i % w, i / w)];
        PlotAllSnoc(old(image.data[..]), w, h, image.format, pts[..i], Point(i % w, i / w), color, ops);
      }
    }
    assert pts[..w * h] == pts;
  }

  // ---------------------------------------------------------------------------
  // Image_DrawRectangleRec
  // ---------------------------------------------------------------------------

  /** After Image_DrawRectangleRec a pixel holds the bytes of the colour when it lies
      in the rectangle and is unchanged otherwise (PlotAllBeyond covers the bytes past
      the base level). */
  lemma RectangleDrawn(d: seq<byte>, w: nat, h: nat, format: int, rec: Rect, color: Color, ops: FloatOps,
                       x: nat, y: nat)
    requires IsUncompressed(format) && Holds(d, w, h, format) && x < w && y < h
    ensures Pixel(PlotAll(d, w, h, format, RectPoints(rec.x, rec.x + rec.width, rec.y, rec.y + rec.height), color, ops),
                  y, x, w, BytesPerPixel(format)) ==
      if rec.x <= x < rec.x + rec.width && rec.y <= y < rec.y + rec.height then PixelBytes(color, format, ops)
      else Pixel(d, y, x, w, BytesPerPixel(format))
  {
    var pts := RectPoints(rec.x, rec.x + rec.width, rec.y, rec.y + rec.height);
    RectMembers(rec.x, rec.x + rec.width, rec.y, rec.y + rec.height, Point(x, y));
    PlotAllPixels(d, w, h, format, pts, color, ops, y, x);
    if rec.x <= x < rec.x + rec.width && rec.y <= y < rec.y + rec.height {
      assert Point(x, y) in pts;
    } else {
      assert Point(x, y) !in pts;
    }
  }

  /** Drawing one more point of a row. */
  lemma SpanStep(d0: seq<byte>, w: nat, h: nat, format: int, before: seq<Point>, sx: int, x: int, y: int,
                 color: Color, ops: FloatOps)
    requires Holds(d0, w, h, format) && sx <= x
    ensures PlotAll(d0, w, h, format, before + Span(sx, x + 1, y), color, ops) ==
      Plot(PlotAll(d0, w, h, format, before + Span(sx, x, y), color, ops), w, h, format, Point(x, y), color, ops)
  {
    assert Span(sx, x + 1, y) == Span(sx, x, y) + [Point(x, y)];
    assert before + Span(sx, x + 1, y) == (before + Span(sx, x, y)) + [Point(x, y)];
    PlotAllSnoc(d0, w, h, format, before + Span(sx, x, y), Point(x, y), color, ops);
  }

  /** One row of Image_DrawRectangleRec: the buffer, which is d0 after drawing the
      points `before`, becomes d0 after drawing the row as well. */
  method DrawSpan(image: Image, sx: int, ex: int, y: int, color: Color, ops: FloatOps,
                  ghost d0: seq<byte>, ghost before: seq<Point>)
    requires image.Valid() && image.data != null && Holds(d0, image.width, image.height, image.format)
    requires image.data[..] == PlotAll(d0, image.width, image.height, image.format, before, color, ops)
    modifies image.data
    ensures image.data[..] == PlotAll(d0, image.width, image.height, image.format, before + Span(sx, ex, y), color, ops)
  {
    var x := sx;
    assert before + Span(sx, x, y) == before;
    while x < ex
      invariant sx <= x && (sx < ex ==> x <= ex) && (ex <= sx ==> x == sx)
      invariant image.data[..] == PlotAll(d0, image.width, image.height, image.format, before + Span(sx, x, y), color, ops)
    {
      DrawPixel(image, x, y, color, ops);
      SpanStep(d0, image.width, image.height, image.format, before, sx, x, y, color, ops);
      x := x + 1;
    }
    assert Span(sx, x, y) == Span(sx, ex, y);
  }

  /** Image_DrawRectangleRec. */
  method DrawRectangleRec(image: Image, rec: Rect, color: Color, ops: FloatOps)
    requires image.Valid()
    modifies image.data
    ensures image.data != null ==>
      Holds(old(image.data[..]), image.width, image.height, image.format) &&
      image.data[..] == PlotAll(old(image.data[..]), image.width, image.height, image.format,
                                RectPoints(rec.x, rec.x + rec.width, rec.y, rec.y + rec.height), color, ops)
  {
    if image.data == null || image.width == 0 || image.height == 0 {
      if image.data != null {
        PlotAllNoPixels(image.data[..], image.width, image.height, image.format,
                        RectPoints(rec.x, rec.x + rec.width, rec.y, rec.y + rec.height), color, ops);
      }
      return;
    }
    ghost var d0 := image.data[..];
    var sy := rec.y;
    var ey := sy + rec.height;
    var sx := rec.x;
    var ex := sx + rec.width;
    var y := sy;
    while y < ey
      invariant sy <= y && (sy < ey ==> y <= ey) && (ey <= sy ==> y == sy)
      invariant image.data[..] == PlotAll(d0, image.width, image.height, image.format, RectPoints(sx, ex, sy, y), color, ops)
    {
      DrawSpan(image, sx, ex, y, color, ops, d0, RectPoints(sx, ex, sy, y));
      y := y + 1;
    }
    assert RectPoints(sx, ex, sy, y) == RectPoints(sx, ex, sy, ey);
  }

  // ---------------------------------------------------------------------------
  // Image_DrawLine
  // ---------------------------------------------------------------------------

  /** One step of the loop of Image_DrawLine: the pixel at major coordinate
      startU + k, drawn after those before it. */
  lemma WalkStep(d0: seq<byte>, w: nat, h: nat, format: int, s: Walk, k: nat, color: Color, ops: FloatOps)
    requires Holds(d0, w, h, format) && s.startU <= s.endU && k <= s.endU - s.startU
    ensures PlotAll(d0, w, h, format, WalkPoints(s)[..k + 1], color, ops) ==
      Plot(PlotAll(d0, w, h, format, WalkPoints(s)[..k], color, ops), w, h, format,
           Place(s, s.startU + k, PenAt(s, k).v), color, ops)
  {
    var pts := WalkPoints(s);
    assert pts[..k + 1] == pts[..k] + [pts[k]];
    PlotAllSnoc(d0, w, h, format, pts[..k], pts[k], color, ops);
  }

  /** One pass of the loop of Image_DrawLine: the pen takes step u - startU and the
      pixel it reaches is drawn. */
  method WalkPixel(image: Image, s: Walk, u: int, v: int, p: int, color: Color, ops: FloatOps, ghost d0: seq<byte>)
    returns (v': int, p': int)
    requires image.Valid() && s.startU < u <= s.endU
    requires Pen(v, p) == PenAt(s, u - s.startU - 1)
    requires image.data != null ==>
      Holds(d0, image.width, image.height, image.format) &&
      image.data[..] == PlotAll(d0, image.width, image.height, image.format, WalkPoints(s)[..u - s.startU], color, ops)
    modifies image.data
    ensures Pen(v', p') == PenAt(s, u - s.startU)
    ensures image.data != null ==>
      image.data[..] == PlotAll(d0, image.width, image.height, image.format, WalkPoints(s)[..u - s.startU + 1], color, ops)
  {
    ghost var k: nat := u - s.startU;
    v', p' := v, p;
    if p' >= 0 {
      v' := v' + s.stepV;
      p' := p' + s.b;
    } else {
      p' := p' + s.a;
    }
    assert Pen(v', p') == Advance(s, PenAt(s, k - 1)) == PenAt(s, k);
    var at := Place(s, u, v');
    assert at == Place(s, s.startU + k, PenAt(s, k).v);
    if image.data != null {
      WalkStep(d0, image.width, image.height, image.format, s, k, color, ops);
    }
    DrawPixel(image, at.x, at.y, color, ops);
  }

  /** Image_DrawLine. */
  method DrawLine(image: Image, startPosX: int, startPosY: int, endPosX: int, endPosY: int, color: Color, ops: FloatOps)
    requires image.Valid()
    modifies image.data
    ensures image.data != null ==>
      Holds(old(image.data[..]), image.width, image.height, image.format) &&
      image.data[..] == PlotAll(old(image.data[..]), image.width, image.height, image.format,
                                LinePoints(startPosX, startPosY, endPosX, endPosY), color, ops)
  {
    ghost var d0 := image.Contents();
    var s := LineWalk(startPosX, startPosY, endPosX, endPosY);
    LineWalkShape(startPosX, startPosY, endPosX, endPosY);
    ghost var pts := WalkPoints(s);
    var first := Place(s, s.startU, s.startV);
    assert first == Place(s, s.startU + 0, PenAt(s, 0).v);
    if image.data != null {
      WalkStep(d0, image.width, image.height, image.format, s, 0, color, ops);
      assert PlotAll(d0, image.width, image.height, image.format, pts[..0], color, ops) == d0;
    }
    DrawPixel(image, first.x, first.y, color, ops);
    var u, v, p := s.startU + 1, s.startV, s.p;
    while u <= s.endU
      invariant s.startU < u <= s.endU + 1
      invariant Pen(v, p) == PenAt(s, u - s.startU - 1)
      invariant image.data != null ==>
        image.data[..] == PlotAll(d0, image.width, image.height, image.format, pts[..u - s.startU], color, ops)
    {
      v, p := WalkPixel(image, s, u, v, p, color, ops, d0);
      u := u + 1;
    }
    assert pts[..u - s.startU] == pts;
  }

  // ---------------------------------------------------------------------------
  // Image_DrawCircle
  // ---------------------------------------------------------------------------

  /** Image_DrawPixel as a step of a shape: the buffer, which is d0 after drawing
      the points `before`, becomes d0 after drawing them and then p. */
  method DrawNext(image: Image, p: Point, color: Color, ops: FloatOps, ghost d0: seq<byte>, ghost before: seq<Point>)
    requires image.Valid()
    requires image.data != null ==>
      Holds(d0, image.width, image.height, image.format) &&
      image.data[..] == PlotAll(d0, image.width, image.height, image.format, before, color, ops)
    modifies image.data
    ensures image.data != null ==>
      image.data[..] == PlotAll(d0, image.width, image.height, image.format, before + [p], color, ops)
  {
    DrawPixel(image, p.x, p.y, color, ops);
    if image.data != null {
      PlotAllSnoc(d0, image.width, image.height, image.format, before, p, color, ops);
    }
  }

  /** The eight Image_DrawPixel calls of one pass of Image_DrawCircle. */
  method DrawOctants(image: Image, centerX: int, centerY: int, x: int, y: int, color: Color, ops: FloatOps,
                     ghost d0: seq<byte>, ghost before: seq<Point>)
    requires image.Valid()
    requires image.data != null ==>
      Holds(d0, image.width, image.height, image.format) &&
      image.data[..] == PlotAll(d0, image.width, image.height, image.format, before, color, ops)
    modifies image.data
    ensures image.data != null ==>
      image.data[..] == PlotAll(d0, image.width, image.height, image.format,
                                before + Octants(centerX, centerY, x, y), color, ops)
  {
    ghost var drawn := before;
    DrawNext(image, Point(centerX + x, centerY + y), color, ops, d0, drawn);
    drawn := drawn + [Point(centerX + x, centerY + y)];
    DrawNext(image, Point(centerX - x, centerY + y), color, ops, d0, drawn);
    drawn := drawn + [Point(centerX - x, centerY + y)];
    DrawNext(image, Point(centerX + x, centerY - y), color, ops, d0, drawn);
    drawn := drawn + [Point(centerX + x, centerY - y)];
    DrawNext(image, Point(centerX - x, centerY - y), color, ops, d0, drawn);
    drawn := drawn + [Point(centerX - x, centerY - y)];
    DrawNext(image, Point(centerX + y, centerY + x), color, ops, d0, drawn);
    drawn := drawn + [Point(centerX + y, centerY + x)];
    DrawNext(image, Point(centerX - y, centerY + x), color, ops, d0, drawn);
    drawn := drawn + [Point(centerX - y, centerY + x)];
    DrawNext(image, Point(centerX + y, centerY - x), color, ops, d0, drawn);
    drawn := drawn + [Point(centerX + y, centerY - x)];
    DrawNext(image, Point(centerX - y, centerY - x), color, ops, d0, drawn);
    drawn := drawn + [Point(centerX - y, centerY - x)];
    assert drawn == before + Octants(centerX, centerY, x, y);
  }

  /** One pass of the loop of Image_DrawCircle: the eight pixels of arc point
      (x, y) are drawn, and the loop state takes one step, keeping the decision
      value equal to its closed form. */
  method CirclePass(image: Image, centerX: int, centerY: int, radius: int, x: int, y: int, decesionParameter: int,
                    color: Color, ops: FloatOps, ghost d0: seq<byte>, ghost drawn: seq<Point>)
    returns (x': int, y': int, decesionParameter': int)
    requires image.Valid() && Reached(radius, Arc(x, y, decesionParameter))
    requires image.data != null ==>
      Holds(d0, image.width, image.height, image.format) &&
      image.data[..] == PlotAll(d0, image.width, image.height, image.format, drawn, color, ops)
    modifies image.data
    ensures Arc(x', y', decesionParameter') == ArcStep(Arc(x, y, decesionParameter))
    ensures Reached(radius, Arc(x', y', decesionParameter'))
    ensures image.data != null ==>
      image.data[..] == PlotAll(d0, image.width, image.height, image.format,
                                drawn + Octants(centerX, centerY, x, y), color, ops)
  {
    DrawOctants(image, centerX, centerY, x, y, color, ops, d0, drawn);
    x', y', decesionParameter' := x + 1, y, decesionParameter;
    if decesionParameter' > 0 {
      y' := y' - 1;
      decesionParameter' := decesionParameter' + 4 * (x' - y') + 10;
    } else {
      decesionParameter' := decesionParameter' + 4 * x' + 6;
    }
    ArcStepReached(radius, Arc(x, y, decesionParameter));
  }

  /** Image_DrawCircle. */
  method DrawCircle(image: Image, centerX: int, centerY: int, radius: int, color: Color, ops: FloatOps)
    requires image.Valid()
    modifies image.data
    ensures image.data != null ==>
      Holds(old(image.data[..]), image.width, image.height, image.format) &&
      image.data[..] == PlotAll(old(image.data[..]), image.width, image.height, image.format,
                                CirclePoints(centerX, centerY, radius), color, ops)
  {
    ghost var d0 := image.Contents();
    var x, y := 0, radius;
    var decesionParameter := 3 - 2 * radius;
    ghost var drawn: seq<Point> := [];
    while y >= x
      invariant Reached(radius, Arc(x, y, decesionParameter))
      invariant drawn + CircleFrom(centerX, centerY, Arc(x, y, decesionParameter)) == CirclePoints(centerX, centerY, radius)
      invariant image.data != null ==>
        Holds(d0, image.width, image.height, image.format) &&
        image.data[..] == PlotAll(d0, image.width, image.height, image.format, drawn, color, ops)
      decreases y - x
    {
      ghost var a := Arc(x, y, decesionParameter);
      ghost var octants := Octants(centerX, centerY, x, y);
      ghost var rest := CircleFrom(centerX, centerY, ArcStep(a));
      assert CircleFrom(centerX, centerY, a) == octants + rest;
      assert (drawn + octants) + rest == drawn + (octants + rest);
      x, y, decesionParameter := CirclePass(image, centerX, centerY, radius, x, y, decesionParameter, color, ops, d0, drawn);
      drawn := drawn + octants;
    }
    assert CircleFrom(centerX, centerY, Arc(x, y, decesionParameter)) == [];
    assert drawn + [] == drawn;
  }
}
