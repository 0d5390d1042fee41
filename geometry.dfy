/** The geometric operations on the base level of an uncompressed image: each one
    allocates a new buffer, fills it with copies of pixel cells (or of whole rows)
    from the old buffer, and swaps it in. Each is proved against the grid
    transform of the Grids module that it performs on `View()`. */
module Geometry {
  import opened Bytes
  import opened PixelFormats
  import opened Grids
  import opened Colors
  import opened Images

  // ---------------------------------------------------------------------------
  // Copying cells
  // ---------------------------------------------------------------------------

  /** The per-pixel byte loop: cell p of src becomes cell q of dst; every other cell
      of dst keeps its bytes. */
  method CopyCell(dst: array<byte>, q: nat, src: array<byte>, p: nat, bpp: nat)
    requires dst != src && q * bpp + bpp <= dst.Length && p * bpp + bpp <= src.Length
    modifies dst
    ensures Cell(dst[..], q, bpp) == Cell(src[..], p, bpp)
    ensures forall o: nat | o != q :: Cell(dst[..], o, bpp) == Cell(old(dst[..]), o, bpp)
  {
    ghost var before := dst[..];
    CopyBytes(dst, q * bpp, src, p * bpp, bpp);
    forall o: nat | o != q
      ensures Cell(dst[..], o, bpp) == Cell(before, o, bpp)
    {
      if o < q {
        MulLe(o + 1, q, bpp);
      } else {
        MulLe(q + 1, o, bpp);
      }
      CellFrame(dst[..], before, q * bpp, q * bpp + bpp, o, bpp);
    }
  }

  /** Cell D(y, x) of dst holds cell S(y, x) of src for every position of the scan. */
  predicate Mapped(dst: seq<byte>, src: seq<byte>, h: nat, w: nat, bpp: nat, D: (nat, nat) -> nat, S: (nat, nat) -> nat)
  {
    forall y: nat, x: nat | y < h && x < w :: Cell(dst, D(y, x), bpp) == Cell(src, S(y, x), bpp)
  }

  /** The nested y/x scan over an h x w grid that copies cell S(y, x) of src to
      cell D(y, x) of dst. D must send distinct positions to distinct cells. */
  method MapCells(dst: array<byte>, src: array<byte>, h: nat, w: nat, bpp: nat,
                  D: (nat, nat) -> nat, S: (nat, nat) -> nat)
    requires dst != src
    requires CellsFit(D, h, w, bpp, dst.Length) && CellsFit(S, h, w, bpp, src.Length)
    requires Injective(D, h, w)
    modifies dst
    ensures Mapped(dst[..], src[..], h, w, bpp, D, S)
  {
    for y := 0 to h
      invariant forall yy: nat, xx: nat | yy < y && xx < w :: Cell(dst[..], D(yy, xx), bpp) == Cell(src[..], S(yy, xx), bpp)
    {
      for x := 0 to w
        invariant forall yy: nat, xx: nat | xx < w && (yy < y || (yy == y && xx < x)) ::
                    Cell(dst[..], D(yy, xx), bpp) == Cell(src[..], S(yy, xx), bpp)
      {
        CopyCell(dst, D(y, x), src, S(y, x), bpp);
      }
    }
  }

  /** Where the scan position (y, x) sits in a row-major buffer w cells wide. */
  function RowMajor(w: nat): (nat, nat) -> nat
  {
    (y: nat, x: nat) => y * w + x
  }

  /** The position mirrored within its row of w cells. */
  function Mirrored(w: nat): (nat, nat) -> nat
  {
    (y: nat, x: nat) => if x < w then y * w + (w - 1 - x) else 0
  }

  /** Where Image_RotateCW writes scan position (y, x) of an h-high image. */
  function TurnedCW(h: nat): (nat, nat) -> nat
  {
    (y: nat, x: nat) => if y < h then x * h + (h - 1 - y) else 0
  }

  /** Where Image_RotateCCW writes scan position (y, x) of an h-high image. */
  function TurnedCCW(h: nat): (nat, nat) -> nat
  {
    (y: nat, x: nat) => x * h + y
  }

  /** A placement of the h x w scan whose targets lie in an H x W buffer of cells. */
  predicate Fits(F: (nat, nat) -> nat, h: nat, w: nat, n: nat)
  {
    forall y: nat, x: nat | y < h && x < w :: F(y, x) < n
  }

  /** Every target cell of the scan lies inside a buffer of len bytes. */
  predicate CellsFit(F: (nat, nat) -> nat, h: nat, w: nat, bpp: nat, len: nat)
  {
    forall y: nat, x: nat | y < h && x < w :: F(y, x) * bpp + bpp <= len
  }

  /** Distinct scan positions have distinct targets. */
  predicate Injective(F: (nat, nat) -> nat, h: nat, w: nat)
  {
    forall y1: nat, x1: nat, y2: nat, x2: nat | y1 < h && x1 < w && y2 < h && x2 < w && F(y1, x1) == F(y2, x2) ::
      y1 == y2 && x1 == x2
  }

  lemma ScanFits(F: (nat, nat) -> nat, h: nat, w: nat, n: nat, bpp: nat, len: nat)
    requires Fits(F, h, w, n) && n * bpp <= len
    ensures CellsFit(F, h, w, bpp, len)
  {
    forall y: nat, x: nat | y < h && x < w
      ensures F(y, x) * bpp + bpp <= len
    {
      CellBefore(F(y, x), n, bpp);
    }
  }

  /** The scans of the flips: row-major targets, and mirrored sources. */
  lemma FlipPlacements(w: nat, h: nat)
    ensures Fits(RowMajor(w), h, w, w * h) && Fits(Mirrored(w), h, w, w * h)
    ensures Injective(RowMajor(w), h, w)
  {
    forall y: nat, x: nat | y < h && x < w
      ensures RowMajor(w)(y, x) < w * h && Mirrored(w)(y, x) < w * h
    {
      GridCell(y, x, w, h, 1);
      GridCell(y, w - 1 - x, w, h, 1);
    }
    forall y1: nat, x1: nat, y2: nat, x2: nat | y1 < h && x1 < w && y2 < h && x2 < w && RowMajor(w)(y1, x1) == RowMajor(w)(y2, x2)
      ensures y1 == y2 && x1 == x2
    {
      GridIndexUnique(y1, x1, y2, x2, w);
    }
  }

  /** The scans of the quarter turns: their targets cover an h-wide buffer once. */
  lemma TurnPlacements(w: nat, h: nat)
    ensures Fits(TurnedCW(h), h, w, h * w) && Fits(TurnedCCW(h), h, w, h * w)
    ensures Injective(TurnedCW(h), h, w) && Injective(TurnedCCW(h), h, w)
  {
    forall y: nat, x: nat | y < h && x < w
      ensures TurnedCW(h)(y, x) < h * w && TurnedCCW(h)(y, x) < h * w
    {
      GridCell(x, h - 1 - y, h, w, 1);
      GridCell(x, y, h, w, 1);
    }
    forall y1: nat, x1: nat, y2: nat, x2: nat | y1 < h && x1 < w && y2 < h && x2 < w && TurnedCW(h)(y1, x1) == TurnedCW(h)(y2, x2)
      ensures y1 == y2 && x1 == x2
    {
      GridIndexUnique(x1, h - 1 - y1, x2, h - 1 - y2, h);
    }
    forall y1: nat, x1: nat, y2: nat, x2: nat | y1 < h && x1 < w && y2 < h && x2 < w && TurnedCCW(h)(y1, x1) == TurnedCCW(h)(y2, x2)
      ensures y1 == y2 && x1 == x2
    {
      GridIndexUnique(x1, y1, x2, y2, h);
    }
  }

  /** The mirrored scan turns the grid of src into its horizontal flip. */
  lemma {:induction false} MirrorView(dst: seq<byte>, src: seq<byte>, w: nat, h: nat, bpp: nat)
    requires Mapped(dst, src, h, w, bpp, RowMajor(w), Mirrored(w))
    ensures Grid(dst, w, h, bpp) == FlipH(Grid(src, w, h, bpp))
  {
    var g := Grid(src, w, h, bpp);
    var d := Grid(dst, w, h, bpp);
    forall y | 0 <= y < h
      ensures d[y] == FlipH(g)[y]
    {
      forall x | 0 <= x < w
        ensures d[y][x] == FlipH(g)[y][x]
      {
        assert d[y][x] == Cell(dst, RowMajor(w)(y, x), bpp);
        assert g[y][w - 1 - x] == Cell(src, Mirrored(w)(y, x), bpp);
      }
    }
  }

  /** The clockwise scan turns the grid of src a quarter clockwise. */
  lemma {:induction false} TurnCWView(dst: seq<byte>, src: seq<byte>, w: nat, h: nat, bpp: nat)
    requires Mapped(dst, src, h, w, bpp, TurnedCW(h), RowMajor(w))
    ensures Grid(dst, h, w, bpp) == RotateCW(Grid(src, w, h, bpp), w, h)
  {
    var g := Grid(src, w, h, bpp);
    var d := Grid(dst, h, w, bpp);
    forall x | 0 <= x < w
      ensures d[x] == RotateCW(g, w, h)[x]
    {
      forall c | 0 <= c < h
        ensures d[x][c] == RotateCW(g, w, h)[x][c]
      {
        assert d[x][c] == Cell(dst, TurnedCW(h)(h - 1 - c, x), bpp);
        assert g[h - 1 - c][x] == Cell(src, RowMajor(w)(h - 1 - c, x), bpp);
      }
    }
  }

  /** The counter-clockwise scan turns the grid of src a quarter counter-clockwise. */
  lemma {:induction false} TurnCCWView(dst: seq<byte>, src: seq<byte>, w: nat, h: nat, bpp: nat)
    requires Mapped(dst, src, h, w, bpp, TurnedCCW(h), Mirrored(w))
    ensures Grid(dst, h, w, bpp) == RotateCCW(Grid(src, w, h, bpp), w, h)
  {
    var g := Grid(src, w, h, bpp);
    var d := Grid(dst, h, w, bpp);
    forall x | 0 <= x < w
      ensures d[x] == RotateCCW(g, w, h)[x]
    {
      forall c | 0 <= c < h
        ensures d[x][c] == RotateCCW(g, w, h)[x][c]
      {
        assert RotateCCW(g, w, h)[x][c] == g[c][w - 1 - x];
        assert d[x][c] == Cell(dst, TurnedCCW(h)(c, x), bpp);
        assert g[c][w - 1 - x] == Cell(src, Mirrored(w)(c, x), bpp);
      }
    }
  }

  /** Row r of dst holds row h-1-r of src, for every row: the grid is flipped. */
  lemma {:induction false} RowsReversedView(dst: seq<byte>, src: seq<byte>, w: nat, h: nat, bpp: nat)
    requires forall r: nat, c: nat | r < h && c < w :: Pixel(dst, r, c, w, bpp) == Pixel(src, h - 1 - r, c, w, bpp)
    ensures Grid(dst, w, h, bpp) == FlipV(Grid(src, w, h, bpp))
  {
    var g := Grid(src, w, h, bpp);
    var d := Grid(dst, w, h, bpp);
    forall y | 0 <= y < h
      ensures d[y] == FlipV(g)[y]
    {
      forall x | 0 <= x < w
        ensures d[y][x] == FlipV(g)[y][x]
      {
        assert d[y][x] == Pixel(dst, y, x, w, bpp);
      }
    }
  }

  // ---------------------------------------------------------------------------
  // Flips
  // ---------------------------------------------------------------------------

  /** The guard every geometric operation shares: nothing for an empty image or a
      compressed format. */
  predicate Applies(image: Image)
    reads image
  {
    !image.Empty() && !IsCompressed(image.format)
  }

  /** Image_FlipV: row h-1-i of the old buffer becomes row i, one memcpy per row. */
  method FlipVertical(image: Image)
    requires image.Valid()
    modifies image
    ensures !old(Applies(image)) ==> unchanged(image)
    ensures old(Applies(image)) ==>
      image.data != null && fresh(image.data) &&
      image.width == old(image.width) && image.height == old(image.height) &&
      image.format == old(image.format) && image.mipmaps == old(image.mipmaps) &&
      image.data.Length == image.width * image.height * BytesPerPixel(image.format) &&
      image.View() == FlipV(old(image.View()))
  {
    if !Applies(image) {
      return;
    }
    var w, h, bpp := image.width, image.height, BytesPerPixel(image.format);
    var src := image.data;
    MulNat(w * h, bpp);
    var flipped := new byte[w * h * bpp](_ => 0);
    for i := 0 to h
      modifies flipped
      invariant forall r: nat, c: nat | r < i && c < w :: Pixel(flipped[..], r, c, w, bpp) == Pixel(src[..], h - 1 - r, c, w, bpp)
    {
      // one memcpy of a whole row: row h-1-i of the source to row i
      CopyRows(flipped, w, h, 0, i, src, w, h, 0, h - 1 - i, 1, w, bpp);
    }
    RowsReversedView(flipped[..], src[..], w, h, bpp);
    image.data := flipped;
  }

  /** Image_FlipH: cell (y, w-1-x) of the old buffer becomes cell (y, x). */
  method FlipHorizontal(image: Image)
    requires image.Valid()
    modifies image
    ensures !old(Applies(image)) ==> unchanged(image)
    ensures old(Applies(image)) ==>
      image.data != null && fresh(image.data) &&
      image.width == old(image.width) && image.height == old(image.height) &&
      image.format == old(image.format) && image.mipmaps == old(image.mipmaps) &&
      image.data.Length == image.width * image.height * BytesPerPixel(image.format) &&
      image.View() == FlipH(old(image.View()))
  {
    if !Applies(image) {
      return;
    }
    var w, h, bpp := image.width, image.height, BytesPerPixel(image.format);
    var src := image.data;
    MulNat(w * h, bpp);
    var flipped := new byte[w * h * bpp](_ => 0);
    var D, S := RowMajor(w), Mirrored(w);
    FlipPlacements(w, h);
    ScanFits(D, h, w, w * h, bpp, flipped.Length);
    ScanFits(S, h, w, w * h, bpp, src.Length);
    MapCells(flipped, src, h, w, bpp, D, S);
    MirrorView(flipped[..], src[..], w, h, bpp);
    image.data := flipped;
  }

  // ---------------------------------------------------------------------------
  // Quarter turns
  // ---------------------------------------------------------------------------

  /** Image_RotateCW: old cell (y, x) is written at index x*h + (h-1-y) of a buffer
      h cells wide, and width and height swap. */
  method RotateClockwise(image: Image)
    requires image.Valid()
    modifies image
    ensures !old(Applies(image)) ==> unchanged(image)
    ensures old(Applies(image)) ==>
      image.data != null && fresh(image.data) &&
      image.width == old(image.height) && image.height == old(image.width) &&
      image.format == old(image.format) && image.mipmaps == old(image.mipmaps) &&
      image.data.Length == image.width * image.height * BytesPerPixel(image.format) &&
      image.View() == RotateCW(old(image.View()), old(image.width), old(image.height))
  {
    if !Applies(image) {
      return;
    }
    var w, h, bpp := image.width, image.height, BytesPerPixel(image.format);
    var src := image.data;
    MulNat(h * w, bpp);
    var rotated := new byte[h * w * bpp](_ => 0);
    var D, S := TurnedCW(h), RowMajor(w);
    TurnPlacements(w, h);
    FlipPlacements(w, h);
    ScanFits(D, h, w, h * w, bpp, rotated.Length);
    ScanFits(S, h, w, w * h, bpp, src.Length);
    MapCells(rotated, src, h, w, bpp, D, S);
    TurnCWView(rotated[..], src[..], w, h, bpp);
    image.data := rotated;
    image.width, image.height := h, w;
  }

  /** Image_RotateCCW: old cell (y, w-1-x) is written at index x*h + y of a buffer
      h cells wide, and width and height swap. */
  method RotateCounterClockwise(image: Image)
    requires image.Valid()
    modifies image
    ensures !old(Applies(image)) ==> unchanged(image)
    ensures old(Applies(image)) ==>
      image.data != null && fresh(image.data) &&
      image.width == old(image.height) && image.height == old(image.width) &&
      image.format == old(image.format) && image.mipmaps == old(image.mipmaps) &&
      image.data.Length == image.width * image.height * BytesPerPixel(image.format) &&
      image.View() == RotateCCW(old(image.View()), old(image.width), old(image.height))
  {
    if !Applies(image) {
      return;
    }
    var w, h, bpp := image.width, image.height, BytesPerPixel(image.format);
    var src := image.data;
    MulNat(h * w, bpp);
    var rotated := new byte[h * w * bpp](_ => 0);
    var D, S := TurnedCCW(h), Mirrored(w);
    TurnPlacements(w, h);
    FlipPlacements(w, h);
    ScanFits(D, h, w, h * w, bpp, rotated.Length);
    ScanFits(S, h, w, w * h, bpp, src.Length);
    MapCells(rotated, src, h, w, bpp, D, S);
    TurnCCWView(rotated[..], src[..], w, h, bpp);
    image.data := rotated;
    image.width, image.height := h, w;
  }

  // ---------------------------------------------------------------------------
  // Crop
  // ---------------------------------------------------------------------------

  function MaxInt(a: int, b: int): int { if a < b then b else a }
  function MinInt(a: int, b: int): int { if a < b then a else b }

  /** The rectangle Image_Crop works with: a negative origin moves to 0 and the size
      shrinks by as much, and a far edge past the image is pulled back to it. The
      result spans the intersection of the rectangle with the image on each axis. */
  function ClampCrop(crop: Rect, w: int, h: int): (c: Rect)
    ensures c.x == MaxInt(crop.x, 0) && c.x + c.width == MinInt(crop.x + crop.width, w)
    ensures c.y == MaxInt(crop.y, 0) && c.y + c.height == MinInt(crop.y + crop.height, h)
  {
    var r1 := if crop.x < 0 then Rect(0, crop.y, crop.width + crop.x, crop.height) else crop;
    var r2 := if r1.y < 0 then Rect(r1.x, 0, r1.width, r1.height + r1.y) else r1;
    var r3 := if r2.x + r2.width > w then Rect(r2.x, r2.y, w - r2.x, r2.height) else r2;
    if r3.y + r3.height > h then Rect(r3.x, r3.y, r3.width, h - r3.y) else r3
  }

  /** The clamped rectangle starts past the image: Image_Crop warns and stops. */
  predicate CropOutside(c: Rect, w: int, h: int)
  {
    c.x > w || c.y > h
  }

  /** The clamped rectangle of a crop that goes ahead has no negative size. A
      rectangle wholly to the left of or above the image clamps to a negative width
      or height. With one of them negative and the other positive, the buffer size
      handed to ASC_MALLOC is negative and the allocation ends the program; with one
      negative and the other 0, the size is 0, whose allocation the C library may
      answer with a valid pointer, leaving the image with one negative side; with
      both negative, the image is left with a negative width and height. */
  predicate CropDefined(image: Image, crop: Rect)
    reads image
  {
    var c := ClampCrop(crop, image.width, image.height);
    Applies(image) && !CropOutside(c, image.width, image.height) ==> c.width >= 0 && c.height >= 0
  }

  /** A crop that goes ahead keeps a rectangle lying inside the image. */
  lemma CropInside(crop: Rect, w: nat, h: nat)
    requires var c := ClampCrop(crop, w, h); !CropOutside(c, w, h) && c.width >= 0 && c.height >= 0
    ensures var c := ClampCrop(crop, w, h);
      0 <= c.x && c.x + c.width <= w && 0 <= c.y && c.y + c.height <= h
  {
  }

  /** Image_Crop: the image becomes the clamped rectangle of itself, copied one row
      per memcpy. The mipmap count is left as it was. */
  method Crop(image: Image, crop: Rect)
    requires image.Valid() && CropDefined(image, crop)
    modifies image
    ensures !old(Applies(image)) || CropOutside(ClampCrop(crop, old(image.width), old(image.height)), old(image.width), old(image.height))
            ==> unchanged(image)
    ensures old(Applies(image)) && !CropOutside(ClampCrop(crop, old(image.width), old(image.height)), old(image.width), old(image.height)) ==>
      var c := ClampCrop(crop, old(image.width), old(image.height));
      image.data != null && fresh(image.data) &&
      image.width == c.width && image.height == c.height &&
      image.format == old(image.format) && image.mipmaps == old(image.mipmaps) &&
      image.data.Length == c.width * c.height * BytesPerPixel(image.format) && image.Valid() &&
      image.View() == SubGrid(old(image.View()), c.x, c.y, c.width, c.height)
  {
    if image.Empty() {
      return;
    }
    var w, h := image.width, image.height;
    var c := ClampCrop(crop, w, h);
    if CropOutside(c, w, h) {
      return;
    }
    if IsCompressed(image.format) {
      return;
    }
    CropInside(crop, w, h);
    var bpp := BytesPerPixel(image.format);
    var src := image.data;
    var cx: nat, cy: nat, cw: nat, ch: nat := c.x, c.y, c.width, c.height;
    MulNat(cw, ch);
    MulNat(cw * ch, bpp);
    var cropped := new byte[cw * ch * bpp](_ => 0);
    CopyRows(cropped, cw, ch, 0, 0, src, w, h, cx, cy, ch, cw, bpp);
    BlockIsSubGrid(cropped[..], cw, ch, src[..], w, h, cx, cy, bpp);
    image.data := cropped;
    image.width, image.height := cw, ch;
    UncompressedSize(cw, ch, image.format);
  }

  // ---------------------------------------------------------------------------
  // Canvas resize
  // ---------------------------------------------------------------------------

  /** The run Image_ResizeCanvas copies along one axis: from `src` in the old image
      to `dst` in the new one, `len` cells long. */
  datatype Run = Run(src: int, dst: int, len: int)

  /** One axis of the source rectangle and destination position of
      Image_ResizeCanvas. The run is where the shifted old axis and the new axis
      overlap. */
  function CanvasAxis(size: int, newSize: int, offset: int): (a: Run)
    ensures a.dst == MaxInt(offset, 0) && a.src == a.dst - offset
    ensures a.dst + a.len == MinInt(offset + size, newSize)
  {
    var r :=
      if offset < 0 then Run(-offset, 0, size + offset)
      else if offset + size > newSize then Run(0, offset, newSize - offset)
      else Run(0, offset, size);
    if newSize < r.len then Run(r.src, r.dst, newSize) else r
  }

  /** A position of the new axis lies in the run exactly when it holds a cell of the
      shifted old axis. */
  lemma AxisCovers(size: int, newSize: int, offset: int, v: int)
    requires 0 <= v < newSize
    ensures var a := CanvasAxis(size, newSize, offset);
      a.dst <= v < a.dst + a.len <==> 0 <= v - offset < size
  {
  }

  /** Position v lies in the run of n positions from lo. */
  predicate InRun(v: int, lo: int, n: int)
  {
    lo <= v < lo + n
  }

  /** Position v holds a cell of a line of `size` cells shifted by `offset`. */
  predicate Reached(v: int, offset: int, size: int)
  {
    0 <= v - offset < size
  }

  /** The run of n positions from lo is where a line of `size` cells shifted by
      `offset` meets a line of `len` positions. */
  predicate SameRun(lo: int, n: int, offset: int, size: int, len: int)
  {
    forall v | 0 <= v < len :: InRun(v, lo, n) <==> Reached(v, offset, size)
  }

  /** The run of an axis covers exactly the positions the shifted axis reaches. */
  lemma AxisRun(size: int, newSize: int, offset: int)
    ensures var a := CanvasAxis(size, newSize, offset); SameRun(a.dst, a.len, offset, size, newSize)
  {
    var a := CanvasAxis(size, newSize, offset);
    forall v | 0 <= v < newSize
      ensures InRun(v, a.dst, a.len) <==> Reached(v, offset, size)
    {
      AxisCovers(size, newSize, offset, v);
    }
  }

  /** The rows of the copy run a memcpy of a negative length unless the column run
      has a length of at least 0. */
  predicate CanvasDefined(image: Image, newWidth: nat, newHeight: nat, offsetX: int, offsetY: int)
    reads image
  {
    CanvasAxis(image.height, newHeight, offsetY).len > 0 ==> CanvasAxis(image.width, newWidth, offsetX).len >= 0
  }

  /** The bytes of a cell of the zeroed buffer. */
  function ZeroCell(bpp: nat): seq<byte>
  {
    seq(bpp, _ => 0)
  }

  /** A block copied into a zeroed canvas over exactly the positions the shifted old
      grid covers makes the canvas the shifted grid with zero cells elsewhere. */
  lemma {:induction false} CanvasView(dst: seq<byte>, src: seq<byte>, w: nat, h: nat, nw: nat, nh: nat,
                                      offX: int, offY: int, bpp: nat,
                                      dx: nat, dy: nat, rows: nat, cols: nat, sx: nat, sy: nat)
    requires w * h * bpp <= |src| && nw * nh * bpp <= |dst|
    requires BlockCopied(dst, nw, dx, dy, src, w, sx, sy, rows, cols, bpp)
    requires OutsideKept(dst, seq(|dst|, _ => 0), nw, nh, dx, dy, rows, cols, bpp)
    requires SameRun(dy, rows, offY, h, nh)
    requires rows > 0 ==> SameRun(dx, cols, offX, w, nw)
    requires rows > 0 && cols > 0 ==> sx == dx - offX && sy == dy - offY
    ensures Grid(dst, nw, nh, bpp) == Shifted(Grid(src, w, h, bpp), w, h, nw, nh, offX, offY, ZeroCell(bpp))
  {
    var g := Grid(src, w, h, bpp);
    var d := Grid(dst, nw, nh, bpp);
    var z := seq(|dst|, _ => 0);
    var e := Shifted(g, w, h, nw, nh, offX, offY, ZeroCell(bpp));
    forall r | 0 <= r < nh
      ensures d[r] == e[r]
    {
      forall c | 0 <= c < nw
        ensures d[r][c] == e[r][c]
      {
        if 0 <= r - offY < h && 0 <= c - offX < w {
          assert InRun(r, dy, rows) && Reached(r, offY, h);
          assert InRun(c, dx, cols) && Reached(c, offX, w);
          assert Pixel(dst, r, c, nw, bpp) == Pixel(src, r - dy + sy, c - dx + sx, w, bpp);
        } else {
          assert !(InRun(r, dy, rows) && InRun(c, dx, cols)) by {
            assert Reached(r, offY, h) <==> InRun(r, dy, rows);
            if rows > 0 {
              assert Reached(c, offX, w) <==> InRun(c, dx, cols);
            }
          }
          GridCells(z, nw, nh, bpp, r, c);
          assert Pixel(dst, r, c, nw, bpp) == Pixel(z, r, c, nw, bpp);
        }
      }
    }
  }

  /** Image_ResizeCanvas: a zeroed nw x nh buffer receives, one memcpy per row, the
      part of the old image that lands on it at (offsetX, offsetY). The `fill`
      colour is never written. Nothing happens when the size does not change. */
  method ResizeCanvas(image: Image, newWidth: nat, newHeight: nat, offsetX: int, offsetY: int, fill: Color)
    requires image.Valid() && CanvasDefined(image, newWidth, newHeight, offsetX, offsetY)
    modifies image
    ensures !old(Applies(image)) || (newWidth == old(image.width) && newHeight == old(image.height)) ==> unchanged(image)
    ensures old(Applies(image)) && (newWidth != old(image.width) || newHeight != old(image.height)) ==>
      image.data != null && fresh(image.data) &&
      image.width == newWidth && image.height == newHeight &&
      image.format == old(image.format) && image.mipmaps == old(image.mipmaps) &&
      image.data.Length == newWidth * newHeight * BytesPerPixel(image.format) &&
      image.View() == Shifted(old(image.View()), old(image.width), old(image.height), newWidth, newHeight,
                              offsetX, offsetY, ZeroCell(BytesPerPixel(image.format)))
  {
    if !Applies(image) || (newWidth == image.width && newHeight == image.height) {
      return;
    }
    var w, h, bpp := image.width, image.height, BytesPerPixel(image.format);
    var src := image.data;
    var across := CanvasAxis(w, newWidth, offsetX);
    var down := CanvasAxis(h, newHeight, offsetY);
    MulNat(newWidth * newHeight, bpp);
    var resized := new byte[newWidth * newHeight * bpp](_ => 0);
    ghost var zeros := resized[..];
    var dx: nat, dy: nat, rows: nat, cols: nat, sx: nat, sy: nat := 0, 0, 0, 0, 0, 0;
    if down.len > 0 {
      dx, dy, rows, cols, sx, sy := across.dst, down.dst, down.len, across.len, across.src, down.src;
    }
    CopyRows(resized, newWidth, newHeight, dx, dy, src, w, h, sx, sy, rows, cols, bpp);
    assert zeros == seq(resized.Length, _ => 0);
    AxisRun(h, newHeight, offsetY);
    AxisRun(w, newWidth, offsetX);
    CanvasView(resized[..], src[..], w, h, newWidth, newHeight, offsetX, offsetY, bpp, dx, dy, rows, cols, sx, sy);
    image.data := resized;
    image.width, image.height := newWidth, newHeight;
  }
}
