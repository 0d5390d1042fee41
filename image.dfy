/** The CPU-side `Image`: a pixel buffer with its size, mipmap count and pixel
    format, with the operations that create an image (Image_Gen, Image_Copy,
    Image_FromImage) and the decoder that turns a buffer into colours
    (LoadImageColors). */
module Images {
  import opened Bytes
  import opened PixelFormats
  import opened Colors
  import opened Grids

  /** An image held in CPU memory. `data` is null when the image has no pixels. */
  class Image {
    var data: array?<byte>
    var width: nat
    var height: nat
    var mipmaps: int
    var format: int

    constructor (data: array?<byte>, width: nat, height: nat, mipmaps: int, format: int)
      ensures this.data == data && this.width == width && this.height == height
      ensures this.mipmaps == mipmaps && this.format == format
    {
      this.data := data;
      this.width := width;
      this.height := height;
      this.mipmaps := mipmaps;
      this.format := format;
    }

    /** The security check every operation starts with: nothing to work on. */
    predicate Empty()
      reads this
    {
      data == null || width == 0 || height == 0
    }

    /** A buffer, when there is one, holds at least the base level (for an
        uncompressed format, `width*height` pixels). */
    predicate Valid()
      reads this
    {
      data != null ==>
        PixelDataSize(width, height, format) <= data.Length &&
        (!IsCompressed(format) ==> width * height * BytesPerPixel(format) <= data.Length)
    }

    /** The bytes of the buffer. */
    function Contents(): seq<byte>
      reads this, data
    {
      if data == null then [] else data[..]
    }

    /** The base level seen as `height` rows of `width` cells. */
    function View(): seq<seq<seq<byte>>>
      reads this, data
    {
      Grid(Contents(), width, height, BytesPerPixel(format))
    }
  }

  /** A rectangle with integral corner and size. */
  datatype Rect = Rect(x: int, y: int, width: int, height: int)

  /** Byte j of a `Color` as it is laid out in memory: r, g, b, a. */
  function Channel(c: Color, j: int): byte
  {
    if j == 0 then c.r else if j == 1 then c.g else if j == 2 then c.b else c.a
  }

  /** An array of `Color` seen as the bytes of an R8G8B8A8 buffer. */
  function Flatten(cs: seq<Color>): (s: seq<byte>)
    ensures |s| == 4 * |cs|
  {
    seq(4 * |cs|, k requires 0 <= k < 4 * |cs| => Channel(cs[k / 4], k % 4))
  }

  /** Pixel i of an n-pixel buffer as LoadImageColors decodes it; formats it does
      not decode give `Blank`. */
  function LoadedAt(data: seq<byte>, n: nat, i: nat, format: int, ops: FloatOps): Color
    requires i < n
    requires IsUncompressed(format) ==> n * BytesPerPixel(format) <= |data|
  {
    CellBefore(i, n, BytesPerPixel(format));
    if IsUncompressed(format) then LoadedPixel(data, i, format, ops) else Blank
  }

  /** The n colours LoadImageColors decodes from a buffer. */
  function LoadedColors(data: seq<byte>, n: nat, format: int, ops: FloatOps): (cs: seq<Color>)
    requires IsUncompressed(format) ==> n * BytesPerPixel(format) <= |data|
    ensures |cs| == n
  {
    seq(n, i requires 0 <= i < n => LoadedAt(data, n, i, format, ops))
  }

  /** Decoding the bytes of a colour array as R8G8B8A8 gives the array back. */
  lemma {:induction false} FlattenRoundTrip(cs: seq<Color>, ops: FloatOps)
    ensures 4 * |cs| == |Flatten(cs)|
    ensures LoadedColors(Flatten(cs), |cs|, R8G8B8A8, ops) == cs
  {
    var s := Flatten(cs);
    var d := LoadedColors(s, |cs|, R8G8B8A8, ops);
    forall i | 0 <= i < |cs|
      ensures d[i] == cs[i]
    {
      assert (4 * i) / 4 == i && (4 * i + 1) / 4 == i && (4 * i + 2) / 4 == i && (4 * i + 3) / 4 == i;
      assert s[4 * i] == cs[i].r && s[4 * i + 1] == cs[i].g;
      assert s[4 * i + 2] == cs[i].b && s[4 * i + 3] == cs[i].a;
    }
  }

  /** The bytes Image_Copy copies: every mipmap level the image declares. */
  function ChainOf(image: Image): nat
    reads image
  {
    MipChainSize(image.width, image.height, image.format, if image.mipmaps < 0 then 0 else image.mipmaps)
  }

  /** The mip chain of at least one level holds the base level. */
  lemma ChainHoldsBase(w: nat, h: nat, format: int, n: nat)
    requires n >= 1
    ensures PixelDataSize(w, h, format) <= MipChainSize(w, h, format, n)
  {
  }

  /** The grid of a buffer depends only on its first w*h cells. */
  lemma {:induction false} GridOfPrefix(s: seq<byte>, t: seq<byte>, w: nat, h: nat, bpp: nat)
    requires w * h * bpp <= |s| && w * h * bpp <= |t|
    requires s[..w * h * bpp] == t[..w * h * bpp]
    ensures Grid(s, w, h, bpp) == Grid(t, w, h, bpp)
  {
    var n := w * h * bpp;
    var a, b := Grid(s, w, h, bpp), Grid(t, w, h, bpp);
    forall y | 0 <= y < h
      ensures a[y] == b[y]
    {
      forall x | 0 <= x < w
        ensures a[y][x] == b[y][x]
      {
        CellOfPrefix(s, t, w, h, bpp, y, x);
      }
    }
  }

  lemma {:induction false} CellOfPrefix(s: seq<byte>, t: seq<byte>, w: nat, h: nat, bpp: nat, y: nat, x: nat)
    requires w * h * bpp <= |s| && w * h * bpp <= |t|
    requires s[..w * h * bpp] == t[..w * h * bpp]
    requires y < h && x < w
    ensures Pixel(s, y, x, w, bpp) == Pixel(t, y, x, w, bpp)
  {
    GridCells(s, w, h, bpp, y, x);
    GridCells(t, w, h, bpp, y, x);
    GridCell(y, x, w, h, bpp);
    var p := (y * w + x) * bpp;
    SliceOfPrefix(s, t, w * h * bpp, p, p + bpp);
  }

  /** Image_Gen: a width x height R8G8B8A8 image of one colour. */
  method Gen(width: nat, height: nat, color: Color) returns (image: Image)
    ensures fresh(image) && fresh(image.data) && image.data != null
    ensures image.width == width && image.height == height
    ensures image.format == R8G8B8A8 && image.mipmaps == 1
    ensures image.Contents() == Flatten(seq(width * height, _ => color))
  {
    var buf := new byte[4 * (width * height)](_ => 0);
    for i := 0 to width * height
      invariant forall k | 0 <= k < 4 * i :: buf[k] == Channel(color, k % 4)
    {
      buf[4 * i] := color.r;
      buf[4 * i + 1] := color.g;
      buf[4 * i + 2] := color.b;
      buf[4 * i + 3] := color.a;
    }
    image := new Image(buf, width, height, 1, R8G8B8A8);
    ghost var want := Flatten(seq(width * height, _ => color));
    assert buf[..] == want by {
      forall k | 0 <= k < buf.Length
        ensures buf[k] == want[k]
      {
      }
    }
  }

  /** Image_Copy: a new image with a copy of every declared mipmap level. */
  method Copy(image: Image) returns (copy: Image)
    requires ChainOf(image) == 0 || (image.data != null && ChainOf(image) <= image.data.Length)
    ensures fresh(copy) && fresh(copy.data) && copy.data != null
    ensures copy.width == image.width && copy.height == image.height
    ensures copy.mipmaps == image.mipmaps && copy.format == image.format
    ensures copy.Contents() == image.Contents()[..ChainOf(image)]
    ensures image.mipmaps >= 1 && !IsCompressed(image.format) ==> copy.View() == image.View()
  {
    var size := CopySize(image.width, image.height, image.format, image.mipmaps);
    var buf := new byte[size](_ => 0);
    if size > 0 {
      CopyBytes(buf, 0, image.data, 0, size);
    }
    copy := new Image(buf, image.width, image.height, image.mipmaps, image.format);
    if image.mipmaps >= 1 && !IsCompressed(image.format) {
      var bpp := BytesPerPixel(image.format);
      var n := image.width * image.height * bpp;
      ChainHoldsBase(image.width, image.height, image.format, image.mipmaps);
      UncompressedSize(image.width, image.height, image.format);
      assert buf[..n] == image.Contents()[..n];
      GridOfPrefix(buf[..], image.Contents(), image.width, image.height, bpp);
    }
  }

  /** A sub-grid covering the whole grid is the grid. */
  lemma {:induction false} WholeSubGrid<T>(g: seq<seq<T>>, w: nat, h: nat)
    requires IsGrid(g, w, h)
    ensures SubGrid(g, 0, 0, w, h) == g
  {
    var s := SubGrid(g, 0, 0, w, h);
    forall y | 0 <= y < h
      ensures s[y] == g[y]
    {
      assert s[y] == g[y][0 .. w];
    }
  }

  /** Image_FromImage: a new image holding the rectangle `rec` of `image`. The
      function does not check the rectangle; it must lie inside the image. */
  method FromImage(image: Image, rec: Rect) returns (result: Image)
    requires image.data != null
    requires 0 <= rec.x && 0 <= rec.y && 0 <= rec.width && 0 <= rec.height
    requires rec.x + rec.width <= image.width && rec.y + rec.height <= image.height
    requires image.width * image.height * BytesPerPixel(image.format) <= image.data.Length
    ensures fresh(result) && fresh(result.data) && result.data != null
    ensures result.width == rec.width && result.height == rec.height
    ensures result.format == image.format && result.mipmaps == 1
    ensures result.data.Length == rec.width * rec.height * BytesPerPixel(image.format)
    ensures result.View() == SubGrid(image.View(), rec.x, rec.y, rec.width, rec.height)
  {
    var bpp := BytesPerPixel(image.format);
    var w, rw, rh := image.width, rec.width, rec.height;
    var src := image.data;
    var buf := new byte[rw * rh * bpp](_ => 0);
    CopyRows(buf, rw, rh, 0, 0, src, w, image.height, rec.x, rec.y, rh, rw, bpp);
    result := new Image(buf, rw, rh, 1, image.format);
    BlockIsSubGrid(buf[..], rw, rh, src[..], w, image.height, rec.x, rec.y, bpp);
  }

  /** The read index of LoadImageColors before pixel i, counted in bytes: the
      formats that read at k and advance it move it by one pixel; the others, R32
      among them, leave it at 0. */
  function ReadIndex(format: int, i: nat): nat
  {
    if format == GrayAlpha then 2 * i
    else if format == R8G8B8A8 then 4 * i
    else if format == R8G8B8 then 3 * i
    else if format == R32G32B32 then 12 * i
    else if format == R32G32B32A32 then 16 * i
    else 0
  }

  /** One pass of the LoadImageColors switch: pixel i, read at index k. The R32
      case reads at k but never advances it (see `Colors.LoadedR32ReadsFirstPixel`). */
  method DecodeStep(d: array<byte>, n: nat, i: nat, k: nat, f: int, ops: FloatOps) returns (c: Color, next: nat)
    requires i < n && IsUncompressed(f) && n * BytesPerPixel(f) <= d.Length
    requires k == ReadIndex(f, i)
    ensures c == LoadedAt(d[..], n, i, f, ops)
    ensures next == ReadIndex(f, i + 1)
  {
    CellBefore(i, n, BytesPerPixel(f));
    BytesPerPixelTable(f);
    next := k;
    if f == Grayscale {
      c := Color(d[i], d[i], d[i], 255);
    } else if f == GrayAlpha {
      c := Color(d[k], d[k], d[k], d[k + 1]);
      next := k + 2;
    } else if f == R5G5B5A1 || f == R5G6B5 || f == R4G4B4A4 {
      c := LoadedPacked(Word(d[2 * i], d[2 * i + 1]), f);
    } else if f == R8G8B8A8 {
      c := Color(d[k], d[k + 1], d[k + 2], d[k + 3]);
      next := k + 4;
    } else if f == R8G8B8 {
      c := Color(d[k], d[k + 1], d[k + 2], 255);
      next := k + 3;
    } else if f == R32 {
      c := Color(ops.floatToByte(d[k .. k + 4]), 0, 0, 255);
    } else if f == R32G32B32 {
      c := Color(ops.floatToByte(d[k .. k + 4]), ops.floatToByte(d[k + 4 .. k + 8]),
                 ops.floatToByte(d[k + 8 .. k + 12]), 255);
      next := k + 12;
    } else {
      var v := ops.floatToByte(d[k .. k + 4]);
      c := Color(v, v, v, v);
      next := k + 16;
    }
  }

  /** LoadImageColors: the pixels of the base level as colours. No array for an
      image without pixels; for compressed and unknown formats the array is left as
      allocated. */
  method LoadColors(image: Image, ops: FloatOps) returns (pixels: array?<Color>)
    requires image.Valid()
    requires image.width > 0 && image.height > 0 && IsUncompressed(image.format) ==> image.data != null
    ensures image.width == 0 || image.height == 0 ==> pixels == null
    ensures image.width > 0 && image.height > 0 ==>
      pixels != null && fresh(pixels) && pixels.Length == image.width * image.height
    ensures image.width > 0 && image.height > 0 && IsUncompressed(image.format) ==>
      pixels != null && pixels[..] == LoadedColors(image.Contents(), image.width * image.height, image.format, ops)
  {
    if image.width == 0 || image.height == 0 {
      return null;
    }
    var n := image.width * image.height;
    pixels := new Color[n](_ => Blank);
    if !IsUncompressed(image.format) {
      return;
    }
    var f := image.format;
    var d := image.data;
    var k := 0;
    for i := 0 to n
      invariant k == ReadIndex(f, i)
      invariant forall j | 0 <= j < i :: pixels[j] == LoadedAt(d[..], n, j, f, ops)
    {
      var c;
      c, k := DecodeStep(d, n, i, k, f, ops);
      pixels[i] := c;
    }
  }
}
