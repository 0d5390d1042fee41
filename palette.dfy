/** The colour queries over a whole image: LoadImagePalette, which collects the
    distinct visible colours, and GetImageColor, which reads one pixel. */
module Palette {
  import opened Bytes
  import opened PixelFormats
  import opened Colors
  import opened Images
  import opened ColorOps

  // ---------------------------------------------------------------------------
  // LoadImagePalette
  // ---------------------------------------------------------------------------

  /** The palette after the first k pixels: each pixel with a non-zero alpha that
      is not in it yet is appended, while it holds fewer than max colours. */
  function PaletteOf(cs: seq<Color>, max: nat, k: nat): (p: seq<Color>)
    requires k <= |cs|
    ensures |p| <= max
  {
    if k == 0 then []
    else
      var p := PaletteOf(cs, max, k - 1);
      if |p| < max && cs[k - 1].a > 0 && cs[k - 1] !in p then p + [cs[k - 1]] else p
  }

  /** The palette holds distinct visible colours of the image, and while it is not
      full every visible colour among the first k pixels is in it. */
  lemma {:induction false} PaletteSound(cs: seq<Color>, max: nat, k: nat)
    requires k <= |cs|
    ensures var p := PaletteOf(cs, max, k);
      (forall i, j | 0 <= i < j < |p| :: p[i] != p[j]) &&
      (forall i | 0 <= i < |p| :: p[i].a > 0 && p[i] in cs[..k]) &&
      (|p| < max ==> forall j | 0 <= j < k && cs[j].a > 0 :: cs[j] in p)
  {
    if k > 0 {
      PaletteSound(cs, max, k - 1);
      var p0 := PaletteOf(cs, max, k - 1);
      assert cs[..k] == cs[..k - 1] + [cs[k - 1]];
      forall c | c in p0
        ensures c in PaletteOf(cs, max, k)
      {
      }
    }
  }

  /** Once the palette is full, later pixels no longer change it. */
  lemma {:induction false} PaletteFull(cs: seq<Color>, max: nat, k: nat, k': nat)
    requires k <= k' <= |cs| && |PaletteOf(cs, max, k)| >= max
    ensures PaletteOf(cs, max, k') == PaletteOf(cs, max, k)
    decreases k' - k
  {
    if k < k' {
      PaletteFull(cs, max, k, k' - 1);
    }
  }

  /** The search loop of LoadImagePalette: whether the colour is among the max
      entries of the palette. */
  method InPalette(palette: array<Color>, c: Color) returns (found: bool)
    ensures found <==> c in palette[..]
  {
    found := false;
    for j := 0 to palette.Length
      invariant found <==> c in palette[..j]
    {
      if c == palette[j] {
        found := true;
        return;
      }
    }
  }

  /** LoadImagePalette over an array of n colours: a palette of maxPaletteSize
      entries, all `Blank` to start with, and the count of entries filled. */
  method CollectPalette(pixels: array<Color>, maxPaletteSize: nat) returns (palette: array<Color>, count: nat)
    requires maxPaletteSize >= 1
    ensures fresh(palette) && palette.Length == maxPaletteSize && count <= maxPaletteSize
    ensures palette[..count] == PaletteOf(pixels[..], maxPaletteSize, pixels.Length)
    ensures forall j | count <= j < palette.Length :: palette[j] == Blank
  {
    ghost var cs := pixels[..];
    palette := new Color[maxPaletteSize](_ => Blank);
    count := 0;
    var i := 0;
    while i < pixels.Length
      invariant i <= pixels.Length && count <= maxPaletteSize
      invariant i < pixels.Length ==> count < maxPaletteSize
      invariant palette[..count] == PaletteOf(cs, maxPaletteSize, i)
      invariant forall j | count <= j < palette.Length :: palette[j] == Blank
    {
      if pixels[i].a > 0 {
        var found := InPalette(palette, pixels[i]);
        assert found <==> pixels[i] in palette[..count] by {
          assert palette[..] == palette[..count] + palette[count..];
          assert pixels[i] !in palette[count..];
        }
        if !found {
          ghost var before := palette[..count];
          palette[count] := pixels[i];
          assert palette[..count + 1] == before + [pixels[i]];
          count := count + 1;
          if count >= maxPaletteSize {
            PaletteFull(cs, maxPaletteSize, i + 1, pixels.Length);
            i := pixels.Length;
            continue;
          }
        }
      }
      i := i + 1;
    }
  }

  /** LoadImagePalette. An image without pixels gives no palette and a count of 0.
      Otherwise the palette has maxPaletteSize entries: first the distinct colours
      with a non-zero alpha, in the order they first appear, up to maxPaletteSize
      of them, then `Blank`. */
  method LoadPalette(image: Image, maxPaletteSize: nat, ops: FloatOps) returns (palette: array?<Color>, count: nat)
    requires image.Valid() && maxPaletteSize >= 1
    requires image.width > 0 && image.height > 0 && IsUncompressed(image.format) ==> image.data != null
    ensures image.width == 0 || image.height == 0 ==> palette == null && count == 0
    ensures image.width > 0 && image.height > 0 ==>
      palette != null && fresh(palette) && palette.Length == maxPaletteSize && count <= maxPaletteSize &&
      forall j | count <= j < maxPaletteSize :: palette[j] == Blank
    ensures !image.Empty() && IsUncompressed(image.format) ==>
      palette != null && count <= palette.Length &&
      palette[..count] == PaletteOf(ColorsOf(image, ops), maxPaletteSize, image.width * image.height)
  {
    var pixels := LoadColors(image, ops);
    if pixels == null {
      return null, 0;
    }
    palette, count := CollectPalette(pixels, maxPaletteSize);
  }

  // ---------------------------------------------------------------------------
  // GetImageColor
  // ---------------------------------------------------------------------------

  /** GetImageColor on a buffer holding w x h pixels of the format: the colour of
      pixel (x, y), or `Blank` outside the image or in a format it cannot read. */
  function PixelColor(data: seq<byte>, w: nat, h: nat, format: int, x: int, y: int, ops: FloatOps): (c: Color)
    requires IsUncompressed(format) ==> w * h * BytesPerPixel(format) <= |data|
    ensures !(0 <= x < w && 0 <= y < h) ==> c == Blank
  {
    if 0 <= x < w && 0 <= y < h then
      var bpp := BytesPerPixel(format);
      GridCell(y, x, w, h, bpp);
      assert (y * w + x + 1) * bpp == (y * w + x) * bpp + bpp;
      ImageColorAt(data, y * w + x, format, ops)
    else Blank
  }

  /** GetImageColor on an image. */
  function GetImageColor(image: Image, x: int, y: int, ops: FloatOps): (c: Color)
    requires image.Valid() && image.data != null
    reads image, image.data
    ensures !(0 <= x < image.width && 0 <= y < image.height) ==> c == Blank
  {
    PixelColor(image.Contents(), image.width, image.height, image.format, x, y, ops)
  }

  /** GetImageColor and the colours LoadImageColors decodes agree on every pixel
      inside the image in every uncompressed format but R32; in R32 every colour
      LoadImageColors decodes is GetImageColor's colour of pixel (0, 0). */
  lemma {:induction false} GetImageColorLoaded(image: Image, x: int, y: int, ops: FloatOps)
    requires image.Valid() && !image.Empty() && IsUncompressed(image.format)
    requires 0 <= x < image.width && 0 <= y < image.height
    ensures y * image.width + x < |ColorsOf(image, ops)|
    ensures image.format != R32 ==> GetImageColor(image, x, y, ops) == ColorsOf(image, ops)[y * image.width + x]
    ensures image.format == R32 ==> GetImageColor(image, 0, 0, ops) == ColorsOf(image, ops)[y * image.width + x]
  {
    var w, h, f := image.width, image.height, image.format;
    var d := image.Contents();
    GridCell(y, x, w, h, BytesPerPixel(f));
    var i := y * w + x;
    LoadedMatchesImageColor(d, i, f, ops);
    assert ColorsOf(image, ops)[i] == LoadedPixel(d, i, f, ops);
    if f == R32 {
      assert GetImageColor(image, 0, 0, ops) == ImageColorAt(d, 0, f, ops) by {
        assert 0 * w + 0 == 0;
      }
    } else {
      assert GetImageColor(image, x, y, ops) == ImageColorAt(d, i, f, ops);
    }
  }
}
