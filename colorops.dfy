/** The colour operations that work on a `Color` array: Image_ColorInvert,
    Image_ColorBrightness, Image_ColorReplace and Image_AlphaPremultiply. Each one
    decodes the base level with LoadImageColors, edits the colours, installs the
    array as an R8G8B8A8 buffer and re-encodes it with Image_SetFormat to the
    original format. */
module ColorOps {
  import opened Bytes
  import opened PixelFormats
  import opened Colors
  import opened Images
  import opened Formatting

  /** The colours LoadImageColors gives for the base level of an image with pixels. */
  function ColorsOf(image: Image, ops: FloatOps): seq<Color>
    requires image.Valid() && !image.Empty()
    reads image, image.data
  {
    LoadedColors(image.Contents(), image.width * image.height, image.format, ops)
  }

  /** Decoding an R8G8B8A8 buffer and laying the colours out again gives the bytes
      of the base level back. */
  lemma {:induction false} FlattenLoaded(d: seq<byte>, n: nat, ops: FloatOps)
    requires 4 * n <= |d|
    ensures Flatten(LoadedColors(d, n, R8G8B8A8, ops)) == d[..4 * n]
  {
    var cs := LoadedColors(d, n, R8G8B8A8, ops);
    var s := Flatten(cs);
    forall k | 0 <= k < 4 * n
      ensures s[k] == d[k]
    {
      var i, j := k / 4, k % 4;
      assert k == 4 * i + j;
      assert cs[i] == Color(d[4 * i], d[4 * i + 1], d[4 * i + 2], d[4 * i + 3]);
    }
  }

  // ---------------------------------------------------------------------------
  // The shared pixel loop and the shared tail
  // ---------------------------------------------------------------------------

  /** The pixel loop of the colour operations: every colour is replaced by its
      image under `f`. The nested y/x loops of the source visit index
      `y*width + x` in increasing order, which is this scan. */
  method MapColors(pixels: array<Color>, f: Color -> Color)
    modifies pixels
    ensures forall k | 0 <= k < pixels.Length :: pixels[k] == f(old(pixels[k]))
  {
    for i := 0 to pixels.Length
      invariant forall k | 0 <= k < i :: pixels[k] == f(old(pixels[k]))
      invariant forall k | i <= k < pixels.Length :: pixels[k] == old(pixels[k])
    {
      pixels[i] := f(pixels[i]);
    }
  }

  /** `image->data = pixels`: the colour array read as R8G8B8A8 bytes. */
  method ColorBytes(pixels: array<Color>) returns (buf: array<byte>)
    ensures fresh(buf) && buf[..] == Flatten(pixels[..])
  {
    buf := new byte[4 * pixels.Length](k reads pixels requires 0 <= k < 4 * pixels.Length => Channel(pixels[k / 4], k % 4));
    assert buf[..] == Flatten(pixels[..]);
  }

  /** The original formats Image_SetFormat converts the R8G8B8A8 result back to:
      every other uncompressed format. For R8G8B8A8 itself, for 0 and for the
      compressed formats it does nothing, and the result stays R8G8B8A8. */
  predicate ReencodedBack(format: int)
  {
    format != 0 && format != R8G8B8A8 && format < Dxt1Rgb
  }

  /** Storing a w x h result back stays defined: where Image_SetFormat converts it
      back to the original format and regenerates a mipmap chain, the chain's
      generation does (see `MipsDefined`). */
  predicate StoresBackDefined(format: int, mipmaps: int, w: nat, h: nat)
  {
    ReencodedBack(format) && IsUncompressed(format) && mipmaps > 1 && w >= 1 && h >= 1 ==> MipsDefined(w, h)
  }

  /** The size and format a colour operation leaves: the given size, and the original
      format when it is converted back, R8G8B8A8 otherwise. */
  predicate Reshaped(image: Image, w: nat, h: nat, format: int)
    reads image
  {
    image.width == w && image.height == h &&
    image.format == (if ReencodedBack(format) then format else R8G8B8A8)
  }

  /** The image holds the colours cs of a w x h base level: as R8G8B8A8 bytes when the
      original format is not converted back, otherwise re-encoded to that format by
      Image_SetFormat, with the mipmap chain regenerated for an image that had one. */
  predicate StoredBack(image: Image, w: nat, h: nat, format: int, mipmaps: int, cs: seq<Color>, ops: FloatOps)
    reads image, image.data
  {
    Reshaped(image, w, h, format) && w >= 1 && h >= 1 &&
    if !ReencodedBack(format) then
      image.mipmaps == mipmaps && image.Contents() == Flatten(cs)
    else
      var base := PixelDataSize(w, h, format);
      image.data != null && base <= image.data.Length &&
      image.data[..base] == Fit(ops.reformat(Flatten(cs), w, h, R8G8B8A8, format), base) &&
      (mipmaps <= 1 ==> image.mipmaps == mipmaps && image.data.Length == base) &&
      (mipmaps > 1 ==> image.mipmaps == MipLevels(w, h) && image.data.Length == MipChainSize(w, h, format, MipLevels(w, h)))
  }

  /** The tail every colour operation shares: free the buffer, install the colour
      array as a w x h R8G8B8A8 image and call Image_SetFormat with the format the
      image had. */
  method AdoptColors(image: Image, pixels: array<Color>, w: nat, h: nat, ops: FloatOps)
    requires w >= 1 && h >= 1 && pixels.Length == w * h
    requires StoresBackDefined(image.format, image.mipmaps, w, h)
    modifies image
    ensures image.Valid() && Reshaped(image, w, h, old(image.format))
    ensures image.data != null ==> fresh(image.data)
    ensures !ReencodedBack(old(image.format)) || IsUncompressed(old(image.format)) ==>
      StoredBack(image, w, h, old(image.format), old(image.mipmaps), pixels[..], ops)
  {
    var format := image.format;
    var buf := ColorBytes(pixels);
    image.data := buf;
    image.width, image.height := w, h;
    image.format := R8G8B8A8;
    UncompressedSize(w, h, R8G8B8A8);
    SetFormat(image, format, ops);
  }

  // ---------------------------------------------------------------------------
  // Image_ColorInvert
  // ---------------------------------------------------------------------------

  /** Red, green and blue become 255 minus themselves; alpha is kept. */
  function InvertColor(c: Color): Color
  {
    Color(255 - c.r, 255 - c.g, 255 - c.b, c.a)
  }

  /** Every colour inverted. */
  function Inverted(cs: seq<Color>): (r: seq<Color>)
  {
    seq(|cs|, i requires 0 <= i < |cs| => InvertColor(cs[i]))
  }

  /** Inverting is its own inverse, and keeps alpha. */
  lemma {:induction false} InvertedTwice(cs: seq<Color>)
    ensures Inverted(Inverted(cs)) == cs
    ensures forall i | 0 <= i < |cs| :: Inverted(cs)[i].a == cs[i].a
  {
    var r := Inverted(Inverted(cs));
    assert |r| == |cs|;
    forall i | 0 <= i < |cs|
      ensures r[i] == cs[i]
    {
      assert Inverted(cs)[i] == InvertColor(cs[i]);
    }
  }

  /** The bytes Image_ColorInvert leaves in an R8G8B8A8 image of n pixels. */
  function InvertedBytes(d: seq<byte>, n: nat, ops: FloatOps): (r: seq<byte>)
    requires 4 * n <= |d|
  {
    Flatten(Inverted(LoadedColors(d, n, R8G8B8A8, ops)))
  }

  /** Inverting an R8G8B8A8 image twice gives its base level back, byte for byte. */
  lemma {:induction false} InvertTwiceRestores(d: seq<byte>, n: nat, ops: FloatOps)
    requires 4 * n <= |d|
    ensures |InvertedBytes(d, n, ops)| == 4 * n
    ensures InvertedBytes(InvertedBytes(d, n, ops), n, ops) == d[..4 * n]
  {
    var cs := LoadedColors(d, n, R8G8B8A8, ops);
    FlattenRoundTrip(Inverted(cs), ops);
    InvertedTwice(cs);
    FlattenLoaded(d, n, ops);
  }

  /** Image_ColorInvert. An image without pixels is left alone. Otherwise the base
      level holds the inverted colours, stored back in the original format. */
  method ColorInvert(image: Image, ops: FloatOps)
    requires image.Valid()
    requires !image.Empty() ==> StoresBackDefined(image.format, image.mipmaps, image.width, image.height)
    modifies image
    ensures old(image.Empty()) ==> unchanged(image)
    ensures !old(image.Empty()) ==> Reshaped(image, old(image.width), old(image.height), old(image.format))
    ensures !old(image.Empty()) && IsUncompressed(old(image.format)) ==>
      StoredBack(image, old(image.width), old(image.height), old(image.format), old(image.mipmaps),
                 Inverted(old(ColorsOf(image, ops))), ops)
  {
    if image.Empty() {
      return;
    }
    var pixels := LoadColors(image, ops);
    MapColors(pixels, InvertColor);
    assert IsUncompressed(image.format) ==> pixels[..] == Inverted(ColorsOf(image, ops));
    AdoptColors(image, pixels, image.width, image.height, ops);
  }

  // ---------------------------------------------------------------------------
  // Image_ColorBrightness
  // ---------------------------------------------------------------------------

  /** The brightness offset, limited to -255..255. */
  function ClampOffset(brightness: int): (b: int)
    ensures -255 <= b <= 255
    ensures -255 <= brightness <= 255 ==> b == brightness
    ensures brightness < -255 ==> b == -255
    ensures brightness > 255 ==> b == 255
  {
    if brightness < -255 then -255 else if brightness > 255 then 255 else brightness
  }

  /** One channel plus the offset, as written: a sum above 255 becomes 255 and a sum
      below 0 becomes 1. */
  function BrightChannel(v: byte, b: int): byte
  {
    var s := v as int + b;
    if s < 0 then 1 else if s > 255 then 255 else s
  }

  /** The same with the floor the saturation evidently intends: below 0 becomes 0. */
  function BrightChannelFixed(v: byte, b: int): byte
  {
    var s := v as int + b;
    if s < 0 then 0 else if s > 255 then 255 else s
  }

  /** As written, the channel is not monotone in its input: with offset -1 a channel
      of 0 becomes 1 while a channel of 1 becomes 0. The corrected one gives 0 to
      both. */
  lemma BrightnessFloor()
    ensures BrightChannel(0, -1) == 1 && BrightChannel(1, -1) == 0
    ensures BrightChannelFixed(0, -1) == 0 && BrightChannelFixed(1, -1) == 0
  {
  }

  /** The corrected channel is the sum saturated to 0..255: it is monotone in the
      channel and in the offset, and differs from the one as written only on sums
      below 0. */
  lemma {:induction false} BrightChannelFixedSaturates(v: byte, v': byte, b: int, b': int)
    requires v <= v' && b <= b'
    ensures BrightChannelFixed(v, b) <= BrightChannelFixed(v', b')
    ensures v as int + b >= 0 ==> BrightChannel(v, b) == BrightChannelFixed(v, b)
    ensures v as int + b < 0 ==> BrightChannel(v, b) == 1 && BrightChannelFixed(v, b) == 0
  {
  }

  /** An offset that does not saturate is undone by the opposite offset, as
      written and corrected alike, and the offset 0 changes no channel. */
  lemma {:induction false} BrightChannelUndo(v: byte, b: int)
    requires 0 <= v as int + b <= 255
    ensures BrightChannel(BrightChannel(v, b), -b) == v
    ensures BrightChannelFixed(BrightChannelFixed(v, b), -b) == v
    ensures BrightChannel(v, 0) == v
  {
  }

  /** A colour with the offset added to red, green and blue, saturated as written
      (see `BrightnessFloor`); alpha is kept. */
  function Brighten(c: Color, b: int): Color
  {
    Color(BrightChannel(c.r, b), BrightChannel(c.g, b), BrightChannel(c.b, b), c.a)
  }

  /** Every colour with the clamped offset added. */
  function Brightened(cs: seq<Color>, brightness: int): seq<Color>
  {
    var b := ClampOffset(brightness);
    seq(|cs|, i requires 0 <= i < |cs| => Brighten(cs[i], b))
  }

  /** Brightening keeps alpha; when no channel saturates, brightening by the
      opposite offset restores every colour. */
  lemma BrightenedUndo(cs: seq<Color>, b: int)
    requires -255 <= b <= 255
    requires forall i | 0 <= i < |cs| ::
      0 <= cs[i].r as int + b <= 255 && 0 <= cs[i].g as int + b <= 255 && 0 <= cs[i].b as int + b <= 255
    ensures |Brightened(cs, b)| == |cs|
    ensures forall i | 0 <= i < |cs| :: Brightened(cs, b)[i].a == cs[i].a
    ensures Brightened(Brightened(cs, b), -b) == cs
  {
    var once := Brightened(cs, b);
    forall i | 0 <= i < |cs|
      ensures Brightened(once, -b)[i] == cs[i]
    {
      BrightChannelUndo(cs[i].r, b);
      BrightChannelUndo(cs[i].g, b);
      BrightChannelUndo(cs[i].b, b);
    }
  }

  /** Image_ColorBrightness. An image without pixels is left alone. Otherwise the
      base level holds the brightened colours, stored back in the original format. */
  method ColorBrightness(image: Image, brightness: int, ops: FloatOps)
    requires image.Valid()
    requires !image.Empty() ==> StoresBackDefined(image.format, image.mipmaps, image.width, image.height)
    modifies image
    ensures old(image.Empty()) ==> unchanged(image)
    ensures !old(image.Empty()) ==> Reshaped(image, old(image.width), old(image.height), old(image.format))
    ensures !old(image.Empty()) && IsUncompressed(old(image.format)) ==>
      StoredBack(image, old(image.width), old(image.height), old(image.format), old(image.mipmaps),
                 Brightened(old(ColorsOf(image, ops)), brightness), ops)
  {
    if image.Empty() {
      return;
    }
    var b := ClampOffset(brightness);
    var pixels := LoadColors(image, ops);
    MapColors(pixels, c => Brighten(c, b));
    assert IsUncompressed(image.format) ==> pixels[..] == Brightened(ColorsOf(image, ops), brightness);
    AdoptColors(image, pixels, image.width, image.height, ops);
  }

  // ---------------------------------------------------------------------------
  // Image_ColorReplace
  // ---------------------------------------------------------------------------

  /** A colour equal to `color` in all four channels becomes `replace`; any other
      colour is kept. */
  function ReplaceColor(c: Color, color: Color, replace: Color): Color
  {
    if c == color then replace else c
  }

  /** Every colour with `color` replaced. */
  function Replaced(cs: seq<Color>, color: Color, replace: Color): seq<Color>
  {
    seq(|cs|, i requires 0 <= i < |cs| => ReplaceColor(cs[i], color, replace))
  }

  /** After a replacement no pixel has the matched colour (unless it is its own
      replacement), the matched pixels hold the replacement, and every other pixel
      is unchanged. */
  lemma {:induction false} ReplacedExactly(cs: seq<Color>, color: Color, replace: Color)
    ensures |Replaced(cs, color, replace)| == |cs|
    ensures color != replace ==> color !in Replaced(cs, color, replace)
    ensures forall i | 0 <= i < |cs| && cs[i] == color :: Replaced(cs, color, replace)[i] == replace
    ensures forall i | 0 <= i < |cs| && cs[i] != color :: Replaced(cs, color, replace)[i] == cs[i]
  {
    var r := Replaced(cs, color, replace);
    forall i | 0 <= i < |r|
      ensures color != replace ==> r[i] != color
    {
      assert r[i] == ReplaceColor(cs[i], color, replace);
    }
  }

  /** Replacing back restores the colours, when the replacement colour did not occur
      before. */
  lemma {:induction false} ReplaceBack(cs: seq<Color>, color: Color, replace: Color)
    requires replace !in cs
    ensures Replaced(Replaced(cs, color, replace), replace, color) == cs
  {
    var r := Replaced(Replaced(cs, color, replace), replace, color);
    forall i | 0 <= i < |cs|
      ensures r[i] == cs[i]
    {
      assert cs[i] in cs;
      assert Replaced(cs, color, replace)[i] == ReplaceColor(cs[i], color, replace);
    }
  }

  /** Image_ColorReplace. An image without pixels is left alone. Otherwise the base
      level holds the colours with `color` replaced, stored back in the original
      format. */
  method ColorReplace(image: Image, color: Color, replace: Color, ops: FloatOps)
    requires image.Valid()
    requires !image.Empty() ==> StoresBackDefined(image.format, image.mipmaps, image.width, image.height)
    modifies image
    ensures old(image.Empty()) ==> unchanged(image)
    ensures !old(image.Empty()) ==> Reshaped(image, old(image.width), old(image.height), old(image.format))
    ensures !old(image.Empty()) && IsUncompressed(old(image.format)) ==>
      StoredBack(image, old(image.width), old(image.height), old(image.format), old(image.mipmaps),
                 Replaced(old(ColorsOf(image, ops)), color, replace), ops)
  {
    if image.Empty() {
      return;
    }
    var pixels := LoadColors(image, ops);
    MapColors(pixels, c => ReplaceColor(c, color, replace));
    assert IsUncompressed(image.format) ==> pixels[..] == Replaced(ColorsOf(image, ops), color, replace);
    AdoptColors(image, pixels, image.width, image.height, ops);
  }

  // ---------------------------------------------------------------------------
  // Image_AlphaPremultiply
  // ---------------------------------------------------------------------------

  /** A fully transparent colour loses its red, green and blue; a partly transparent
      one has them scaled by alpha/255 in float; an opaque one is kept. Alpha is
      always kept. */
  function Premultiply(c: Color, ops: FloatOps): Color
  {
    if c.a == 0 then Color(0, 0, 0, 0)
    else if c.a < 255 then
      Color(ops.premultiply(c.r, c.a), ops.premultiply(c.g, c.a), ops.premultiply(c.b, c.a), c.a)
    else c
  }

  /** Every colour premultiplied. */
  function Premultiplied(cs: seq<Color>, ops: FloatOps): seq<Color>
  {
    seq(|cs|, i requires 0 <= i < |cs| => Premultiply(cs[i], ops))
  }

  /** Premultiplying keeps every alpha, turns transparent colours into `Blank`,
      keeps opaque ones, and a second premultiply changes none of the transparent
      or opaque pixels again. */
  lemma {:induction false} PremultipliedExtremes(cs: seq<Color>, ops: FloatOps)
    ensures |Premultiplied(cs, ops)| == |cs|
    ensures forall i | 0 <= i < |cs| :: Premultiplied(cs, ops)[i].a == cs[i].a
    ensures forall i | 0 <= i < |cs| && cs[i].a == 0 :: Premultiplied(cs, ops)[i] == Blank
    ensures forall i | 0 <= i < |cs| && cs[i].a == 255 :: Premultiplied(cs, ops)[i] == cs[i]
    ensures forall i | 0 <= i < |cs| && (cs[i].a == 0 || cs[i].a == 255) ::
      Premultiplied(Premultiplied(cs, ops), ops)[i] == Premultiplied(cs, ops)[i]
  {
    var p := Premultiplied(cs, ops);
    forall i | 0 <= i < |cs|
      ensures p[i] == Premultiply(cs[i], ops) && p[i].a == cs[i].a
      ensures Premultiplied(p, ops)[i] == Premultiply(p[i], ops)
    {
    }
  }

  /** Image_AlphaPremultiply. An image without pixels is left alone. Otherwise the
      base level holds the premultiplied colours, stored back in the original
      format. */
  method AlphaPremultiply(image: Image, ops: FloatOps)
    requires image.Valid()
    requires !image.Empty() ==> StoresBackDefined(image.format, image.mipmaps, image.width, image.height)
    modifies image
    ensures old(image.Empty()) ==> unchanged(image)
    ensures !old(image.Empty()) ==> Reshaped(image, old(image.width), old(image.height), old(image.format))
    ensures !old(image.Empty()) && IsUncompressed(old(image.format)) ==>
      StoredBack(image, old(image.width), old(image.height), old(image.format), old(image.mipmaps),
                 Premultiplied(old(ColorsOf(image, ops)), ops), ops)
  {
    if image.Empty() {
      return;
    }
    var pixels := LoadColors(image, ops);
    MapColors(pixels, c => Premultiply(c, ops));
    assert IsUncompressed(image.format) ==> pixels[..] == Premultiplied(ColorsOf(image, ops), ops);
    AdoptColors(image, pixels, image.width, image.height, ops);
  }
}
