/** Pixel formats, the bits-per-pixel table, the byte size of a W x H image in a
    format (Color_GetPixelDataSize) and the sizes of a mipmap chain. */
module PixelFormats {

  import opened Bytes

  // The pixel-format tags, in raylib's enumeration order.
  const Grayscale := 1
  const GrayAlpha := 2
  const R5G6B5 := 3
  const R8G8B8 := 4
  const R5G5B5A1 := 5
  const R4G4B4A4 := 6
  const R8G8B8A8 := 7
  const R32 := 8
  const R32G32B32 := 9
  const R32G32B32A32 := 10
  const Dxt1Rgb := 11
  const Dxt1Rgba := 12
  const Dxt3Rgba := 13
  const Dxt5Rgba := 14
  const Etc1Rgb := 15
  const Etc2Rgb := 16
  const Etc2EacRgba := 17
  const PvrtRgb := 18
  const PvrtRgba := 19
  const Astc4x4Rgba := 20
  const Astc8x8Rgba := 21

  /** The engine's test for block-compressed data: `format >= DXT1_RGB`. */
  predicate IsCompressed(format: int)
  {
    format >= Dxt1Rgb
  }

  /** The uncompressed formats the codec has a case for. */
  predicate IsUncompressed(format: int)
  {
    Grayscale <= format <= R32G32B32A32
  }

  /** The bits-per-pixel table; unknown tags (such as 0) have 0 bits. */
  function BitsPerPixel(format: int): nat
  {
    if format == Grayscale then 8
    else if format == GrayAlpha || format == R5G6B5 || format == R5G5B5A1 || format == R4G4B4A4 then 16
    else if format == R8G8B8A8 then 32
    else if format == R8G8B8 then 24
    else if format == R32 then 32
    else if format == R32G32B32 then 32 * 3
    else if format == R32G32B32A32 then 32 * 4
    else if format == Dxt1Rgb || format == Dxt1Rgba || format == Etc1Rgb || format == Etc2Rgb
         || format == PvrtRgb || format == PvrtRgba then 4
    else if format == Dxt3Rgba || format == Dxt5Rgba || format == Etc2EacRgba || format == Astc4x4Rgba then 8
    else if format == Astc8x8Rgba then 2
    else 0
  }

  /** Color_GetPixelDataSize: width*height*bpp/8, raised to one whole block for
      block-compressed images smaller than 4 x 4. */
  function PixelDataSize(width: nat, height: nat, format: int): nat
  {
    if width < 4 && height < 4 && Dxt1Rgb <= format < Dxt3Rgba then 8
    else if width < 4 && height < 4 && Dxt3Rgba <= format < Astc8x8Rgba then 16
    else width * height * BitsPerPixel(format) / 8
  }

  /** The `bytesPerPixel` every geometric operation computes as PixelDataSize(1, 1, format). */
  function BytesPerPixel(format: int): nat
  {
    PixelDataSize(1, 1, format)
  }

  /** Each uncompressed format stores whole bytes per pixel: 1, 2, 3, 4, 12 or 16. */
  lemma BytesPerPixelTable(format: int)
    ensures format == Grayscale ==> BytesPerPixel(format) == 1
    ensures format in {GrayAlpha, R5G6B5, R5G5B5A1, R4G4B4A4} ==> BytesPerPixel(format) == 2
    ensures format == R8G8B8 ==> BytesPerPixel(format) == 3
    ensures format in {R8G8B8A8, R32} ==> BytesPerPixel(format) == 4
    ensures format == R32G32B32 ==> BytesPerPixel(format) == 12
    ensures format == R32G32B32A32 ==> BytesPerPixel(format) == 16
    ensures !IsUncompressed(format) && !IsCompressed(format) ==> BytesPerPixel(format) == 0
  {
  }

  /** For every format that is not block-compressed the size is the pixel count
      times the per-pixel size, so a flat buffer is w*h cells of bytesPerPixel bytes. */
  lemma UncompressedSize(width: nat, height: nat, format: int)
    requires !IsCompressed(format)
    ensures PixelDataSize(width, height, format) == width * height * BytesPerPixel(format)
  {
    var n := width * height;
    var k := BitsPerPixel(format) / 8;
    assert BitsPerPixel(format) == 8 * k;
    assert n * BitsPerPixel(format) == (n * k) * 8;
    assert width * height * BitsPerPixel(format) / 8 == n * k;
  }

  /** The minimum-block rule: below 4 x 4 both DXT1 formats take 8 bytes and the
      formats from DXT3 through ASTC 4x4 take 16; ASTC 8x8 and every other format keep
      the plain product. */
  lemma SmallBlockSizes(width: nat, height: nat, format: int)
    requires width < 4 && height < 4
    ensures format in {Dxt1Rgb, Dxt1Rgba} ==> PixelDataSize(width, height, format) == 8
    ensures Dxt3Rgba <= format <= Astc4x4Rgba ==> PixelDataSize(width, height, format) == 16
    ensures !(Dxt1Rgb <= format <= Astc4x4Rgba) ==>
              PixelDataSize(width, height, format) == width * height * BitsPerPixel(format) / 8
  {
  }

  /** The minimum block never allocates less than the plain product would. */
  lemma SmallBlockCovers(width: nat, height: nat, format: int)
    ensures PixelDataSize(width, height, format) >= width * height * BitsPerPixel(format) / 8
  {
    if width < 4 && height < 4 && Dxt1Rgb <= format < Astc8x8Rgba {
      MulMono3(width, height, BitsPerPixel(format), 3, 3, 8);
    }
  }

  lemma MulMono3(a: nat, b: nat, c: nat, a2: nat, b2: nat, c2: nat)
    requires a <= a2 && b <= b2 && c <= c2
    ensures a * b * c <= a2 * b2 * c2
  {
    assert a * b <= a2 * b;
    assert a2 * b <= a2 * b2;
    assert (a * b) * c <= (a2 * b2) * c;
    assert (a2 * b2) * c <= (a2 * b2) * c2;
  }

  /** Size never decreases when a dimension grows. */
  lemma SizeMonotone(w1: nat, h1: nat, w2: nat, h2: nat, format: int)
    requires !IsCompressed(format)
    requires w1 <= w2 && h1 <= h2
    ensures PixelDataSize(w1, h1, format) <= PixelDataSize(w2, h2, format)
  {
    UncompressedSize(w1, h1, format);
    UncompressedSize(w2, h2, format);
    MulMono3(w1, h1, BytesPerPixel(format), w2, h2, BytesPerPixel(format));
  }

  // ---------------------------------------------------------------------------
  // Mipmap chains
  // ---------------------------------------------------------------------------

  /** One halving step of a mip dimension: `d /= 2; if (d < 1) d = 1;`. */
  function MipNext(d: nat): nat
  {
    if d / 2 < 1 then 1 else d / 2
  }

  /** The number of levels from (w, h) down to 1 x 1, both included; the counting
      loop of Image_GenMipmaps. */
  function MipLevels(w: nat, h: nat): nat
    requires w >= 1 && h >= 1
    decreases w + h
  {
    if w == 1 && h == 1 then 1 else 1 + MipLevels(MipNext(w), MipNext(h))
  }

  /** The byte size of the first `n` levels of the chain starting at (w, h). */
  function MipChainSize(w: nat, h: nat, format: int, n: nat): nat
    decreases n
  {
    if n == 0 then 0 else PixelDataSize(w, h, format) + MipChainSize(MipNext(w), MipNext(h), format, n - 1)
  }

  /** Dimension of level k: max(d / 2^k, 1). */
  function MipDim(d: nat, k: nat): nat
  {
    if d / Pow2(k) < 1 then 1 else d / Pow2(k)
  }

  function FloorLog2(n: nat): nat
    requires n >= 1
  {
    if n == 1 then 0 else 1 + FloorLog2(n / 2)
  }

  function Max(a: nat, b: nat): nat
  {
    if a >= b then a else b
  }

  /** Halving the larger dimension halves the maximum. */
  lemma MipNextMax(w: nat, h: nat)
    requires w >= 1 && h >= 1
    ensures Max(MipNext(w), MipNext(h)) == MipNext(Max(w, h))
  {
  }

  /** The chain from (w, h) has 1 + floor(log2(max(w, h))) levels. */
  lemma {:induction false} MipLevelsLog(w: nat, h: nat)
    requires w >= 1 && h >= 1
    ensures MipLevels(w, h) == 1 + FloorLog2(Max(w, h))
    decreases w + h
  {
    if w == 1 && h == 1 {
    } else {
      MipLevelsLog(MipNext(w), MipNext(h));
      MipNextMax(w, h);
    }
  }

  /** Level d/2^(k+1) is the halving of level d/2^k. */
  lemma {:induction false} MipDimStep(d: nat, k: nat)
    requires d >= 1
    ensures MipDim(d, k + 1) == MipNext(MipDim(d, k))
  {
    DivDiv(d, Pow2(k));
  }

  lemma DivDiv(d: nat, p: nat)
    requires p >= 1
    ensures d / (2 * p) == (d / p) / 2
  {
    var q := d / p;
    var r := d % p;
    var q2 := q / 2;
    var m := q % 2;
    assert q == 2 * q2 + m;
    calc {
      d;
      q * p + r;
      (2 * q2 + m) * p + r;
      { assert (2 * q2 + m) * p == q2 * (2 * p) + m * p; }
      q2 * (2 * p) + (m * p + r);
    }
    assert m * p <= p by { MulAtMostOne(m, p); }
    DivUnique(d, 2 * p, q2, m * p + r);
  }

  lemma MulAtMostOne(m: nat, p: nat)
    requires m <= 1
    ensures m * p <= p
  {
  }

  /** A dimension after k halving steps. */
  function MipAfter(d: nat, k: nat): nat
    decreases k
  {
    if k == 0 then d else MipAfter(MipNext(d), k - 1)
  }

  /** The first k + n levels are the first k levels followed by the n levels that
      start at level k. */
  lemma {:induction false} MipChainShift(w: nat, h: nat, format: int, k: nat, n: nat)
    ensures MipChainSize(w, h, format, k + n)
         == MipChainSize(w, h, format, k) + MipChainSize(MipAfter(w, k), MipAfter(h, k), format, n)
    decreases k
  {
    if k > 0 {
      MipChainShift(MipNext(w), MipNext(h), format, k - 1, n);
    }
  }

  /** k halving steps give max(d / 2^k, 1). */
  lemma {:induction false} MipAfterClosedForm(d: nat, k: nat)
    requires d >= 1
    ensures MipAfter(d, k) == MipDim(d, k)
    decreases k
  {
    if k == 0 {
      assert MipDim(d, 0) == d;
    } else {
      MipAfterClosedForm(MipNext(d), k - 1);
      MipDimShift(d, k - 1);
    }
  }

  /** The last level of the chain is 1 x 1: after MipLevels - 1 halvings both
      dimensions are 1. */
  lemma {:induction false} MipChainEndsAtOne(w: nat, h: nat)
    requires w >= 1 && h >= 1
    ensures MipAfter(w, MipLevels(w, h) - 1) == 1 && MipAfter(h, MipLevels(w, h) - 1) == 1
    decreases w + h
  {
    if !(w == 1 && h == 1) {
      MipChainEndsAtOne(MipNext(w), MipNext(h));
    }
  }

  /** Halving once and then k more times is halving k + 1 times. */
  lemma {:induction false} MipDimShift(d: nat, k: nat)
    requires d >= 1
    ensures MipDim(MipNext(d), k) == MipDim(d, k + 1)
    decreases k
  {
    if k == 0 {
      MipDimStep(d, 0);
    } else {
      MipDimShift(d, k - 1);
      MipDimStep(MipNext(d), k - 1);
      MipDimStep(d, k);
    }
  }

  /** The size loop of Image_Copy: sums PixelDataSize over `mipmaps` levels. */
  method CopySize(width: nat, height: nat, format: int, mipmaps: int) returns (size: nat)
    ensures size == MipChainSize(width, height, format, if mipmaps < 0 then 0 else mipmaps)
  {
    var w, h := width, height;
    size := 0;
    var i := 0;
    while i < mipmaps
      invariant 0 <= i && (mipmaps >= 0 ==> i <= mipmaps)
      invariant size + MipChainSize(w, h, format, if mipmaps < 0 then 0 else mipmaps - i)
             == MipChainSize(width, height, format, if mipmaps < 0 then 0 else mipmaps)
    {
      size := size + PixelDataSize(w, h, format);
      w := w / 2;
      h := h / 2;
      if w < 1 { w := 1; }
      if h < 1 { h := 1; }
      i := i + 1;
    }
  }

  /** The counting loop of Image_GenMipmaps: the number of levels and the byte size
      of the whole chain. */
  method CountMipLevels(width: nat, height: nat, format: int) returns (mipCount: nat, mipSize: nat)
    requires width >= 1 && height >= 1
    ensures mipCount == MipLevels(width, height)
    ensures mipSize == MipChainSize(width, height, format, mipCount)
  {
    mipCount := 1;
    var mipWidth, mipHeight := width, height;
    mipSize := PixelDataSize(mipWidth, mipHeight, format);
    while mipWidth != 1 || mipHeight != 1
      invariant mipWidth >= 1 && mipHeight >= 1
      invariant mipCount >= 1
      invariant mipCount - 1 + MipLevels(mipWidth, mipHeight) == MipLevels(width, height)
      invariant mipSize - PixelDataSize(mipWidth, mipHeight, format)
                + MipChainSize(mipWidth, mipHeight, format, MipLevels(mipWidth, mipHeight))
             == MipChainSize(width, height, format, MipLevels(width, height))
      decreases mipWidth + mipHeight
    {
      if mipWidth != 1 { mipWidth := mipWidth / 2; }
      if mipHeight != 1 { mipHeight := mipHeight / 2; }
      // The `< 1` clamps that follow in the source cannot fire: a dimension other
      // than 1 is at least 2 here.
      mipCount := mipCount + 1;
      mipSize := mipSize + PixelDataSize(mipWidth, mipHeight, format);
    }
  }
}
