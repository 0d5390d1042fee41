/** Operations that replace the whole buffer of an image: Image_Resize (the
    external resampler is a `FloatOps` function), Image_GenMipmaps and
    Image_SetFormat (the float re-encode is a `FloatOps` function; its guards and
    its same-format no-op are exact). */
module Formatting {
  import opened Bytes
  import opened PixelFormats
  import opened Colors
  import opened Images

  /** The formats Image_Resize hands to the resampler. */
  predicate Resampled(format: int)
  {
    format == Grayscale || format == GrayAlpha || format == R8G8B8 || format == R8G8B8A8
  }

  /** Image_Resize: a new buffer of newWidth x newHeight pixels. The resampler fills
      it for the four byte formats; for the others it is left as allocated. */
  method Resize(image: Image, newWidth: nat, newHeight: nat, ops: FloatOps)
    requires image.Valid()
    modifies image
    ensures old(image.Empty()) ==> unchanged(image)
    ensures !old(image.Empty()) ==>
      image.width == newWidth && image.height == newHeight &&
      image.format == old(image.format) && image.mipmaps == old(image.mipmaps) &&
      image.data != null && fresh(image.data) &&
      image.data.Length == newWidth * newHeight * BytesPerPixel(image.format)
    ensures !old(image.Empty()) && Resampled(image.format) ==>
      image.Contents() == Fit(ops.resize(old(image.Contents()), old(image.width), old(image.height),
                                         image.format, newWidth, newHeight),
                              newWidth * newHeight * BytesPerPixel(image.format))
  {
    if image.Empty() {
      return;
    }
    var bpp := BytesPerPixel(image.format);
    var size := newWidth * newHeight * bpp;
    var output := new byte[size](_ => 0);
    if Resampled(image.format) {
      var r := Fit(ops.resize(image.data[..], image.width, image.height, image.format, newWidth, newHeight), size);
      for k := 0 to size
        modifies output
        invariant output[..k] == r[..k]
      {
        output[k] := r[k];
      }
      assert output[..] == output[..size];
    }
    image.data := output;
    image.width := newWidth;
    image.height := newHeight;
  }

  // ---------------------------------------------------------------------------
  // Image_GenMipmaps
  // ---------------------------------------------------------------------------

  /** The size Image_GenMipmaps gives the first generated level:
      `width/2, height/2`, without the clamp to 1 the later levels get. */
  function FirstMipLevel(w: nat, h: nat): (nat, nat)
  {
    (w / 2, h / 2)
  }

  /** The first level with the clamp, as the counting loop computes it. */
  function FirstMipLevelFixed(w: nat, h: nat): (nat, nat)
  {
    (MipNext(w), MipNext(h))
  }

  /** The two agree exactly when neither dimension is 1 (or both are, when no level
      is generated). */
  lemma {:induction false} FirstMipLevelAgrees(w: nat, h: nat)
    requires w >= 1 && h >= 1
    ensures FirstMipLevel(w, h) == FirstMipLevelFixed(w, h) <==> (w >= 2 && h >= 2)
  {
  }

  /** A 1 x 4 R8G8B8A8 image: the first generated level is 0 x 2 and 0 bytes long,
      where the chain the buffer was sized for has a 1 x 2 level of 8 bytes there. */
  lemma FirstMipLevelUnclamped()
    ensures var (mw, mh) := FirstMipLevel(1, 4); PixelDataSize(mw, mh, R8G8B8A8) == 0
    ensures var (mw, mh) := FirstMipLevelFixed(1, 4); PixelDataSize(mw, mh, R8G8B8A8) == 8
    ensures MipChainSize(1, 4, R8G8B8A8, 2) == PixelDataSize(1, 4, R8G8B8A8) + 8
  {
    assert MipChainSize(1, 1, R8G8B8A8, 0) == 0;
  }

  /** With the clamped first level, the level written i-th starts at the size of
      the first i levels and ends inside the chain of all levels. */
  lemma {:induction false} LevelPlacement(w: nat, h: nat, f: int, i: nat, count: nat)
    requires i < count
    ensures MipChainSize(w, h, f, i + 1) == MipChainSize(w, h, f, i) + PixelDataSize(MipAfter(w, i), MipAfter(h, i), f)
    ensures MipChainSize(w, h, f, i + 1) <= MipChainSize(w, h, f, count)
  {
    MipChainShift(w, h, f, i, 1);
    assert MipChainSize(MipAfter(w, i), MipAfter(h, i), f, 1) == PixelDataSize(MipAfter(w, i), MipAfter(h, i), f)
      by { assert MipChainSize(MipNext(MipAfter(w, i)), MipNext(MipAfter(h, i)), f, 0) == 0; }
    MipChainShift(w, h, f, i + 1, count - (i + 1));
  }

  /** MipAfter steps one halving at a time. */
  lemma {:induction false} MipAfterStep(d: nat, i: nat)
    ensures MipAfter(d, i + 1) == MipNext(MipAfter(d, i))
    decreases i
  {
    if i > 0 {
      MipAfterStep(MipNext(d), i - 1);
    }
  }

  /** The mipmap count Image_GenMipmaps leaves: it starts from the old count and adds
      one per generated level. */
  function GeneratedMipmaps(oldMipmaps: int, mipCount: nat): int
  {
    oldMipmaps + (mipCount - 1)
  }

  /** The count the levels actually in the buffer call for. */
  function GeneratedMipmapsFixed(oldMipmaps: int, mipCount: nat): int
  {
    mipCount
  }

  /** The fixed count is the number of levels in the buffer, whatever the image
      declared before; the count as written agrees with it exactly when the image
      had one level, which is how Image_SetFormat calls it. */
  lemma GeneratedMipmapsAgree(oldMipmaps: int, mipCount: nat)
    requires mipCount >= 1
    ensures GeneratedMipmapsFixed(oldMipmaps, mipCount) == mipCount
    ensures GeneratedMipmaps(oldMipmaps, mipCount) == GeneratedMipmapsFixed(oldMipmaps, mipCount) <==> oldMipmaps == 1
  {
  }

  /** A 4 x 4 R8G8B8A8 image with 2 levels: GenMipmaps fills a buffer of the 3-level
      chain (84 bytes) and declares 4 levels, whose chain (88 bytes) Image_Copy would
      then copy. */
  lemma MipmapsOvercount()
    ensures MipLevels(4, 4) == 3
    ensures GeneratedMipmaps(2, MipLevels(4, 4)) == 4 && GeneratedMipmapsFixed(2, MipLevels(4, 4)) == 3
    ensures MipChainSize(4, 4, R8G8B8A8, 3) == 84 && MipChainSize(4, 4, R8G8B8A8, 4) == 88
  {
    assert MipLevels(1, 1) == 1;
    assert MipChainSize(1, 1, R8G8B8A8, 0) == 0;
    assert MipChainSize(1, 1, R8G8B8A8, 1) == 4;
  }

  /** realloc of the image's buffer to `size` bytes: a fresh buffer that keeps the
      first min(old size, size) bytes. */
  method Realloc(image: Image, size: nat) returns (buf: array<byte>)
    requires image.data != null
    modifies image
    ensures fresh(buf) && buf.Length == size && image.data == buf
    ensures image.width == old(image.width) && image.height == old(image.height)
    ensures image.format == old(image.format) && image.mipmaps == old(image.mipmaps)
    ensures forall k | 0 <= k < size && k < old(image.data.Length) :: buf[k] == old(image.data[k])
  {
    buf := new byte[size](_ => 0);
    var keep := if image.data.Length < size then image.data.Length else size;
    CopyBytes(buf, 0, image.data, 0, keep);
    forall k | 0 <= k < keep
      ensures buf[k] == image.data[k]
    {
      assert buf[0 .. keep][k] == image.data[0 .. keep][k];
    }
    image.data := buf;
  }

  /** A sequence kept before and after a point is kept. */
  lemma SplitKept(a: seq<byte>, b: seq<byte>, at: nat)
    requires at <= |a| && |a| == |b| && a[..at] == b[..at] && a[at..] == b[at..]
    ensures a == b
  {
    assert a == a[..at] + a[at..];
    assert b == b[..at] + b[at..];
  }

  /** One pass of the generation loop: resize the working copy to the level's size
      and memcpy the level into the chain at offset `at`. */
  method WriteLevel(buf: array<byte>, at: nat, imCopy: Image, mw: nat, mh: nat, ops: FloatOps)
    requires imCopy.Valid() && imCopy.data != null && imCopy.data != buf
    requires imCopy.width >= 1 && imCopy.height >= 1
    requires !IsCompressed(imCopy.format)
    requires at + PixelDataSize(mw, mh, imCopy.format) <= buf.Length
    modifies buf, imCopy
    ensures imCopy.Valid() && imCopy.data != null && imCopy.data != buf && imCopy.format == old(imCopy.format)
    ensures imCopy.width == mw && imCopy.height == mh
    ensures buf[..at] == old(buf[..at])
    ensures buf[at + PixelDataSize(mw, mh, imCopy.format)..] == old(buf[at + PixelDataSize(mw, mh, imCopy.format)..])
    ensures PixelDataSize(mw, mh, imCopy.format) <= imCopy.data.Length
    ensures buf[at .. at + PixelDataSize(mw, mh, imCopy.format)] == imCopy.Contents()[..PixelDataSize(mw, mh, imCopy.format)]
    ensures PixelDataSize(mw, mh, imCopy.format) == 0 ==> buf[..] == old(buf[..])
  {
    Resize(imCopy, mw, mh, ops);
    UncompressedSize(mw, mh, imCopy.format);
    CopyBytes(buf, at, imCopy.data, 0, PixelDataSize(mw, mh, imCopy.format));
    if PixelDataSize(mw, mh, imCopy.format) == 0 {
      SplitKept(old(buf[..]), buf[..], at);
    }
  }

  /** Image_GenMipmaps reads only inside its working copy. An image one pixel wide
      or high gets a first level with no pixels (see `FirstMipLevelUnclamped`);
      Image_Resize then leaves the emptied copy alone, and the memcpy of the next
      level would read past its buffer. Such an image may get that one level at
      most. */
  predicate MipsDefined(w: nat, h: nat)
    requires w >= 1 && h >= 1
  {
    (w >= 2 && h >= 2) || MipLevels(w, h) <= 2
  }

  /** The working copy of Image_GenMipmaps holds the base level. Image_Copy sizes
      its copy by the declared mipmap count, so a count of 0 or less gives a copy
      of no bytes, from which the first Image_Resize would read. Only a 1 x 1
      image, whose chain has no further level, is safe with such a count. */
  predicate CopyDefined(mipmaps: int, w: nat, h: nat)
    requires w >= 1 && h >= 1
  {
    mipmaps >= 1 || MipLevels(w, h) == 1
  }

  /** Where the generation loop stands before pass i: the size of the level it
      writes and the offset it writes it at. With both sides at least 2 these are
      the chain's; otherwise the first level has no bytes and nothing moves. */
  ghost predicate LoopAt(w: nat, h: nat, f: int, i: nat, nextmip: nat, mw: nat, mh: nat)
  {
    if w >= 2 && h >= 2 then mw == MipAfter(w, i) && mh == MipAfter(h, i) && nextmip == MipChainSize(w, h, f, i)
    else nextmip == PixelDataSize(w, h, f) && (i == 1 ==> mw == w / 2 && mh == h / 2)
  }

  /** One pass keeps the loop on track: the level lands after the base level and
      inside the chain, and the next pass starts where it ends, at the halved
      size. */
  lemma {:induction false} LoopStep(w: nat, h: nat, f: int, mipCount: nat, i: nat, nextmip: nat, mw: nat, mh: nat)
    requires w >= 1 && h >= 1 && !IsCompressed(f) && 1 <= i < mipCount
    requires (w >= 2 && h >= 2) || mipCount <= 2
    requires LoopAt(w, h, f, i, nextmip, mw, mh)
    ensures PixelDataSize(w, h, f) <= nextmip
    ensures nextmip + PixelDataSize(mw, mh, f) <= MipChainSize(w, h, f, mipCount)
    ensures !(w >= 2 && h >= 2) ==> PixelDataSize(mw, mh, f) == 0
    ensures w >= 2 && h >= 2 ==> mw >= 1 && mh >= 1
    ensures LoopAt(w, h, f, i + 1, nextmip + PixelDataSize(mw, mh, f), MipNext(mw), MipNext(mh))
  {
    ChainHoldsBase(w, h, f, mipCount);
    ChainHoldsBase(w, h, f, i);
    if w >= 2 && h >= 2 {
      LevelPlacement(w, h, f, i, mipCount);
      MipAfterStep(w, i - 1);
      MipAfterStep(h, i - 1);
      MipAfterStep(w, i);
      MipAfterStep(h, i);
    } else {
      UncompressedSize(mw, mh, f);
    }
  }

  /** The generation loop of Image_GenMipmaps: level i (from 1) is the working copy
      resized to the i-th size, written where the levels before it end. The first
      size is `width/2 x height/2` as written, so on an image one pixel wide or
      high the one level generated has no bytes and the buffer is left as it was;
      otherwise the sizes are those of the chain the buffer was sized for. */
  method FillLevels(buf: array<byte>, imCopy: Image, w: nat, h: nat, f: int, mipCount: nat, ops: FloatOps)
    requires w >= 1 && h >= 1 && !IsCompressed(f) && mipCount >= 1
    requires (w >= 2 && h >= 2) || mipCount <= 2
    requires buf.Length == MipChainSize(w, h, f, mipCount)
    requires imCopy.Valid() && imCopy.data != null && imCopy.data != buf && imCopy.format == f
    requires imCopy.width >= 1 && imCopy.height >= 1
    modifies buf, imCopy
    ensures buf[..PixelDataSize(w, h, f)] == old(buf[..PixelDataSize(w, h, f)])
    ensures !(w >= 2 && h >= 2) ==> buf[..] == old(buf[..])
  {
    var base := PixelDataSize(w, h, f);
    var nextmip: nat := base;
    var mipWidth: nat, mipHeight: nat := w / 2, h / 2;
    var levelSize := PixelDataSize(mipWidth, mipHeight, f);
    assert LoopAt(w, h, f, 1, nextmip, mipWidth, mipHeight) by {
      assert MipChainSize(MipNext(w), MipNext(h), f, 0) == 0;
    }
    for i := 1 to mipCount
      invariant LoopAt(w, h, f, i, nextmip, mipWidth, mipHeight)
      invariant levelSize == PixelDataSize(mipWidth, mipHeight, f)
      invariant buf[..base] == old(buf[..base])
      invariant !(w >= 2 && h >= 2) ==> buf[..] == old(buf[..])
      invariant imCopy.data != null && imCopy.data != buf && imCopy.format == f && imCopy.Valid()
      invariant i < mipCount ==> imCopy.width >= 1 && imCopy.height >= 1
    {
      LoopStep(w, h, f, mipCount, i, nextmip, mipWidth, mipHeight);
      WriteLevel(buf, nextmip, imCopy, mipWidth, mipHeight, ops);
      assert buf[..base] == old(buf[..base]) by {
        assert buf[..base] == buf[..nextmip][..base];
      }
      nextmip := nextmip + levelSize;
      // `/= 2`, then at least 1
      mipWidth, mipHeight := MipNext(mipWidth), MipNext(mipHeight);
      levelSize := PixelDataSize(mipWidth, mipHeight, f);
    }
  }

  /** Image_GenMipmaps. It counts the levels of the chain from (width, height) down
      to 1 x 1, grows the buffer to the whole chain keeping the base level, and
      writes each further level by resizing a copy of the image. Nothing happens
      when the image already declares that many levels. Otherwise the count grows
      by one per generated level from what it was, as written (see
      `MipmapsOvercount`), so it ends at the number of levels only when it was 1. */
  method GenMipmaps(image: Image, ops: FloatOps)
    requires image.Valid() && !IsCompressed(image.format)
    requires !image.Empty() && image.mipmaps < MipLevels(image.width, image.height) ==>
      MipsDefined(image.width, image.height) && CopyDefined(image.mipmaps, image.width, image.height)
    modifies image
    ensures image.width == old(image.width) && image.height == old(image.height)
    ensures image.format == old(image.format)
    ensures old(image.Empty()) || old(image.mipmaps) >= MipLevels(old(image.width), old(image.height))
            ==> unchanged(image)
    ensures !old(image.Empty()) && old(image.mipmaps) < MipLevels(old(image.width), old(image.height)) ==>
      var w, h, f := image.width, image.height, image.format;
      image.mipmaps == old(image.mipmaps) + MipLevels(w, h) - 1 &&
      image.data != null && fresh(image.data) &&
      image.data.Length == MipChainSize(w, h, f, MipLevels(w, h)) &&
      PixelDataSize(w, h, f) <= image.data.Length &&
      image.data[..PixelDataSize(w, h, f)] == old(image.Contents())[..PixelDataSize(w, h, f)]
  {
    if image.Empty() {
      return;
    }
    var w, h, f := image.width, image.height, image.format;
    var mipCount, mipSize := CountMipLevels(w, h, f);
    if image.mipmaps >= mipCount {
      return;
    }
    var base := PixelDataSize(w, h, f);
    ChainHoldsBase(w, h, f, mipCount);
    var buf := Realloc(image, mipSize);
    assert buf[..base] == old(image.Contents())[..base];
    if image.mipmaps >= 1 {
      MipChainShift(w, h, f, image.mipmaps, mipCount - image.mipmaps);
    }
    var imCopy := Copy(image);
    if mipCount > 1 {
      // The level loop runs only when there is a level 1 to write.
      assert imCopy.Valid() by {
        ChainHoldsBase(w, h, f, image.mipmaps);
        UncompressedSize(w, h, f);
        assert imCopy.data.Length == ChainOf(image);
      }
      FillLevels(buf, imCopy, w, h, f, mipCount, ops);
    }
    image.mipmaps := GeneratedMipmaps(image.mipmaps, mipCount);
  }

  // ---------------------------------------------------------------------------
  // Image_SetFormat
  // ---------------------------------------------------------------------------

  /** Image_SetFormat re-encodes only a non-empty image, to a different, non-zero
      format, when neither the old nor the new format is a compressed one. */
  predicate Converts(image: Image, newFormat: int)
    reads image
  {
    !image.Empty() && newFormat != 0 && image.format != newFormat &&
    image.format < Dxt1Rgb && newFormat < Dxt1Rgb
  }

  /** The buffer Image_SetFormat allocates for the new format before any mipmap is
      regenerated: a base level in that format, or none for an unknown format. */
  method Reencode(image: Image, newFormat: int, ops: FloatOps)
    requires image.Valid() && Converts(image, newFormat)
    modifies image
    ensures image.format == newFormat && image.width == old(image.width) && image.height == old(image.height)
    ensures image.mipmaps == old(image.mipmaps)
    ensures image.data != null <==> IsUncompressed(newFormat)
    ensures image.data != null ==>
      fresh(image.data) && image.Valid() &&
      image.Contents() == Fit(ops.reformat(old(image.Contents()), image.width, image.height, old(image.format), newFormat),
                              PixelDataSize(image.width, image.height, newFormat))
  {
    var w, h := image.width, image.height;
    var pixels := ops.reformat(image.data[..], w, h, image.format, newFormat);
    image.data := null;
    image.format := newFormat;
    if IsUncompressed(newFormat) {
      var size := PixelDataSize(w, h, newFormat);
      var r := Fit(pixels, size);
      var buf := new byte[size](_ => 0);
      for k := 0 to size
        modifies buf
        invariant buf[..k] == r[..k]
      {
        buf[k] := r[k];
      }
      assert buf[..] == buf[..size];
      UncompressedSize(w, h, newFormat);
      image.data := buf;
    }
  }

  /** Image_SetFormat. Outside the converting case nothing changes. Otherwise the
      image holds its base level re-encoded in the new format (no buffer for an
      unknown format), and an image that had mipmaps gets the whole chain
      regenerated from that base level. */
  method SetFormat(image: Image, newFormat: int, ops: FloatOps)
    requires image.Valid()
    requires Converts(image, newFormat) && IsUncompressed(newFormat) && image.mipmaps > 1 ==>
      MipsDefined(image.width, image.height)
    modifies image
    ensures !old(Converts(image, newFormat)) ==> unchanged(image)
    ensures old(Converts(image, newFormat)) ==>
      image.format == newFormat && image.width == old(image.width) && image.height == old(image.height) &&
      (image.data != null <==> IsUncompressed(newFormat))
    ensures old(Converts(image, newFormat)) && image.data != null ==>
      var base := PixelDataSize(image.width, image.height, newFormat);
      fresh(image.data) && image.Valid() && base <= image.data.Length &&
      image.data[..base] == Fit(ops.reformat(old(image.Contents()), image.width, image.height, old(image.format), newFormat), base)
    ensures old(Converts(image, newFormat)) && old(image.mipmaps) <= 1 ==>
      image.mipmaps == old(image.mipmaps) &&
      (image.data != null ==> image.data.Length == PixelDataSize(image.width, image.height, newFormat))
    ensures old(Converts(image, newFormat)) && old(image.mipmaps) > 1 ==>
      (image.data == null ==> image.mipmaps == 1) &&
      (image.data != null ==>
         image.mipmaps == MipLevels(image.width, image.height) &&
         image.data.Length == MipChainSize(image.width, image.height, newFormat, MipLevels(image.width, image.height)))
  {
    if image.Empty() {
      return;
    }
    if newFormat != 0 && image.format != newFormat {
      if image.format < Dxt1Rgb && newFormat < Dxt1Rgb {
        Reencode(image, newFormat, ops);
        if image.mipmaps > 1 {
          image.mipmaps := 1;
          if image.data != null {
            UncompressedSize(image.width, image.height, newFormat);
            GenMipmaps(image, ops);
            assert MipLevels(1, 1) == 1;
          }
        }
      }
    }
  }
}
