/** Image_ResizeNN: nearest-neighbour scaling through a `Color` array, with the
    16.16 fixed-point index map of the source. */
module Nearest {
  import opened Bytes
  import opened PixelFormats
  import opened Colors
  import opened Images
  import opened Formatting
  import opened ColorOps

  /** `(size << 16)/newSize + 1`: the 16.16 fixed-point step of the index map. */
  function Ratio(size: nat, newSize: nat): (r: nat)
    requires newSize >= 1
    ensures r >= 1
  {
    (size * 65536) / newSize + 1
  }

  /** The source coordinate Image_ResizeNN reads for target coordinate x, as
      written: `(x*ratio) >> 16`. */
  function NNSource(x: nat, size: nat, newSize: nat): nat
    requires newSize >= 1
  {
    MulNat(x, Ratio(size, newSize));
    x * Ratio(size, newSize) / 65536
  }

  /** The same coordinate kept inside the source row or column. */
  function NNSourceFixed(x: nat, size: nat, newSize: nat): (s: nat)
    requires newSize >= 1 && size >= 1
    ensures s < size
    ensures NNSource(x, size, newSize) < size ==> s == NNSource(x, size, newSize)
  {
    if NNSource(x, size, newSize) < size then NNSource(x, size, newSize) else size - 1
  }

  /** The index map is monotone in the target coordinate. */
  lemma {:induction false} NNSourceMonotone(x: nat, x': nat, size: nat, newSize: nat)
    requires newSize >= 1 && x <= x'
    ensures NNSource(x, size, newSize) <= NNSource(x', size, newSize)
  {
    MulLe(x, x', Ratio(size, newSize));
  }

  /** Scaling a 1-pixel-wide image to 257 pixels: the ratio is 256, and target
      column 256 reads source column 1, one past the only column. */
  lemma NNSourceOutOfBounds()
    ensures NNSource(256, 1, 257) == 1
    ensures NNSourceFixed(256, 1, 257) == 0
  {
    assert (1 * 65536) / 257 == 255;
  }

  /** Wherever the last target coordinate reads inside the source, so does every
      other, and the map as written is the clamped one. */
  lemma {:induction false} NNSourceInBounds(x: nat, size: nat, newSize: nat)
    requires newSize >= 1 && size >= 1 && x < newSize
    requires NNSource(newSize - 1, size, newSize) < size
    ensures NNSource(x, size, newSize) < size
    ensures NNSourceFixed(x, size, newSize) == NNSource(x, size, newSize)
  {
    NNSourceMonotone(x, newSize - 1, size, newSize);
  }

  /** Shrinking (to at most 65536) always reads inside the source. */
  lemma {:induction false} NNDownscaleInBounds(size: nat, newSize: nat)
    requires 1 <= newSize <= size && newSize <= 65536
    ensures NNSource(newSize - 1, size, newSize) < size
  {
    var q := Ratio(size, newSize) - 1;
    var x := newSize - 1;
    DivUnique(size * 65536, newSize, q, (size * 65536) % newSize);
    assert q * newSize <= size * 65536;
    MulLe(newSize, size, 65536);
    DivAtLeast(size * 65536, newSize, 65536);
    assert q >= newSize;
    assert x * (q + 1) == newSize * q - q + x;
    assert x * (q + 1) < size * 65536;
  }

  /** At the same size (below 65536) the ratio is 65537 and every coordinate maps
      to itself. */
  lemma {:induction false} NNSameSize(x: nat, size: nat)
    requires x < size < 65536
    ensures NNSource(x, size, size) == x
  {
    assert (size * 65536) / size == 65536;
    assert Ratio(size, size) == 65537;
    assert x * 65537 == x * 65536 + x;
    DivUnique(x * 65537, 65536, x, x);
  }

  /** Row and column of index `y*w + x`. */
  lemma {:induction false} RowColumn(y: nat, x: nat, w: nat)
    requires x < w
    ensures (y * w + x) / w == y && (y * w + x) % w == x
  {
    DivUnique(y * w + x, w, y, x);
  }

  /** Index `y*w + x` of a w x h grid is inside it. */
  lemma InGrid(y: nat, x: nat, w: nat, h: nat)
    requires y < h && x < w
    ensures y * w + x < w * h
  {
    GridCell(y, x, w, h, 1);
  }

  /** The flat index `y2*width + x2` Image_ResizeNN reads for target pixel (y, x),
      as written: a source column past the last one lands in the next row. */
  function NNIndex(w: nat, h: nat, nw: nat, nh: nat, y: nat, x: nat): nat
    requires nw >= 1 && nh >= 1
  {
    MulNat(NNSource(y, h, nh), w);
    NNSource(y, h, nh) * w + NNSource(x, w, nw)
  }

  /** The read of the last target pixel stays inside the w x h colours; the source
      does not check this, and a read past the array is undefined. */
  predicate NNReadsInside(w: nat, h: nat, nw: nat, nh: nat)
  {
    nw >= 1 && nh >= 1 && NNIndex(w, h, nw, nh, nh - 1, nw - 1) < w * h
  }

  /** When the last target pixel reads inside the colours, every target pixel does. */
  lemma {:induction false} NNIndexInside(w: nat, h: nat, nw: nat, nh: nat, y: nat, x: nat)
    requires NNReadsInside(w, h, nw, nh) && y < nh && x < nw
    ensures NNIndex(w, h, nw, nh, y, x) < w * h
  {
    NNSourceMonotone(y, nh - 1, h, nh);
    NNSourceMonotone(x, nw - 1, w, nw);
    MulLe(NNSource(y, h, nh), NNSource(nh - 1, h, nh), w);
  }

  /** Where both coordinates of the map stay inside the source, the flat index is
      the clamped map's cell, so the as-written read is the intended one. */
  lemma {:induction false} NNIndexFixed(w: nat, h: nat, nw: nat, nh: nat, y: nat, x: nat)
    requires w >= 1 && h >= 1 && nw >= 1 && nh >= 1
    requires NNSource(y, h, nh) < h && NNSource(x, w, nw) < w
    ensures NNIndex(w, h, nw, nh, y, x) == NNSourceFixed(y, h, nh) * w + NNSourceFixed(x, w, nw)
    ensures NNIndex(w, h, nw, nh, y, x) < w * h
  {
    InGrid(NNSource(y, h, nh), NNSource(x, w, nw), w, h);
  }

  /** The colour Image_ResizeNN writes at (y, x) of the new image. */
  function NNPixel(cs: seq<Color>, w: nat, h: nat, nw: nat, nh: nat, y: nat, x: nat): Color
    requires NNReadsInside(w, h, nw, nh) && |cs| == w * h && y < nh && x < nw
  {
    NNIndexInside(w, h, nw, nh, y, x);
    cs[NNIndex(w, h, nw, nh, y, x)]
  }

  /** The nw x nh colours of the scaled image, row by row. */
  function NNColors(cs: seq<Color>, w: nat, h: nat, nw: nat, nh: nat): (r: seq<Color>)
    requires NNReadsInside(w, h, nw, nh) && |cs| == w * h
    ensures |r| == nw * nh
  {
    MulNat(nw, nh);
    seq(nw * nh, i requires 0 <= i < nw * nh =>
      IndexOfCell(i, nw, nh); NNPixel(cs, w, h, nw, nh, i / nw, i % nw))
  }

  /** A 1 x 3 image scaled to 257 x 2: target pixel (0, 256) reads flat index 1,
      which is source pixel (1, 0), the first pixel of the next row. */
  lemma NNReadsNextRow(cs: seq<Color>)
    requires |cs| == 3
    ensures NNReadsInside(1, 3, 257, 2)
    ensures NNColors(cs, 1, 3, 257, 2)[256] == cs[1]
  {
    assert Ratio(3, 2) == 98305;
    DivUnique(1 * 98305, 65536, 1, 32769);
    assert NNSource(1, 3, 2) == 1;
    assert NNSource(0, 3, 2) == 0;
    NNSourceOutOfBounds();
    assert NNIndex(1, 3, 257, 2, 1, 256) == 2;
    RowColumn(0, 256, 257);
    assert NNColors(cs, 1, 3, 257, 2)[256] == NNPixel(cs, 1, 3, 257, 2, 0, 256);
    assert NNIndex(1, 3, 257, 2, 0, 256) == 1;
  }

  /** At the same size (below 65536 in each direction) every read is inside. */
  lemma {:induction false} NNSameSizeInside(w: nat, h: nat)
    requires 1 <= w < 65536 && 1 <= h < 65536
    ensures NNReadsInside(w, h, w, h)
  {
    NNSameSize(w - 1, w);
    NNSameSize(h - 1, h);
    InGrid(h - 1, w - 1, w, h);
  }

  /** Scaling to the same size (below 65536 in each direction) gives the colours
      back. */
  lemma {:induction false} NNColorsSameSize(cs: seq<Color>, w: nat, h: nat)
    requires 1 <= w < 65536 && 1 <= h < 65536 && |cs| == w * h
    ensures NNReadsInside(w, h, w, h) && NNColors(cs, w, h, w, h) == cs
  {
    NNSameSizeInside(w, h);
    var r := NNColors(cs, w, h, w, h);
    forall i | 0 <= i < w * h
      ensures r[i] == cs[i]
    {
      IndexOfCell(i, w, h);
      NNSameSize(i % w, w);
      NNSameSize(i / w, h);
    }
  }

  /** A same-size Image_ResizeNN of an R8G8B8A8 image (below 65536 in each
      direction) gives its base level back, byte for byte. */
  lemma {:induction false} ResizeNNSameSizeIdentity(d: seq<byte>, w: nat, h: nat, n: nat, ops: FloatOps)
    requires 1 <= w < 65536 && 1 <= h < 65536 && n == w * h && 4 * n <= |d|
    ensures NNReadsInside(w, h, w, h)
    ensures Flatten(NNColors(LoadedColors(d, n, R8G8B8A8, ops), w, h, w, h)) == d[..4 * n]
  {
    NNColorsSameSize(LoadedColors(d, n, R8G8B8A8, ops), w, h);
    FlattenLoaded(d, n, ops);
  }

  /** `x*ratio` stays below `(size << 16) + newSize` for every target coordinate. */
  lemma {:induction false} NNProductBound(x: nat, size: nat, newSize: nat)
    requires x < newSize
    ensures x * Ratio(size, newSize) < size * 65536 + newSize
  {
    var q := Ratio(size, newSize) - 1;
    DivUnique(size * 65536, newSize, q, (size * 65536) % newSize);
    MulLe(x, newSize, q);
    assert x * (q + 1) == x * q + x;
  }

  /** What Image_ResizeNN needs to stay defined: a target size of at least one
      pixel (the ratios divide by it), no overflow of the 32-bit `int` products
      (`size << 16`, `x*ratio` and `newWidth*newHeight`; see `NNNoOverflow`), and
      reads inside the source colours. */
  predicate NNDefined(w: nat, h: nat, nw: nat, nh: nat)
  {
    1 <= w && 1 <= h && 1 <= nw && 1 <= nh &&
    w * 65536 + nw <= 0x8000_0000 && h * 65536 + nh <= 0x8000_0000 &&
    nw * nh < 0x8000_0000 && NNReadsInside(w, h, nw, nh)
  }

  /** Under `NNDefined` every product of the scan fits a 32-bit `int`. */
  lemma {:induction false} NNNoOverflow(w: nat, h: nat, nw: nat, nh: nat, y: nat, x: nat)
    requires NNDefined(w, h, nw, nh) && y < nh && x < nw
    ensures w * 65536 < 0x8000_0000 && h * 65536 < 0x8000_0000
    ensures x * Ratio(w, nw) < 0x8000_0000 && y * Ratio(h, nh) < 0x8000_0000
    ensures y * nw + x < 0x8000_0000
  {
    NNProductBound(x, w, nw);
    NNProductBound(y, h, nh);
    InGrid(y, x, nw, nh);
  }

  /** Pixel (y, x) of the scaled colours is the colour at the as-written flat
      index, and both indices are inside their arrays. */
  lemma {:induction false} NNAt(cs: seq<Color>, w: nat, h: nat, nw: nat, nh: nat, y: nat, x: nat, i: nat, j: nat)
    requires NNReadsInside(w, h, nw, nh) && |cs| == w * h && y < nh && x < nw
    requires i == y * nw + x && j == NNSource(y, h, nh) * w + NNSource(x, w, nw)
    ensures i < nw * nh && j < |cs| && NNColors(cs, w, h, nw, nh)[i] == cs[j]
  {
    NNIndexInside(w, h, nw, nh, y, x);
    InGrid(y, x, nw, nh);
    RowColumn(y, x, nw);
  }

  /** One row of the scan: target row y, which starts at index `row`, reads source
      row `(y*yRatio) >> 16` and, at each column, the flat index `y2*width + x2`. */
  method ScaleRow(output: array<Color>, pixels: array<Color>, w: nat, h: nat, nw: nat, nh: nat, y: nat, row: nat,
                  ghost target: seq<Color>)
    requires NNReadsInside(w, h, nw, nh) && y < nh && row == y * nw && row + nw <= output.Length
    requires pixels.Length == w * h && output.Length == nw * nh && output != pixels
    requires target == NNColors(pixels[..], w, h, nw, nh)
    modifies output
    ensures output[..row] == old(output[..row]) && output[row + nw..] == old(output[row + nw..])
    ensures output[row..row + nw] == target[row..row + nw]
  {
    var y2 := NNSource(y, h, nh);
    for x := 0 to nw
      modifies output
      invariant forall i | 0 <= i < output.Length && !(row <= i < row + x) :: output[i] == old(output[i])
      invariant forall i | row <= i < row + x :: output[i] == target[i]
    {
      var x2 := NNSource(x, w, nw);
      MulNat(y2, w);
      NNAt(pixels[..], w, h, nw, nh, y, x, row + x, y2 * w + x2);
      output[row + x] := pixels[y2 * w + x2];
    }
  }

  /** Row y+1 starts nw cells after row y, and ends inside the grid. */
  lemma NextRowStart(y: nat, nw: nat, nh: nat)
    requires y < nh
    ensures (y + 1) * nw == y * nw + nw && y * nw + nw <= nw * nh
  {
    MulLe(y + 1, nh, nw);
  }

  /** The row loop of Image_ResizeNN's scan over a target array of newWidth x
      newHeight colours. */
  method ScaleRows(output: array<Color>, pixels: array<Color>, w: nat, h: nat, nw: nat, nh: nat,
                   ghost target: seq<Color>)
    requires NNReadsInside(w, h, nw, nh) && pixels.Length == w * h
    requires output.Length == nw * nh && output != pixels
    requires target == NNColors(pixels[..], w, h, nw, nh)
    modifies output
    ensures output[..] == target
  {
    var row := 0;
    for y := 0 to nh
      invariant row == y * nw && row <= output.Length
      invariant output[..row] == target[..row]
    {
      NextRowStart(y, nw, nh);
      ScaleRow(output, pixels, w, h, nw, nh, y, row, target);
      assert output[..row + nw] == output[..row] + output[row..row + nw];
      assert target[..row + nw] == target[..row] + target[row..row + nw];
      row := row + nw;
    }
    assert output[..] == output[..row];
  }

  /** The scan of Image_ResizeNN: a new array of newWidth x newHeight colours. */
  method ScaleColors(pixels: array<Color>, w: nat, h: nat, nw: nat, nh: nat, ghost target: seq<Color>)
    returns (output: array<Color>)
    requires NNDefined(w, h, nw, nh) && pixels.Length == w * h
    requires target == NNColors(pixels[..], w, h, nw, nh)
    ensures fresh(output) && output[..] == target
  {
    MulNat(nw, nh);
    output := new Color[nw * nh](_ => Blank);
    ScaleRows(output, pixels, w, h, nw, nh, target);
  }

  /** Image_ResizeNN. An image without pixels is left alone. Otherwise the image is
      newWidth x newHeight, and its base level holds, at (y, x), the colour at the
      source coordinates of the index map, stored back in the original format. */
  method ResizeNN(image: Image, newWidth: nat, newHeight: nat, ops: FloatOps)
    requires image.Valid()
    requires !image.Empty() ==> NNDefined(image.width, image.height, newWidth, newHeight)
    requires !image.Empty() ==> StoresBackDefined(image.format, image.mipmaps, newWidth, newHeight)
    modifies image
    ensures old(image.Empty()) ==> unchanged(image)
    ensures !old(image.Empty()) ==> Reshaped(image, newWidth, newHeight, old(image.format))
    ensures !old(image.Empty()) && IsUncompressed(old(image.format)) ==>
      StoredBack(image, newWidth, newHeight, old(image.format), old(image.mipmaps),
                 NNColors(old(ColorsOf(image, ops)), old(image.width), old(image.height), newWidth, newHeight), ops)
  {
    if image.Empty() {
      return;
    }
    var pixels := LoadColors(image, ops);
    var output := ScaleColors(pixels, image.width, image.height, newWidth, newHeight,
                              NNColors(pixels[..], image.width, image.height, newWidth, newHeight));
    assert IsUncompressed(image.format) ==>
      output[..] == NNColors(ColorsOf(image, ops), image.width, image.height, newWidth, newHeight);
    AdoptColors(image, output, newWidth, newHeight, ops);
  }
}
