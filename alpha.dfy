/** The alpha-driven operations: Image_AlphaClear, which overwrites in place every
    pixel whose alpha is at or below a threshold, and GetImageAlphaBorder with
    Image_AlphaCrop, which crop an image to the box of its pixels above a
    threshold. */
module Alpha {
  import opened Bytes
  import opened PixelFormats
  import opened Colors
  import opened Grids
  import opened Images
  import opened Geometry
  import opened ColorOps

  // ---------------------------------------------------------------------------
  // The in-place cell scan
  // ---------------------------------------------------------------------------

  /** The bytes at `at` are overwritten with `fill`; every other byte is kept. */
  method WriteBytes(data: array<byte>, at: nat, fill: seq<byte>)
    requires at + |fill| <= data.Length
    modifies data
    ensures data[at .. at + |fill|] == fill
    ensures data[..at] == old(data[..at]) && data[at + |fill|..] == old(data[at + |fill|..])
  {
    for j := 0 to |fill|
      invariant data[at .. at + j] == fill[..j]
      invariant data[..at] == old(data[..at])
      invariant data[at + j..] == old(data[at + j..])
    {
      data[at + j] := fill[j];
      assert data[at .. at + j + 1] == data[at .. at + j] + [data[at + j]];
    }
  }

  /** Cell q of the buffer is overwritten with `fill`; every other cell is kept. */
  method FillCell(data: array<byte>, q: nat, bpp: nat, fill: seq<byte>)
    requires |fill| == bpp && q * bpp + bpp <= data.Length
    modifies data
    ensures Cell(data[..], q, bpp) == fill
    ensures data[q * bpp + bpp..] == old(data[q * bpp + bpp..])
    ensures forall o: nat | o != q :: Cell(data[..], o, bpp) == Cell(old(data[..]), o, bpp)
  {
    ghost var before := data[..];
    WriteBytes(data, q * bpp, fill);
    ghost var after := data[..];
    assert Cell(after, q, bpp) == after[q * bpp .. q * bpp + bpp];
    forall o: nat | o != q
      ensures Cell(after, o, bpp) == Cell(before, o, bpp)
    {
      if o < q {
        MulLe(o + 1, q, bpp);
      } else {
        MulLe(q + 1, o, bpp);
      }
      CellFrame(after, before, q * bpp, q * bpp + bpp, o, bpp);
    }
  }

  /** s is t with each of the first n cells that `pick` selects replaced by `fill`;
      every other byte is t's. */
  predicate ClearedCells(s: seq<byte>, t: seq<byte>, n: nat, bpp: nat, pick: seq<byte> -> bool, fill: seq<byte>)
  {
    |s| == |t| && n * bpp <= |t| && s[n * bpp..] == t[n * bpp..] &&
    forall i: nat | i < n :: Cell(s, i, bpp) == (if pick(Cell(t, i, bpp)) then fill else Cell(t, i, bpp))
  }

  /** A suffix that two buffers share holds the same cells. */
  lemma {:induction false} SuffixCell(s: seq<byte>, t: seq<byte>, i: nat, bpp: nat)
    requires |s| == |t| && i * bpp <= |t| && s[i * bpp..] == t[i * bpp..]
    ensures Cell(s, i, bpp) == Cell(t, i, bpp)
  {
    if i * bpp + bpp <= |s| {
      assert s[i * bpp .. i * bpp + bpp] == s[i * bpp..][..bpp];
      assert t[i * bpp .. i * bpp + bpp] == t[i * bpp..][..bpp];
    }
  }

  /** The pixel loop of Image_AlphaClear: each of the first n cells that `pick`
      selects is overwritten with `fill`. */
  method ClearCells(data: array<byte>, n: nat, bpp: nat, fill: seq<byte>, pick: seq<byte> -> bool)
    requires |fill| == bpp && n * bpp <= data.Length
    modifies data
    ensures ClearedCells(data[..], old(data[..]), n, bpp, pick, fill)
  {
    ghost var orig := data[..];
    for i := 0 to n
      invariant i * bpp <= n * bpp
      invariant data[i * bpp..] == orig[i * bpp..]
      invariant forall c: nat | c < i ::
        Cell(data[..], c, bpp) == (if pick(Cell(orig, c, bpp)) then fill else Cell(orig, c, bpp))
    {
      MulLe(i + 1, n, bpp);
      assert (i + 1) * bpp == i * bpp + bpp;
      SuffixCell(data[..], orig, i, bpp);
      ghost var before := data[..];
      if pick(Cell(data[..], i, bpp)) {
        FillCell(data, i, bpp, fill);
        assert data[(i + 1) * bpp..] == before[(i + 1) * bpp..];
      }
      assert before[(i + 1) * bpp..] == before[i * bpp..][bpp..];
      assert orig[(i + 1) * bpp..] == orig[i * bpp..][bpp..];
    }
  }

  /** Clearing twice with the same threshold and colour is clearing once: a cleared
      cell holds the fill, which is then either selected again or kept. */
  lemma {:induction false} ClearedIdempotent(u: seq<byte>, s: seq<byte>, t: seq<byte>, n: nat, bpp: nat,
                                             pick: seq<byte> -> bool, fill: seq<byte>)
    requires ClearedCells(s, t, n, bpp, pick, fill) && ClearedCells(u, s, n, bpp, pick, fill)
    ensures u == s
  {
    forall k | 0 <= k < |s|
      ensures u[k] == s[k]
    {
      if k < n * bpp {
        CellOfIndex(k, n, bpp);
        var i := k / bpp;
        CellBefore(i, n, bpp);
        assert Cell(u, i, bpp) == Cell(s, i, bpp);
        assert u[k] == Cell(u, i, bpp)[k % bpp];
      } else {
        assert u[k] == u[n * bpp..][k - n * bpp];
      }
    }
  }

  // ---------------------------------------------------------------------------
  // Image_AlphaClear
  // ---------------------------------------------------------------------------

  /** The formats Image_AlphaClear handles; for every other one it does nothing. */
  predicate ClearsFormat(format: int)
  {
    format == GrayAlpha || format == R5G5B5A1 || format == R4G4B4A4 ||
    format == R8G8B8A8 || format == R32G32B32A32
  }

  /** `(unsigned char)(round((float)c*k))`: the channel scaled by k itself, as
      written (exact while it fits a byte). */
  function ScaledChannel(c: byte, k: nat, ops: FloatOps): byte
  {
    UChar(ops, c as int * k)
  }

  /** The R5G5B5A1 word Image_AlphaClear writes, as written: every channel scaled by
      31 (not 31/255), shifted into place, ORed and truncated to 16 bits. */
  function Clear5551(color: Color, ops: FloatOps): (w: int)
    ensures 0 <= w < 0x1_0000
  {
    var r, g, b := ScaledChannel(color.r, 31, ops), ScaledChannel(color.g, 31, ops), ScaledChannel(color.b, 31, ops);
    var a: bv32 := if color.a < 128 then 0 else 1;
    (((r as bv32) << 11) | ((g as bv32) << 6) | ((b as bv32) << 1) | a) as int % 0x1_0000
  }

  /** The R4G4B4A4 word Image_AlphaClear writes, as written: every channel scaled by
      15 (not 15/255). */
  function Clear4444(color: Color, ops: FloatOps): (w: int)
    ensures 0 <= w < 0x1_0000
  {
    var r, g, b, a := ScaledChannel(color.r, 15, ops), ScaledChannel(color.g, 15, ops),
                      ScaledChannel(color.b, 15, ops), ScaledChannel(color.a, 15, ops);
    (((r as bv32) << 12) | ((g as bv32) << 8) | ((b as bv32) << 4) | (a as bv32)) as int % 0x1_0000
  }

  /** `round(c/255*m)`, the channel scaled to an m-level field (no ties occur for
      m = 31 or 15). */
  function ToField(c: byte, m: nat): (f: nat)
    requires m >= 1
    ensures f <= m
  {
    MulLe(c as nat, 255, 2 * m);
    DivBelow(2 * m * c as int + 255, 510, m);
    (2 * m * c as int + 255) / 510
  }

  /** A quotient below q + 1. */
  lemma DivBelow(n: nat, d: nat, q: nat)
    requires d >= 1 && n < (q + 1) * d
    ensures n / d <= q
  {
    if n / d > q {
      MulLe(q + 1, n / d, d);
    }
  }

  /** The R5G5B5A1 word with the 0..255 channels scaled to 5 bits, as intended. */
  function Clear5551Fixed(color: Color): (w: nat)
    ensures w < 0x1_0000
  {
    Pack5551(ToField(color.r, 31), ToField(color.g, 31), ToField(color.b, 31), if color.a < 128 then 0 else 1)
  }

  /** The R4G4B4A4 word with the channels scaled to 4 bits, as intended. */
  function Clear4444Fixed(color: Color): (w: nat)
    ensures w < 0x1_0000
  {
    Pack4444(ToField(color.r, 15), ToField(color.g, 15), ToField(color.b, 15), ToField(color.a, 15))
  }

  /** The intended R5G5B5A1 word carries every channel in its own field. */
  lemma {:induction false} Clear5551FixedFields(color: Color)
    ensures var w := Clear5551Fixed(color);
      w / 2048 == ToField(color.r, 31) && (w / 64) % 32 == ToField(color.g, 31) &&
      (w % 64) / 2 == ToField(color.b, 31) && w % 2 == (if color.a < 128 then 0 else 1)
  {
    PackedFieldsRoundTrip(ToField(color.r, 31), ToField(color.g, 31), ToField(color.b, 31), if color.a < 128 then 0 else 1);
  }

  /** The intended R4G4B4A4 word carries every channel in its own field. */
  lemma {:induction false} Clear4444FixedFields(color: Color)
    ensures var w := Clear4444Fixed(color);
      w / 4096 == ToField(color.r, 15) && (w / 256) % 16 == ToField(color.g, 15) &&
      (w / 16) % 16 == ToField(color.b, 15) && w % 16 == ToField(color.a, 15)
  {
    PackedFieldsRoundTrip(ToField(color.r, 15), ToField(color.g, 15), ToField(color.b, 15), ToField(color.a, 15));
  }

  /** A red channel of 8 is written as a red field of 24 out of 31 in R5G5B5A1
      (8*31 = 248, whose top bits are cut off by the 16-bit word), where 8/255 of
      the range is a field of 1. */
  lemma Clear5551ScalesByLevels(ops: FloatOps)
    ensures Clear5551(Color(8, 0, 0, 255), ops) / 2048 == 24
    ensures Clear5551Fixed(Color(8, 0, 0, 255)) / 2048 == 1
  {
    assert ScaledChannel(8, 31, ops) == 248 && ScaledChannel(0, 31, ops) == 0;
    assert Clear5551(Color(8, 0, 0, 255), ops) == 0xC001;
    assert ToField(8, 31) == 1 && ToField(0, 31) == 0;
  }

  /** In R4G4B4A4 a red channel of 16 gives the field 0 (16*15 = 240, shifted
      out of the word) instead of 1. */
  lemma Clear4444ScalesByLevels(ops: FloatOps)
    ensures Clear4444(Color(16, 0, 0, 0), ops) / 4096 == 0
    ensures Clear4444Fixed(Color(16, 0, 0, 0)) / 4096 == 1
  {
    assert ScaledChannel(16, 15, ops) == 240 && ScaledChannel(0, 15, ops) == 0;
    assert Clear4444(Color(16, 0, 0, 0), ops) == 0;
    assert ToField(16, 15) == 1 && ToField(0, 15) == 0;
  }

  /** The cell Image_AlphaClear writes over a selected pixel, the packed formats'
      words as written (see `Clear5551ScalesByLevels`). */
  function ClearFill(format: int, color: Color, ops: FloatOps): (fill: seq<byte>)
    requires ClearsFormat(format)
    ensures |fill| == BytesPerPixel(format)
  {
    BytesPerPixelTable(format);
    if format == GrayAlpha then [color.r, color.a]
    else if format == R5G5B5A1 then WordBytes(Clear5551(color, ops))
    else if format == R4G4B4A4 then WordBytes(Clear4444(color, ops))
    else if format == R8G8B8A8 then [color.r, color.g, color.b, color.a]
    else Fit(ops.byteToFloat(color.r), 4) + Fit(ops.byteToFloat(color.g), 4) +
         Fit(ops.byteToFloat(color.b), 4) + Fit(ops.byteToFloat(color.a), 4)
  }

  /** Whether a pixel's alpha is at or below the threshold, in the format's own
      terms: the alpha byte against `(unsigned char)(threshold*255)`, the alpha bit
      against 0 or 1, the alpha nibble against `(unsigned char)(threshold*15)`, or
      the alpha float against the threshold. */
  function ClearPick(format: int, threshold: real, ops: FloatOps): seq<byte> -> bool
  {
    if format == GrayAlpha then
      (c: seq<byte>) => |c| == 2 && c[1] <= ScaledThreshold(ops, threshold, 255)
    else if format == R5G5B5A1 then
      (c: seq<byte>) => |c| == 2 && Word(c[0], c[1]) % 2 <= (if threshold < 0.5 then 0 else 1)
    else if format == R4G4B4A4 then
      (c: seq<byte>) => |c| == 2 && Word(c[0], c[1]) % 16 <= ScaledThreshold(ops, threshold, 15)
    else if format == R8G8B8A8 then
      (c: seq<byte>) => |c| == 4 && c[3] <= ScaledThreshold(ops, threshold, 255)
    else
      (c: seq<byte>) => |c| == 16 && ops.floatAtMost(c[12..16], threshold)
  }

  /** In R8G8B8A8 and GRAY_ALPHA a cleared pixel decodes to the clearing colour
      (to its red and alpha in GRAY_ALPHA), and it is selected again exactly when
      the colour's own alpha is at or below the threshold. */
  lemma {:induction false} ClearFillDecodes(color: Color, threshold: real, ops: FloatOps)
    ensures GetPixel(ClearFill(R8G8B8A8, color, ops), R8G8B8A8, ops) == color
    ensures GetPixel(ClearFill(GrayAlpha, color, ops), GrayAlpha, ops) == Color(color.r, color.r, color.r, color.a)
    ensures ClearPick(R8G8B8A8, threshold, ops)(ClearFill(R8G8B8A8, color, ops)) <==>
      color.a <= ScaledThreshold(ops, threshold, 255)
  {
  }

  /** Image_AlphaClear. The buffer is edited in place; nothing else changes. An image
      without pixels, a compressed image and a format without an alpha channel the
      function handles are left alone. Otherwise each base-level pixel whose alpha
      is at or below the threshold is overwritten with the clearing colour in the
      image's format; every other pixel and every mipmap level is kept. */
  method AlphaClear(image: Image, color: Color, threshold: real, ops: FloatOps)
    requires image.Valid()
    modifies image.data
    ensures old(image.Empty()) || !ClearsFormat(image.format) ==> image.Contents() == old(image.Contents())
    ensures !old(image.Empty()) && ClearsFormat(image.format) ==>
      ClearedCells(image.Contents(), old(image.Contents()), image.width * image.height, BytesPerPixel(image.format),
                   ClearPick(image.format, threshold, ops), ClearFill(image.format, color, ops))
  {
    if image.Empty() || image.format >= Dxt1Rgb || !ClearsFormat(image.format) {
      return;
    }
    var n := image.width * image.height;
    var bpp := BytesPerPixel(image.format);
    ClearCells(image.data, n, bpp, ClearFill(image.format, color, ops), ClearPick(image.format, threshold, ops));
  }
}

/** GetImageAlphaBorder and Image_AlphaCrop. */
module AlphaBorder {
  import opened Bytes
  import opened PixelFormats
  import opened Colors
  import opened Grids
  import opened Images
  import opened Geometry
  import opened ColorOps

  /** The four running bounds of the scan: the columns and rows of the pixels found
      above the threshold so far. */
  datatype Extent = Extent(xMin: int, xMax: int, yMin: int, yMax: int)

  /** `65536` is the scan's "nothing found" value for both minimums. */
  const Unset := 65536
  const NoExtent := Extent(Unset, 0, Unset, 0)

  /** The bounds after a pixel at (y, x) is found above the threshold. */
  function Extend(e: Extent, y: int, x: int): Extent
  {
    Extent(if x < e.xMin then x else e.xMin, if x > e.xMax then x else e.xMax,
           if y < e.yMin then y else e.yMin, if y > e.yMax then y else e.yMax)
  }

  /** A pixel of the scan: its row, its column and its alpha. */
  datatype Spot = Spot(y: nat, x: nat, a: byte)

  /** The pixels of a w-wide image in scan order: pixel j sits in row j / w and
      column j % w. */
  function Spots(cs: seq<Color>, w: nat): (s: seq<Spot>)
    requires w >= 1
    ensures |s| == |cs|
  {
    seq(|cs|, j requires 0 <= j < |cs| => Spot(j / w, j % w, cs[j].a))
  }

  /** The bounds after the first k pixels of the scan. */
  function Scan(s: seq<Spot>, t: byte, k: nat): Extent
    requires k <= |s|
  {
    if k == 0 then NoExtent
    else if s[k - 1].a > t then Extend(Scan(s, t, k - 1), s[k - 1].y, s[k - 1].x)
    else Scan(s, t, k - 1)
  }

  /** The rectangle GetImageAlphaBorder returns for the final bounds: the zero
      rectangle while either column bound is still at 65536. */
  function BorderRect(e: Extent): Rect
  {
    if e.xMin != Unset && e.xMax != Unset then Rect(e.xMin, e.yMin, e.xMax + 1 - e.xMin, e.yMax + 1 - e.yMin)
    else Rect(0, 0, 0, 0)
  }

  /** The alpha border of the colours of a w x h image with threshold t: the zero
      rectangle or a rectangle of at least one pixel lying inside the image,
      whatever the colours. */
  function Border(cs: seq<Color>, w: nat, h: nat, t: byte): (r: Rect)
    requires w >= 1 && |cs| == w * h
    ensures r == Rect(0, 0, 0, 0) ||
      (0 <= r.x && 1 <= r.width && r.x + r.width <= w && 0 <= r.y && 1 <= r.height && r.y + r.height <= h)
  {
    ScanRectInside(cs, w, h, t);
    BorderRect(Scan(Spots(cs, w), t, |cs|))
  }

  /** The rectangle of a whole scan is zero or inside the image. */
  lemma {:induction false} ScanRectInside(cs: seq<Color>, w: nat, h: nat, t: byte)
    requires w >= 1 && |cs| == w * h
    ensures var r := BorderRect(Scan(Spots(cs, w), t, |cs|));
      r == Rect(0, 0, 0, 0) ||
      (0 <= r.x && 1 <= r.width && r.x + r.width <= w && 0 <= r.y && 1 <= r.height && r.y + r.height <= h)
  {
    var s := Spots(cs, w);
    var e := Scan(s, t, |cs|);
    if e.xMin != Unset && e.xMax != Unset {
      ScanContains(s, t, |cs|);
      var jx := ScanXMaxAt(s, t, |cs|);
      var jy := ScanYMaxAt(s, t, |cs|);
      IndexOfCell(jy, w, h);
    }
  }

  /** Every one of the first k pixels above the threshold lies within the bounds,
      and the minimums never rise above their start. */
  lemma {:induction false} ScanContains(s: seq<Spot>, t: byte, k: nat)
    requires k <= |s|
    ensures var e := Scan(s, t, k);
      0 <= e.xMin <= Unset && 0 <= e.yMin <= Unset && 0 <= e.xMax && 0 <= e.yMax &&
      forall j | 0 <= j < k && s[j].a > t :: e.xMin <= s[j].x <= e.xMax && e.yMin <= s[j].y <= e.yMax
  {
    if k > 0 {
      ScanContains(s, t, k - 1);
    }
  }

  /** The bounds are still at their start exactly when none of the first k pixels
      is above the threshold. */
  lemma {:induction false} ScanNone(s: seq<Spot>, t: byte, k: nat)
    requires k <= |s|
    ensures Scan(s, t, k) == NoExtent <==> forall j | 0 <= j < k :: s[j].a <= t
  {
    ScanContains(s, t, k);
    if k > 0 {
      ScanNone(s, t, k - 1);
    }
  }

  /** A column minimum below 65536 is the column of a pixel above the threshold. */
  lemma {:induction false} ScanXMinAt(s: seq<Spot>, t: byte, k: nat) returns (j: nat)
    requires k <= |s| && Scan(s, t, k).xMin < Unset
    ensures j < k && s[j].a > t && s[j].x == Scan(s, t, k).xMin
  {
    if s[k - 1].a > t && s[k - 1].x < Scan(s, t, k - 1).xMin {
      j := k - 1;
    } else {
      j := ScanXMinAt(s, t, k - 1);
    }
  }

  /** A row minimum below 65536 is the row of a pixel above the threshold. */
  lemma {:induction false} ScanYMinAt(s: seq<Spot>, t: byte, k: nat) returns (j: nat)
    requires k <= |s| && Scan(s, t, k).yMin < Unset
    ensures j < k && s[j].a > t && s[j].y == Scan(s, t, k).yMin
  {
    if s[k - 1].a > t && s[k - 1].y < Scan(s, t, k - 1).yMin {
      j := k - 1;
    } else {
      j := ScanYMinAt(s, t, k - 1);
    }
  }

  /** Once a pixel above the threshold has been seen, the column maximum is the
      column of one. */
  lemma {:induction false} ScanXMaxAt(s: seq<Spot>, t: byte, k: nat) returns (j: nat)
    requires k <= |s| && Scan(s, t, k) != NoExtent
    ensures j < k && s[j].a > t && s[j].x == Scan(s, t, k).xMax
  {
    var e0 := Scan(s, t, k - 1);
    if s[k - 1].a > t && (s[k - 1].x > e0.xMax || e0 == NoExtent) {
      j := k - 1;
    } else {
      j := ScanXMaxAt(s, t, k - 1);
    }
  }

  /** Once a pixel above the threshold has been seen, the row maximum is the row of
      one. */
  lemma {:induction false} ScanYMaxAt(s: seq<Spot>, t: byte, k: nat) returns (j: nat)
    requires k <= |s| && Scan(s, t, k) != NoExtent
    ensures j < k && s[j].a > t && s[j].y == Scan(s, t, k).yMax
  {
    var e0 := Scan(s, t, k - 1);
    if s[k - 1].a > t && (s[k - 1].y > e0.yMax || e0 == NoExtent) {
      j := k - 1;
    } else {
      j := ScanYMaxAt(s, t, k - 1);
    }
  }

  /** Pixel (y, x) of a w-wide image is above the threshold. */
  predicate Above(cs: seq<Color>, w: nat, t: byte, y: int, x: int)
  {
    0 <= y && 0 <= x < w && 0 <= y * w + x < |cs| && cs[y * w + x].a > t
  }

  /** Some pixel of column x is above the threshold. */
  ghost predicate ColumnHit(cs: seq<Color>, w: nat, t: byte, x: int)
  {
    exists y :: Above(cs, w, t, y, x)
  }

  /** Some pixel of row y is above the threshold. */
  ghost predicate RowHit(cs: seq<Color>, w: nat, t: byte, y: int)
  {
    exists x :: Above(cs, w, t, y, x)
  }

  /** Pixel y*w + x of the scan sits at row y and column x. */
  lemma SpotAt(cs: seq<Color>, w: nat, y: nat, x: nat)
    requires x < w && y * w + x < |cs|
    ensures Spots(cs, w)[y * w + x] == Spot(y, x, cs[y * w + x].a)
  {
    DivUnique(y * w + x, w, y, x);
  }

  /** A picture with nothing above the threshold has the zero rectangle as border. */
  lemma BorderBlank(cs: seq<Color>, w: nat, h: nat, t: byte)
    requires w >= 1 && |cs| == w * h
    ensures (forall j | 0 <= j < |cs| :: cs[j].a <= t) ==> Border(cs, w, h, t) == Rect(0, 0, 0, 0)
  {
    ScanNone(Spots(cs, w), t, |cs|);
  }

  /** A pixel above the threshold of a w x h picture lies in one of its h rows. */
  lemma AboveInside(cs: seq<Color>, w: nat, h: nat, t: byte, y: int, x: int)
    requires |cs| == w * h && Above(cs, w, t, y, x)
    ensures y < h
  {
    if y >= h {
      MulLe(h, y, w);
    }
  }

  /** Pixel j is pixel (j / w, j % w) of the picture. */
  lemma AboveAt(cs: seq<Color>, w: nat, h: nat, t: byte, j: nat)
    requires |cs| == w * h && j < |cs|
    ensures w >= 1 && Spots(cs, w)[j] == Spot(j / w, j % w, cs[j].a)
    ensures Above(cs, w, t, j / w, j % w) <==> cs[j].a > t
  {
    IndexOfCell(j, w, h);
  }

  /** For an image of at most 65536 x 65536 pixels with a pixel above the
      threshold, the border is the bounding box of those pixels: it contains
      every one of them and each of its four edges runs through one. */
  lemma {:induction false} BorderBox(cs: seq<Color>, w: nat, h: nat, t: byte)
    requires 1 <= w <= Unset && 1 <= h <= Unset && |cs| == w * h
    requires exists y, x :: Above(cs, w, t, y, x)
    ensures var r := Border(cs, w, h, t);
      0 <= r.x && 1 <= r.width && r.x + r.width <= w && 0 <= r.y && 1 <= r.height && r.y + r.height <= h
    ensures var r := Border(cs, w, h, t);
      forall y, x | Above(cs, w, t, y, x) :: r.x <= x < r.x + r.width && r.y <= y < r.y + r.height
    ensures var r := Border(cs, w, h, t);
      ColumnHit(cs, w, t, r.x) && ColumnHit(cs, w, t, r.x + r.width - 1) &&
      RowHit(cs, w, t, r.y) && RowHit(cs, w, t, r.y + r.height - 1)
  {
    var s := Spots(cs, w);
    var e := Scan(s, t, |cs|);
    ScanContains(s, t, |cs|);
    forall y, x | Above(cs, w, t, y, x)
      ensures e.xMin <= x <= e.xMax && e.yMin <= y <= e.yMax
    {
      SpotAt(cs, w, y, x);
    }
    assert e != NoExtent && e.xMin < Unset && e.yMin < Unset by {
      var y0, x0 :| Above(cs, w, t, y0, x0);
      AboveInside(cs, w, h, t, y0, x0);
      SpotAt(cs, w, y0, x0);
      ScanNone(s, t, |cs|);
    }
    var jx := ScanXMaxAt(s, t, |cs|);
    AboveAt(cs, w, h, t, jx);
    assert Border(cs, w, h, t) == Rect(e.xMin, e.yMin, e.xMax + 1 - e.xMin, e.yMax + 1 - e.yMin);
    var j1 := ScanXMinAt(s, t, |cs|);
    AboveAt(cs, w, h, t, j1);
    var j3 := ScanYMinAt(s, t, |cs|);
    AboveAt(cs, w, h, t, j3);
    var j4 := ScanYMaxAt(s, t, |cs|);
    AboveAt(cs, w, h, t, j4);
  }

  /** One row of GetImageAlphaBorder's scan: the bounds widen at every pixel of row
      y (which starts at index `row`) whose alpha is above t. */
  method ScanLine(pixels: array<Color>, w: nat, y: nat, row: nat, t: byte, e: Extent, ghost s: seq<Spot>)
    returns (e': Extent)
    requires w >= 1 && row == y * w && row + w <= pixels.Length
    requires s == Spots(pixels[..], w) && e == Scan(s, t, row)
    ensures e' == Scan(s, t, row + w)
  {
    e' := e;
    for x := 0 to w
      invariant e' == Scan(s, t, row + x)
    {
      SpotAt(pixels[..], w, y, x);
      if pixels[row + x].a > t {
        if x < e'.xMin { e' := e'.(xMin := x); }
        if x > e'.xMax { e' := e'.(xMax := x); }
        if y < e'.yMin { e' := e'.(yMin := y); }
        if y > e'.yMax { e' := e'.(yMax := y); }
      }
    }
  }

  /** The scan of GetImageAlphaBorder over a w x h array of colours, row by row,
      and the rectangle it ends with. */
  method ScanColors(pixels: array<Color>, w: nat, h: nat, t: byte) returns (crop: Rect)
    requires w >= 1 && pixels.Length == w * h
    ensures crop == Border(pixels[..], w, h, t)
  {
    ghost var s := Spots(pixels[..], w);
    var e := NoExtent;
    var row := 0;
    for y := 0 to h
      invariant row == y * w && row <= pixels.Length
      invariant e == Scan(s, t, row)
    {
      MulLe(y + 1, h, w);
      e := ScanLine(pixels, w, y, row, t, e, s);
      row := row + w;
    }
    if e.xMin != Unset && e.xMax != Unset {
      crop := Rect(e.xMin, e.yMin, (e.xMax + 1) - e.xMin, (e.yMax + 1) - e.yMin);
    } else {
      crop := Rect(0, 0, 0, 0);
    }
  }

  /** GetImageAlphaBorder: the colours are loaded and scanned row by row, widening
      the bounds at every pixel whose alpha is above `(unsigned char)(threshold*255)`.
      The result is the zero rectangle or lies inside the image, and for an
      uncompressed format it is the border of the image's colours. */
  method ImageAlphaBorder(image: Image, threshold: real, ops: FloatOps) returns (crop: Rect)
    requires image.Valid() && !image.Empty()
    ensures crop == Rect(0, 0, 0, 0) ||
      (0 <= crop.x && 1 <= crop.width && crop.x + crop.width <= image.width &&
       0 <= crop.y && 1 <= crop.height && crop.y + crop.height <= image.height)
    ensures IsUncompressed(image.format) ==>
      crop == Border(ColorsOf(image, ops), image.width, image.height, ScaledThreshold(ops, threshold, 255))
  {
    var pixels := LoadColors(image, ops);
    var t := ScaledThreshold(ops, threshold, 255);
    crop := ScanColors(pixels, image.width, image.height, t);
  }

  /** A rectangle inside the image is its own clamped rectangle, so Image_Crop keeps
      exactly it. */
  lemma ClampInside(crop: Rect, w: nat, h: nat)
    requires 0 <= crop.x && 0 <= crop.width && crop.x + crop.width <= w
    requires 0 <= crop.y && 0 <= crop.height && crop.y + crop.height <= h
    ensures ClampCrop(crop, w, h) == crop && !CropOutside(crop, w, h)
  {
  }

  /** Image_AlphaCrop. An image without pixels or with a compressed format is left
      alone (Image_Crop refuses compressed data). For an uncompressed format the
      image is cropped to the border of its colours, and left alone when that
      border is the zero rectangle. */
  method AlphaCrop(image: Image, threshold: real, ops: FloatOps)
    requires image.Valid()
    modifies image
    ensures image.format == old(image.format) && image.mipmaps == old(image.mipmaps)
    ensures old(image.Empty()) || IsCompressed(old(image.format)) ==> unchanged(image)
    ensures !old(image.Empty()) && IsUncompressed(old(image.format)) ==>
      var b := Border(old(ColorsOf(image, ops)), old(image.width), old(image.height), ScaledThreshold(ops, threshold, 255));
      (b == Rect(0, 0, 0, 0) ==> unchanged(image)) &&
      (b != Rect(0, 0, 0, 0) ==>
        image.data != null && fresh(image.data) && image.width == b.width && image.height == b.height &&
        image.data.Length == b.width * b.height * BytesPerPixel(image.format) && image.Valid() &&
        image.View() == SubGrid(old(image.View()), b.x, b.y, b.width, b.height))
  {
    if image.data == null || image.width == 0 || image.height == 0 {
      return;
    }
    var crop := ImageAlphaBorder(image, threshold, ops);
    if crop.width != 0 && crop.height != 0 {
      ClampInside(crop, image.width, image.height);
      Crop(image, crop);
    }
  }
}
