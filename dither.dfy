/** Image_Dither: Floyd-Steinberg dithering of the colours to 16 bits per pixel or
    fewer, pushing each pixel's quantisation error into the pixels ahead of the
    scan, and packing the truncated channels into one 16-bit word per pixel. */
module Dither {
  import opened Bytes
  import opened PixelFormats
  import opened Colors
  import opened Images
  import opened ColorOps

  /** The bits kept of each channel: rBpp, gBpp, bBpp, aBpp. */
  datatype Bits = Bits(r: nat, g: nat, b: nat, a: nat)

  /** Every shift `8 - bpp` of the source is defined. */
  predicate BitsOk(bits: Bits)
  {
    bits.r <= 8 && bits.g <= 8 && bits.b <= 8 && bits.a <= 8
  }

  function Total(bits: Bits): nat
  {
    bits.r + bits.g + bits.b + bits.a
  }

  lemma {:induction false} Pow2Add(m: nat, n: nat)
    ensures Pow2(m + n) == Pow2(m) * Pow2(n)
  {
    if m > 0 {
      Pow2Add(m - 1, n);
    }
  }

  /** `v >> (8 - bpp)`: the top bpp bits of a channel, which fit in bpp bits. */
  function Truncate(v: byte, bpp: nat): (q: nat)
    requires bpp <= 8
    ensures q < Pow2(bpp) && q <= v
  {
    TruncateBounds(v, bpp);
    v / Pow2(8 - bpp)
  }

  lemma TruncateBounds(v: byte, bpp: nat)
    requires bpp <= 8
    ensures 0 <= v / Pow2(8 - bpp) <= v && v / Pow2(8 - bpp) < Pow2(bpp)
  {
    var d := Pow2(8 - bpp);
    DivLe(v, d);
    TruncateBelow(v, bpp);
  }

  lemma DivLe(v: nat, d: nat)
    requires d >= 1
    ensures 0 <= v / d <= v
  {
    assert v == (v / d) * d + v % d;
    MulLe(1, d, v / d);
  }

  lemma TruncateBelow(v: byte, bpp: nat)
    requires bpp <= 8
    ensures v / Pow2(8 - bpp) < Pow2(bpp)
  {
    var d := Pow2(8 - bpp);
    Pow2Add(8 - bpp, bpp);
    Pow2Values();
    if v / d >= Pow2(bpp) {
      MulLe(Pow2(bpp), v / d, d);
    }
  }

  /** `v - ((v >> (8-bpp)) << (8-bpp))`: the precision the truncation loses, which
      lies in [0, 2^(8-bpp)). */
  function QuantError(v: byte, bpp: nat): (e: nat)
    requires bpp <= 8
    ensures e < Pow2(8 - bpp)
  {
    var d := Pow2(8 - bpp);
    assert v == (v / d) * d + v % d;
    v - Truncate(v, bpp) * d
  }

  /** The truncated colour written back to the pixel array. */
  function Quantize(c: Color, bits: Bits): (q: Color)
    requires BitsOk(bits)
  {
    Color(Truncate(c.r, bits.r), Truncate(c.g, bits.g), Truncate(c.b, bits.b), Truncate(c.a, bits.a))
  }

  /** The channels of c fit the bit split. */
  predicate Fits(c: Color, bits: Bits)
  {
    c.r < Pow2(bits.r) && c.g < Pow2(bits.g) && c.b < Pow2(bits.b) && c.a < Pow2(bits.a)
  }

  /** The three quantisation errors; alpha is not diffused. */
  datatype Err = Err(r: nat, g: nat, b: nat)

  function Errors(c: Color, bits: Bits): Err
    requires BitsOk(bits)
  {
    Err(QuantError(c.r, bits.r), QuantError(c.g, bits.g), QuantError(c.b, bits.b))
  }

  /** `MIN(v + (int)(err*k/16), 0xff)`: a non-negative error share added to a
      neighbour, capped at 255 (the float product is exact and the cast truncates,
      which for a non-negative value is the integer quotient). */
  function Spread(v: byte, err: nat, k: nat): (s: byte)
    ensures v <= s
  {
    MulNat(err, k);
    if v + err * k / 16 < 255 then v + err * k / 16 else 255
  }

  /** A neighbour receiving k/16 of the errors in its red, green and blue. */
  function SpreadColor(c: Color, e: Err, k: nat): Color
  {
    Color(Spread(c.r, e.r, k), Spread(c.g, e.g, k), Spread(c.b, e.b, k), c.a)
  }

  /** Channel by channel, c' is c raised and capped at 255, with the same alpha. */
  predicate Raised(c: Color, c': Color)
  {
    c.r <= c'.r && c.g <= c'.g && c.b <= c'.b && c.a == c'.a
  }

  /** A neighbour at index `at` receiving weight/16 of the errors. */
  datatype Share = Share(at: nat, weight: nat)

  /** Every share goes to an index in [lo, n). */
  predicate Within(ns: seq<Share>, lo: nat, n: nat)
  {
    |ns| == 0 || (lo <= ns[0].at < n && Within(ns[1..], lo, n))
  }

  /** The share s ahead of the others when c holds. */
  function Prepend(c: bool, s: Share, rest: seq<Share>): (ns: seq<Share>)
  {
    if c then [s] + rest else rest
  }

  lemma PrependWithin(c: bool, s: Share, rest: seq<Share>, lo: nat, n: nat)
    requires (c ==> lo <= s.at < n) && Within(rest, lo, n)
    ensures Within(Prepend(c, s, rest), lo, n)
  {
    if c {
      assert ([s] + rest)[1..] == rest;
    }
  }

  /** The neighbours of pixel i, column x of a w-wide image that receive a share of
      its errors, in the order the scan updates them: right (7/16), below-left
      (3/16), below (5/16) and below-right (1/16), each only where it exists
      (`below` when a row follows). All of them come after pixel i and before the
      end of the next row. */
  function Neighbours(w: nat, i: nat, x: nat, below: bool): (ns: seq<Share>)
    requires x < w && x <= i
    ensures Within(ns, i + 1, i - x + (if below then 2 * w else w))
  {
    var n := i - x + (if below then 2 * w else w);
    var n4 := Prepend(x < w - 1 && below, Share(i + w + 1, 1), []);
    PrependWithin(x < w - 1 && below, Share(i + w + 1, 1), [], i + 1, n);
    var n3 := Prepend(below, Share(i + w, 5), n4);
    PrependWithin(below, Share(i + w, 5), n4, i + 1, n);
    var n2 := Prepend(x > 0 && below, Share(i + w - 1, 3), n3);
    PrependWithin(x > 0 && below, Share(i + w - 1, 3), n3, i + 1, n);
    PrependWithin(x < w - 1, Share(i + 1, 7), n2, i + 1, n);
    Prepend(x < w - 1, Share(i + 1, 7), n2)
  }

  /** Every share inside [lo, n) is also inside any wider range. */
  lemma {:induction false} WithinWiden(ns: seq<Share>, lo: nat, n: nat, n': nat)
    requires Within(ns, lo, n) && n <= n'
    ensures Within(ns, lo, n')
    decreases |ns|
  {
    if |ns| > 0 {
      WithinWiden(ns[1..], lo, n, n');
    }
  }

  /** The shares applied one after the other: pixels before `lo` are untouched. */
  function Diffuse(ps: seq<Color>, ns: seq<Share>, e: Err, lo: nat): (r: seq<Color>)
    requires lo <= |ps| && Within(ns, lo, |ps|)
    ensures |r| == |ps| && r[..lo] == ps[..lo]
    decreases |ns|
  {
    if ns == [] then ps
    else
      var at := ns[0].at;
      Diffuse(ps[at := SpreadColor(ps[at], e, ns[0].weight)], ns[1..], e, lo)
  }

  /** Sharing the errors only raises pixels, channel by channel, and keeps alpha. */
  lemma {:induction false} DiffuseRaises(ps: seq<Color>, ns: seq<Share>, e: Err, lo: nat)
    requires lo <= |ps| && Within(ns, lo, |ps|)
    ensures forall j | 0 <= j < |ps| :: Raised(ps[j], Diffuse(ps, ns, e, lo)[j])
    decreases |ns|
  {
    if ns != [] {
      var at := ns[0].at;
      var p1 := ps[at := SpreadColor(ps[at], e, ns[0].weight)];
      DiffuseRaises(p1, ns[1..], e, lo);
    }
  }

  /** The scan step at pixel i, column x of a w-wide image: the pixel becomes its
      truncation and its errors are shared among its neighbours. Pixels before i
      are untouched, pixel i is quantised and every later pixel is only raised. */
  function Step(ps: seq<Color>, w: nat, bits: Bits, i: nat, x: nat, below: bool): (r: seq<Color>)
    requires BitsOk(bits) && x < w && x <= i && i - x + w <= |ps| && (below ==> i - x + 2 * w <= |ps|)
    ensures |r| == |ps| && r[..i] == ps[..i] && r[i] == Quantize(ps[i], bits)
  {
    var p1 := ps[i := Quantize(ps[i], bits)];
    WithinWiden(Neighbours(w, i, x, below), i + 1, i - x + (if below then 2 * w else w), |ps|);
    var r := Diffuse(p1, Neighbours(w, i, x, below), Errors(ps[i], bits), i + 1);
    assert r[i] == r[..i + 1][i];
    assert r[..i] == r[..i + 1][..i];
    r
  }

  /** A step only raises the pixels after i, channel by channel, and keeps their
      alpha. */
  lemma StepRaises(ps: seq<Color>, w: nat, bits: Bits, i: nat, x: nat, below: bool)
    requires BitsOk(bits) && x < w && x <= i && i - x + w <= |ps| && (below ==> i - x + 2 * w <= |ps|)
    ensures forall j | i < j < |ps| :: Raised(ps[j], Step(ps, w, bits, i, x, below)[j])
  {
    var p1 := ps[i := Quantize(ps[i], bits)];
    WithinWiden(Neighbours(w, i, x, below), i + 1, i - x + (if below then 2 * w else w), |ps|);
    DiffuseRaises(p1, Neighbours(w, i, x, below), Errors(ps[i], bits), i + 1);
  }

  /** The pixels after the first x steps of the row starting at index `row`. */
  function DitherLine(ps: seq<Color>, w: nat, bits: Bits, row: nat, x: nat, below: bool): (r: seq<Color>)
    requires BitsOk(bits) && x <= w && row + w <= |ps| && (below ==> row + 2 * w <= |ps|)
    ensures |r| == |ps|
  {
    if x == 0 then ps
    else Step(DitherLine(ps, w, bits, row, x - 1, below), w, bits, row + x - 1, x - 1, below)
  }

  /** One more step of a row. */
  lemma LineStep(ps: seq<Color>, w: nat, bits: Bits, row: nat, x: nat, below: bool)
    requires BitsOk(bits) && x < w && row + w <= |ps| && (below ==> row + 2 * w <= |ps|)
    ensures DitherLine(ps, w, bits, row, x + 1, below) ==
            Step(DitherLine(ps, w, bits, row, x, below), w, bits, row + x, x, below)
  {
  }

  /** The pixels after the first y rows of the scan of a w x h image. */
  function DitherRows(cs: seq<Color>, w: nat, h: nat, bits: Bits, y: nat): (r: seq<Color>)
    requires BitsOk(bits) && y <= h && |cs| == w * h
    ensures |r| == |cs|
  {
    if y == 0 then cs
    else
      RowBounds(y, h, w);
      DitherLine(DitherRows(cs, w, h, bits, y - 1), w, bits, RowStart(y - 1, w), w, y < h)
  }

  /** `y*w`: the index where row y of a w-wide grid starts. */
  function RowStart(y: nat, w: nat): nat
  {
    MulNat(y, w);
    y * w
  }

  /** The row after the last of a w x h grid starts at its end. */
  lemma RowStartEnd(h: nat, w: nat)
    ensures RowStart(h, w) == w * h
  {
  }

  /** Row y-1 of a w x h grid ends inside it, and so does row y when y < h. */
  lemma RowBounds(y: nat, h: nat, w: nat)
    requires 1 <= y <= h
    ensures RowStart(y - 1, w) + w == RowStart(y, w) <= w * h
    ensures y < h ==> RowStart(y - 1, w) + 2 * w <= w * h
  {
    MulLe(y, h, w);
    if y < h { MulLe(y + 1, h, w); }
  }

  /** One more row of the scan. */
  lemma RowStep(cs: seq<Color>, w: nat, h: nat, bits: Bits, y: nat)
    requires BitsOk(bits) && y < h && |cs| == w * h
    ensures RowStart(y, w) + w <= |cs| && (y + 1 < h ==> RowStart(y, w) + 2 * w <= |cs|)
    ensures DitherRows(cs, w, h, bits, y + 1) ==
            DitherLine(DitherRows(cs, w, h, bits, y), w, bits, RowStart(y, w), w, y + 1 < h)
  {
    RowBounds(y + 1, h, w);
  }

  /** The pixels after the whole scan. */
  function Dithered(cs: seq<Color>, w: nat, h: nat, bits: Bits): (r: seq<Color>)
    requires BitsOk(bits) && |cs| == w * h
    ensures |r| == |cs|
  {
    DitherRows(cs, w, h, bits, h)
  }

  /** A truncated colour fits the bit split. */
  lemma QuantizeFits(c: Color, bits: Bits)
    requires BitsOk(bits)
    ensures Fits(Quantize(c, bits), bits)
  {
  }

  /** One step keeps the fitting prefix before pixel i and makes pixel i fit. */
  lemma StepFits(ps: seq<Color>, w: nat, bits: Bits, i: nat, x: nat, below: bool)
    requires BitsOk(bits) && x < w && x <= i && i - x + w <= |ps| && (below ==> i - x + 2 * w <= |ps|)
    requires forall j | 0 <= j < i :: Fits(ps[j], bits)
    ensures forall j | 0 <= j <= i :: Fits(Step(ps, w, bits, i, x, below)[j], bits)
  {
    var r := Step(ps, w, bits, i, x, below);
    QuantizeFits(ps[i], bits);
    forall j | 0 <= j < i
      ensures Fits(r[j], bits)
    {
      assert r[j] == r[..i][j];
    }
  }

  /** The first `row + x` pixels fit the bit split after the first x steps of a row
      whose earlier pixels already fit. */
  lemma {:induction false} LineFits(ps: seq<Color>, w: nat, bits: Bits, row: nat, x: nat, below: bool)
    requires BitsOk(bits) && x <= w && row + w <= |ps| && (below ==> row + 2 * w <= |ps|)
    requires forall j | 0 <= j < row :: Fits(ps[j], bits)
    ensures forall j | 0 <= j < row + x :: Fits(DitherLine(ps, w, bits, row, x, below)[j], bits)
  {
    if x > 0 {
      LineFits(ps, w, bits, row, x - 1, below);
      StepFits(DitherLine(ps, w, bits, row, x - 1, below), w, bits, row + x - 1, x - 1, below);
    }
  }

  /** The first `y*w` pixels fit the bit split after the first y rows. */
  lemma {:induction false} RowsFit(cs: seq<Color>, w: nat, h: nat, bits: Bits, y: nat)
    requires BitsOk(bits) && y <= h && |cs| == w * h
    ensures forall j | 0 <= j < |cs| && j < RowStart(y, w) :: Fits(DitherRows(cs, w, h, bits, y)[j], bits)
  {
    if y > 0 {
      RowsFit(cs, w, h, bits, y - 1);
      RowBounds(y, h, w);
      LineFits(DitherRows(cs, w, h, bits, y - 1), w, bits, RowStart(y - 1, w), w, y < h);
    }
  }

  /** After the scan every pixel is a truncated colour: each channel fits its bits. */
  lemma DitheredFits(cs: seq<Color>, w: nat, h: nat, bits: Bits)
    requires BitsOk(bits) && |cs| == w * h
    ensures forall j | 0 <= j < |cs| :: Fits(Dithered(cs, w, h, bits)[j], bits)
  {
    RowsFit(cs, w, h, bits, h);
    assert RowStart(h, w) == |cs|;
  }

  // ---------------------------------------------------------------------------
  // The output words
  // ---------------------------------------------------------------------------

  /** `r<<(g+b+a) | g<<(b+a) | b<<a | a` for the bit split; the fields of a
      fitting colour do not overlap, so the OR is written as a sum. */
  function DitherWord(bits: Bits, c: Color): nat
  {
    c.r * Pow2(bits.g + bits.b + bits.a) + c.g * Pow2(bits.b + bits.a) + c.b * Pow2(bits.a) + c.a
  }

  /** A field below P placed above a value below R stays below P*R. */
  lemma Stack(v: nat, p: nat, rest: nat, r: nat)
    requires v < p && rest < r
    ensures v * r + rest < p * r
  {
    MulLe(v + 1, p, r);
  }

  lemma Pow2Values()
    ensures Pow2(8) == 256 && Pow2(16) == 0x1_0000
  {
  }

  lemma {:induction false} Pow2Mono(m: nat, n: nat)
    requires m <= n
    ensures Pow2(m) <= Pow2(n)
  {
    if m < n {
      Pow2Mono(m, n - 1);
    }
  }

  /** The fields of a fitting colour stack up to less than 2^Total. */
  lemma DitherWordBelow(bits: Bits, c: Color)
    requires Fits(c, bits)
    ensures DitherWord(bits, c) < Pow2(Total(bits))
  {
    var pa, pba, pgba := Pow2(bits.a), Pow2(bits.b + bits.a), Pow2(bits.g + bits.b + bits.a);
    Pow2Add(bits.b, bits.a);
    Pow2Add(bits.g, bits.b + bits.a);
    Pow2Add(bits.r, bits.g + bits.b + bits.a);
    MulNat(c.b, pa);
    var low := c.b * pa + c.a;
    Stack(c.b, Pow2(bits.b), c.a, pa);
    MulNat(c.g, pba);
    var mid := c.g * pba + low;
    Stack(c.g, Pow2(bits.g), low, pba);
    Stack(c.r, Pow2(bits.r), mid, pgba);
    assert DitherWord(bits, c) == c.r * pgba + mid;
  }

  /** A fitting colour's word fits in 16 bits whenever the split takes 16 bits or
      fewer. */
  lemma DitherWordFits(bits: Bits, c: Color)
    requires Fits(c, bits) && Total(bits) <= 16
    ensures DitherWord(bits, c) < 0x1_0000
  {
    DitherWordBelow(bits, c);
    Pow2Mono(Total(bits), 16);
    Pow2Values();
  }

  /** The format Image_Dither records: R5G6B5, R5G5B5A1 or R4G4B4A4 for exactly the
      splits (5,6,5,0), (5,5,5,1) and (4,4,4,4), and 0 for any other. */
  function DitherFormat(bits: Bits): (f: int)
    ensures f == R5G6B5 <==> bits == Bits(5, 6, 5, 0)
    ensures f == R5G5B5A1 <==> bits == Bits(5, 5, 5, 1)
    ensures f == R4G4B4A4 <==> bits == Bits(4, 4, 4, 4)
    ensures f != R5G6B5 && f != R5G5B5A1 && f != R4G4B4A4 ==> f == 0
  {
    if bits == Bits(5, 6, 5, 0) then R5G6B5
    else if bits == Bits(5, 5, 5, 1) then R5G5B5A1
    else if bits == Bits(4, 4, 4, 4) then R4G4B4A4
    else 0
  }

  /** For the three known splits the dithered word is the word of the recorded
      format, so its decoder reads the truncated channels back. */
  lemma DitherWordKnown(c: Color)
    ensures Fits(c, Bits(5, 6, 5, 0)) ==> DitherWord(Bits(5, 6, 5, 0), c) == Pack565(c.r, c.g, c.b)
    ensures Fits(c, Bits(5, 5, 5, 1)) ==> DitherWord(Bits(5, 5, 5, 1), c) == Pack5551(c.r, c.g, c.b, c.a)
    ensures Fits(c, Bits(4, 4, 4, 4)) ==> DitherWord(Bits(4, 4, 4, 4), c) == Pack4444(c.r, c.g, c.b, c.a)
  {
    assert Pow2(0) == 1 && Pow2(1) == 2 && Pow2(4) == 16 && Pow2(5) == 32 && Pow2(6) == 64;
    assert Pow2(8) == 256 && Pow2(11) == 2048 && Pow2(12) == 4096;
  }

  /** Buffer d holds one little-endian 16-bit word per colour of ps. */
  predicate HoldsWords(d: seq<byte>, ps: seq<Color>, bits: Bits)
  {
    |d| == 2 * |ps| && WordsUpTo(d, ps, |ps|, bits)
  }

  /** The first n words of d are those of the first n colours of ps. */
  predicate WordsUpTo(d: seq<byte>, ps: seq<Color>, n: nat, bits: Bits)
  {
    2 * n <= |d| && n <= |ps| &&
    forall j | 0 <= j < n :: Word(d[2 * j], d[2 * j + 1]) == DitherWord(bits, ps[j])
  }

  /** The words so far survive when neither their bytes nor their colours change,
      and one more word is added. */
  lemma WordsExtend(d: seq<byte>, ps: seq<Color>, n: nat, d': seq<byte>, ps': seq<Color>, bits: Bits)
    requires WordsUpTo(d, ps, n, bits) && 2 * n + 2 <= |d'| && n < |ps'|
    requires d'[..2 * n] == d[..2 * n] && ps'[..n] == ps[..n]
    requires Word(d'[2 * n], d'[2 * n + 1]) == DitherWord(bits, ps'[n])
    ensures WordsUpTo(d', ps', n + 1, bits)
  {
    forall j | 0 <= j < n
      ensures Word(d'[2 * j], d'[2 * j + 1]) == DitherWord(bits, ps'[j])
    {
      assert d'[2 * j] == d'[..2 * n][2 * j] && d'[2 * j + 1] == d'[..2 * n][2 * j + 1];
      assert ps'[j] == ps'[..n][j];
    }
  }

  // ---------------------------------------------------------------------------
  // The in-place scan
  // ---------------------------------------------------------------------------

  /** Applying a first share, then the rest. */
  lemma DiffuseHead(ps: seq<Color>, s: Share, ns: seq<Share>, e: Err, lo: nat)
    requires lo <= s.at < |ps| && Within(ns, lo, |ps|)
    ensures Within([s] + ns, lo, |ps|)
    ensures Diffuse(ps, [s] + ns, e, lo) == Diffuse(ps[s.at := SpreadColor(ps[s.at], e, s.weight)], ns, e, lo)
  {
    assert ([s] + ns)[0] == s && ([s] + ns)[1..] == ns;
  }

  /** One neighbour update of the scan, when c holds: `target` is what the
      remaining shares, this one first, make of the array. */
  method ShareError(pixels: array<Color>, c: bool, s: Share, e: Err, ghost rest: seq<Share>, ghost lo: nat,
                    ghost target: seq<Color>)
    requires (c ==> lo <= s.at < pixels.Length) && Within(rest, lo, pixels.Length) && lo <= pixels.Length
    requires Within(Prepend(c, s, rest), lo, pixels.Length)
    requires Diffuse(pixels[..], Prepend(c, s, rest), e, lo) == target
    modifies pixels
    ensures Diffuse(pixels[..], rest, e, lo) == target
  {
    if c {
      DiffuseHead(pixels[..], s, rest, e, lo);
      pixels[s.at] := SpreadColor(pixels[s.at], e, s.weight);
    }
  }

  /** The four neighbour updates of the scan at pixel i, column x, in the source's
      order, each where the neighbour exists. */
  method ShareErrors(pixels: array<Color>, w: nat, i: nat, x: nat, below: bool, e: Err, ghost target: seq<Color>)
    requires x < w && x <= i && i - x + w <= pixels.Length && (below ==> i - x + 2 * w <= pixels.Length)
    requires Within(Neighbours(w, i, x, below), i + 1, pixels.Length)
    requires Diffuse(pixels[..], Neighbours(w, i, x, below), e, i + 1) == target
    modifies pixels
    ensures pixels[..] == target
  {
    var n := pixels.Length;
    ghost var n4 := Prepend(x < w - 1 && below, Share(i + w + 1, 1), []);
    ghost var n3 := Prepend(below, Share(i + w, 5), n4);
    ghost var n2 := Prepend(x > 0 && below, Share(i + w - 1, 3), n3);
    PrependWithin(x < w - 1 && below, Share(i + w + 1, 1), [], i + 1, n);
    PrependWithin(below, Share(i + w, 5), n4, i + 1, n);
    PrependWithin(x > 0 && below, Share(i + w - 1, 3), n3, i + 1, n);
    ShareError(pixels, x < w - 1, Share(i + 1, 7), e, n2, i + 1, target);
    ShareError(pixels, x > 0 && below, Share(i + w - 1, 3), e, n3, i + 1, target);
    ShareError(pixels, below, Share(i + w, 5), e, n4, i + 1, target);
    ShareError(pixels, x < w - 1 && below, Share(i + w + 1, 1), e, [], i + 1, target);
  }

  /** The body of the scan at pixel i, column x: the pixel is truncated in the
      array and its errors pushed to the neighbours ahead. */
  method DitherPixel(pixels: array<Color>, w: nat, bits: Bits, i: nat, x: nat, below: bool) returns (q: Color)
    requires BitsOk(bits) && x < w && x <= i && i - x + w <= pixels.Length
    requires below ==> i - x + 2 * w <= pixels.Length
    modifies pixels
    ensures q == Quantize(old(pixels[i]), bits)
    ensures pixels[..] == Step(old(pixels[..]), w, bits, i, x, below)
  {
    var c := pixels[i];
    q := Quantize(c, bits);
    var e := Errors(c, bits);
    pixels[i] := q;
    WithinWiden(Neighbours(w, i, x, below), i + 1, i - x + (if below then 2 * w else w), pixels.Length);
    ShareErrors(pixels, w, i, x, below, e, Step(old(pixels[..]), w, bits, i, x, below));
  }

  /** Stores the 16-bit word v at word index i, little-endian, keeping the bytes
      before it. */
  method StoreWord(data: array<byte>, i: nat, v: int)
    requires 0 <= v < 0x1_0000 && 2 * i + 2 <= data.Length
    modifies data
    ensures data[..2 * i] == old(data[..2 * i]) && Word(data[2 * i], data[2 * i + 1]) == v
  {
    var word := WordBytes(v);
    data[2 * i] := word[0];
    data[2 * i + 1] := word[1];
  }

  /** The scan at pixel i, column x, and the store of its truncated colour's word. */
  method DitherStore(pixels: array<Color>, data: array<byte>, w: nat, bits: Bits, i: nat, x: nat, below: bool)
    requires BitsOk(bits) && Total(bits) <= 16 && x < w && x <= i && i - x + w <= pixels.Length
    requires below ==> i - x + 2 * w <= pixels.Length
    requires data.Length == 2 * pixels.Length && WordsUpTo(data[..], pixels[..], i, bits)
    modifies pixels, data
    ensures pixels[..] == Step(old(pixels[..]), w, bits, i, x, below)
    ensures WordsUpTo(data[..], pixels[..], i + 1, bits)
  {
    ghost var d, ps := data[..], pixels[..];
    var q := DitherPixel(pixels, w, bits, i, x, below);
    QuantizeFits(ps[i], bits);
    DitherWordFits(bits, q);
    StoreWord(data, i, DitherWord(bits, q));
    assert data[..][..2 * i] == d[..2 * i];
    WordsExtend(d, ps, i, data[..], pixels[..], bits);
  }

  /** One row of the scan, starting at index `row`: the pixels follow DitherLine,
      and the word of each pixel done is stored in the new buffer. */
  method DitherLineScan(pixels: array<Color>, data: array<byte>, w: nat, bits: Bits, row: nat, below: bool)
    requires BitsOk(bits) && Total(bits) <= 16 && row + w <= pixels.Length && (below ==> row + 2 * w <= pixels.Length)
    requires data.Length == 2 * pixels.Length && WordsUpTo(data[..], pixels[..], row, bits)
    modifies pixels, data
    ensures pixels[..] == DitherLine(old(pixels[..]), w, bits, row, w, below)
    ensures WordsUpTo(data[..], pixels[..], row + w, bits)
  {
    ghost var ps := pixels[..];
    for x := 0 to w
      invariant pixels[..] == DitherLine(ps, w, bits, row, x, below)
      invariant WordsUpTo(data[..], pixels[..], row + x, bits)
    {
      LineStep(ps, w, bits, row, x, below);
      DitherStore(pixels, data, w, bits, row + x, x, below);
    }
  }

  /** Row y of the scan over a w x h array of colours that started as cs. */
  method DitherRow(pixels: array<Color>, data: array<byte>, w: nat, h: nat, bits: Bits, y: nat, ghost cs: seq<Color>)
    requires BitsOk(bits) && Total(bits) <= 16 && y < h && |cs| == w * h
    requires pixels.Length == |cs| && data.Length == 2 * pixels.Length
    requires pixels[..] == DitherRows(cs, w, h, bits, y) && WordsUpTo(data[..], pixels[..], RowStart(y, w), bits)
    modifies pixels, data
    ensures pixels[..] == DitherRows(cs, w, h, bits, y + 1)
    ensures WordsUpTo(data[..], pixels[..], RowStart(y + 1, w), bits)
  {
    RowBounds(y + 1, h, w);
    RowStep(cs, w, h, bits, y);
    DitherLineScan(pixels, data, w, bits, RowStart(y, w), y + 1 < h);
  }

  /** The whole scan over a w x h array of colours. */
  method DitherScan(pixels: array<Color>, data: array<byte>, w: nat, h: nat, bits: Bits)
    requires BitsOk(bits) && Total(bits) <= 16 && pixels.Length == w * h && data.Length == 2 * pixels.Length
    modifies pixels, data
    ensures pixels[..] == Dithered(old(pixels[..]), w, h, bits)
    ensures HoldsWords(data[..], pixels[..], bits)
  {
    ghost var cs := pixels[..];
    for y := 0 to h
      invariant pixels[..] == DitherRows(cs, w, h, bits, y)
      invariant WordsUpTo(data[..], pixels[..], RowStart(y, w), bits)
    {
      DitherRow(pixels, data, w, h, bits, y, cs);
    }
    RowStartEnd(h, w);
  }

  /** The new buffer of a dithered image is valid for the recorded format: two
      bytes per pixel for the three 16-bit formats and none needed for format 0. */
  lemma DitheredValid(w: nat, h: nat, bits: Bits, len: nat)
    requires len == 2 * (w * h)
    ensures PixelDataSize(w, h, DitherFormat(bits)) <= len
    ensures w * h * BytesPerPixel(DitherFormat(bits)) <= len
  {
    var f := DitherFormat(bits);
    BytesPerPixelTable(f);
    UncompressedSize(w, h, f);
  }

  /** Image_Dither. An image without pixels, a block-compressed image or a split of
      more than 16 bits is left alone. Otherwise the image gets a fresh buffer of one
      16-bit word per pixel holding, for an uncompressed image, the words of its
      dithered colours, and the format DitherFormat names; size and mipmap count
      are kept. */
  method Dither(image: Image, rBpp: nat, gBpp: nat, bBpp: nat, aBpp: nat, ops: FloatOps)
    requires image.Valid() && BitsOk(Bits(rBpp, gBpp, bBpp, aBpp))
    modifies image
    ensures image.Valid()
    ensures old(image.Empty()) || IsCompressed(old(image.format)) || Total(Bits(rBpp, gBpp, bBpp, aBpp)) > 16 ==>
      unchanged(image)
    ensures !(old(image.Empty()) || IsCompressed(old(image.format)) || Total(Bits(rBpp, gBpp, bBpp, aBpp)) > 16) ==>
      image.width == old(image.width) && image.height == old(image.height) && image.mipmaps == old(image.mipmaps) &&
      image.format == DitherFormat(Bits(rBpp, gBpp, bBpp, aBpp)) &&
      image.data != null && fresh(image.data) && image.data.Length == 2 * (image.width * image.height)
    ensures !(old(image.Empty()) || Total(Bits(rBpp, gBpp, bBpp, aBpp)) > 16) && IsUncompressed(old(image.format)) ==>
      HoldsWords(image.Contents(),
                 Dithered(old(ColorsOf(image, ops)), image.width, image.height, Bits(rBpp, gBpp, bBpp, aBpp)),
                 Bits(rBpp, gBpp, bBpp, aBpp))
  {
    var bits := Bits(rBpp, gBpp, bBpp, aBpp);
    if image.Empty() || image.format >= Dxt1Rgb {
      return;
    }
    if Total(bits) > 16 {
      return;
    }
    var pixels := LoadColors(image, ops);
    var w, h := image.width, image.height;
    image.format := DitherFormat(bits);
    var data := new byte[2 * (w * h)](_ => 0);
    DitherScan(pixels, data, w, h, bits);
    image.data := data;
    DitheredValid(w, h, bits, data.Length);
  }
}
