/** The RGBA `Color`, the integer alpha blend, the 16-bit packed layouts and the
    per-pixel decoders and encoders of the image engine. Floating-point code the
    engine calls is passed in as a `FloatOps` value. */
module Colors {
  import opened Bytes
  import opened PixelFormats

  /** An RGBA colour, 8 bits per channel. */
  datatype Color = Color(r: byte, g: byte, b: byte, a: byte)

  const White := Color(255, 255, 255, 255)
  const Blank := Color(0, 0, 0, 0)

  /** The floating-point conversions the engine performs, which this model takes as
      given functions:
      - floatToByte: `(unsigned char)(f*255.0f)` of the 32-bit float stored in 4 bytes;
      - byteToFloat: the 4 bytes of `(float)c/255.0f`;
      - floatAtMost: `f <= threshold` for the float stored in 4 bytes;
      - outOfRange: a float-to-`unsigned char` conversion of a value outside 0..255;
      - encodePixel: the float branches of Color_SetPixel and Image_DrawPixel;
      - premultiply: `(unsigned char)((float)c*((float)a/255.0f))`;
      - reformat: the pixel conversion of Image_SetFormat (data, width, height, from, to);
      - resize: stbir_resize_uint8 as Image_Resize calls it
        (data, width, height, format, new width, new height). */
  datatype FloatOps = FloatOps(
    floatToByte: seq<byte> -> byte,
    byteToFloat: byte -> seq<byte>,
    floatAtMost: (seq<byte>, real) -> bool,
    outOfRange: int -> byte,
    encodePixel: (Color, int) -> seq<byte>,
    premultiply: (byte, byte) -> byte,
    reformat: (seq<byte>, nat, nat, int, int) -> seq<byte>,
    resize: (seq<byte>, nat, nat, int, nat, nat) -> seq<byte>)

  /** A float-to-`unsigned char` conversion of an integral value: exact in range. */
  function UChar(ops: FloatOps, v: int): (c: byte)
    ensures 0 <= v < 256 ==> c == v
  {
    if 0 <= v < 256 then v else ops.outOfRange(v)
  }

  /** `(unsigned char)(t*k)` for a threshold t; the rounding of the float product is
      not modelled. */
  function ScaledThreshold(ops: FloatOps, t: real, k: nat): byte
  {
    UChar(ops, (t * k as real).Floor)
  }

  // ---------------------------------------------------------------------------
  // Color_AlphaBlend, integer path
  // ---------------------------------------------------------------------------

  /** `(c*t) >> 8`, the tint of one source channel. */
  function TintChannel(c: byte, t: byte): byte
  {
    TintBound(c, t);
    (c as int) * (t as int) / 256
  }

  /** The tint of a channel is at most 254, and an unchanged-but-one channel under
      the full tint 255. */
  lemma TintBound(c: int, t: int)
    requires 0 <= c <= 255 && 0 <= t <= 255
    ensures 0 <= c * t / 256 <= 254
    ensures c > 0 && t == 255 ==> c * t / 256 == c - 1
  {
    MulLe(c, 255, t);
    MulLe(t, 255, 255);
    if c > 0 && t == 255 {
      DivUnique(c * 255, 256, c - 1, 256 - c);
    }
  }

  function Tint(src: Color, tint: Color): Color
  {
    Color(TintChannel(src.r, tint.r), TintChannel(src.g, tint.g),
          TintChannel(src.b, tint.b), TintChannel(src.a, tint.a))
  }

  /** The weighted sum the blend divides: `src*alpha*256 + dst*dstA*(256 - alpha)`. */
  function BlendNumerator(sc: int, dc: int, dstA: int, alpha: int): int
  {
    sc * alpha * 256 + dc * dstA * (256 - alpha)
  }

  /** `(alpha*256 + dstA*(256 - alpha)) >> 8`, the blended alpha before the cast. */
  function BlendAlpha(dstA: int, alpha: int): int
  {
    (alpha * 256 + dstA * (256 - alpha)) / 256
  }

  /** One colour channel before the `(unsigned char)` cast. */
  function BlendQuotient(sc: int, dc: int, dstA: int, alpha: int, outA: int): int
    requires outA > 0
  {
    BlendNumerator(sc, dc, dstA, alpha) / outA / 256
  }

  /** Color_AlphaBlend as written: the tinted source over `dst`. */
  function AlphaBlend(dst: Color, src: Color, tint: Color): Color
  {
    BlendTinted(dst, Tint(src, tint))
  }

  /** The integer blend of an already tinted source `s` over `dst`, each channel cast
      to `unsigned char`, so a quotient above 255 wraps. */
  function BlendTinted(dst: Color, s: Color): Color
  {
    if s.a == 0 then dst
    else if s.a == 255 then s
    else
      var alpha := s.a as int + 1;
      var outA := BlendAlpha(dst.a, alpha) % 256;
      if outA > 0 then
        Color(BlendQuotient(s.r, dst.r, dst.a, alpha, outA) % 256,
              BlendQuotient(s.g, dst.g, dst.a, alpha, outA) % 256,
              BlendQuotient(s.b, dst.b, dst.a, alpha, outA) % 256,
              outA)
      else Color(255, 255, 255, 0)
  }

  /** The tinted alpha is at most 254, so the `src.a == 255` shortcut never fires:
      an opaque source drawn with tint WHITE is blended, not copied. */
  lemma {:induction false} TintedAlphaBelowOpaque(src: Color, tint: Color)
    ensures Tint(src, tint).a <= 254
    ensures src.a > 0 && tint.a == 255 ==> Tint(src, tint).a == src.a - 1
  {
    TintBound(src.a, tint.a);
  }

  /** The blended alpha lies in [max(a+1, dst.a), 255] for a tinted alpha a > 0; it is
      never zero and never more transparent than either input. */
  lemma {:induction false} BlendAlphaRange(dstA: int, alpha: int)
    requires 0 <= dstA <= 255 && 2 <= alpha <= 255
    ensures alpha <= BlendAlpha(dstA, alpha) <= 255
    ensures dstA <= BlendAlpha(dstA, alpha)
  {
    var u := 256 - alpha;
    var v := 256 - dstA;
    var x := alpha * 256 + dstA * u;
    assert dstA * u == 256 * dstA - dstA * alpha;
    assert alpha * v == 256 * alpha - alpha * dstA;
    assert u * v == 256 * v - alpha * v;
    assert x == 65536 - u * v;
    MulLe(1, u, v);
    assert x <= 65535;
    MulLe(0, dstA, u);
    DivAtLeast(x, 256, alpha);
    assert x - dstA * 256 == alpha * v;
    MulLe(0, alpha, v);
    DivAtLeast(x, 256, dstA);
  }

  /** What the blend returns: the destination for a fully transparent (tinted)
      source; otherwise a colour whose alpha is at least the tinted alpha plus one
      and at least the destination alpha. */
  lemma {:induction false} AlphaBlendAlpha(dst: Color, src: Color, tint: Color)
    ensures Tint(src, tint).a == 0 ==> AlphaBlend(dst, src, tint) == dst
    ensures Tint(src, tint).a > 0 ==>
              AlphaBlend(dst, src, tint).a >= Tint(src, tint).a + 1 &&
              AlphaBlend(dst, src, tint).a >= dst.a
  {
    var s := Tint(src, tint);
    TintedAlphaBelowOpaque(src, tint);
    if s.a > 0 {
      BlendAlphaRange(dst.a, s.a + 1);
    }
  }

  /** Over a fully transparent destination the blend yields the tinted source with
      alpha one higher. */
  lemma {:induction false} BlendOverTransparent(dst: Color, src: Color, tint: Color)
    requires dst.a == 0 && Tint(src, tint).a > 0
    ensures var s := Tint(src, tint);
            var out := AlphaBlend(dst, src, tint);
            out.r == s.r && out.g == s.g && out.b == s.b && out.a == s.a + 1
  {
    TintedAlphaBelowOpaque(src, tint);
    TintedOverTransparent(dst, Tint(src, tint));
  }

  lemma TintedOverTransparent(dst: Color, s: Color)
    requires dst.a == 0 && 0 < s.a < 255
    ensures BlendTinted(dst, s) == Color(s.r, s.g, s.b, s.a + 1)
  {
    var alpha := s.a as int + 1;
    assert BlendAlpha(dst.a, alpha) % 256 == alpha;
    OverTransparentChannel(s.r, dst.r, alpha);
    OverTransparentChannel(s.g, dst.g, alpha);
    OverTransparentChannel(s.b, dst.b, alpha);
  }

  lemma OverTransparentChannel(sc: int, dc: int, alpha: int)
    requires 0 <= sc <= 255 && 1 <= alpha <= 255
    ensures BlendQuotient(sc, dc, 0, alpha, alpha) == sc
  {
    var q := sc * 256;
    assert BlendNumerator(sc, dc, 0, alpha) == q * alpha;
    DivUnique(q * alpha, alpha, q, 0);
    DivUnique(q, 256, sc, 0);
  }

  /** A blended channel before the cast is at least the smaller of the tinted source
      channel and the destination channel. */
  lemma {:induction false} BlendQuotientLower(sc: int, dc: int, dstA: int, alpha: int)
    requires 0 <= sc <= 255 && 0 <= dc <= 255 && 0 <= dstA <= 255 && 2 <= alpha <= 255
    ensures BlendAlpha(dstA, alpha) > 0
    ensures BlendQuotient(sc, dc, dstA, alpha, BlendAlpha(dstA, alpha)) >= Min(sc, dc)
  {
    BlendAlphaRange(dstA, alpha);
    var m := Min(sc, dc);
    var outA := BlendAlpha(dstA, alpha);
    var n := BlendNumerator(sc, dc, dstA, alpha);
    NumeratorLower(sc, dc, dstA, alpha, m);
    MulNat(m * 256, outA);
    DivAtLeast(n, outA, m * 256);
    DivAtLeast(n / outA, 256, m);
  }

  /** The numerator is at least m*256*BlendAlpha for m below both channels. */
  lemma NumeratorLower(sc: int, dc: int, dstA: int, alpha: int, m: int)
    requires 0 <= m <= sc && m <= dc && 0 <= dstA <= 255 && 2 <= alpha <= 255
    ensures BlendNumerator(sc, dc, dstA, alpha) >= (m * 256) * BlendAlpha(dstA, alpha)
  {
    var p1 := alpha * 256;
    var p2 := dstA * (256 - alpha);
    MulNat(dstA, 256 - alpha);
    var x := p1 + p2;
    MulNat(m, x);
    var n := BlendNumerator(sc, dc, dstA, alpha);
    var outA := BlendAlpha(dstA, alpha);
    assert n >= m * x by {
      assert n == sc * p1 + dc * p2;
      MulLe(m, sc, p1);
      MulLe(m, dc, p2);
      assert m * p1 + m * p2 == m * x;
    }
    assert outA * 256 <= x;
    MulLe(outA * 256, x, m);
    assert (outA * 256) * m == (m * 256) * outA;
  }

  function Min(a: int, b: int): int
  {
    if a <= b then a else b
  }

  /** Color_AlphaBlend with each channel saturated at 255 instead of wrapped. */
  function AlphaBlendSaturated(dst: Color, src: Color, tint: Color): Color
  {
    var s := Tint(src, tint);
    if s.a == 0 then dst
    else if s.a == 255 then s
    else
      var alpha := s.a as int + 1;
      var outA := BlendAlpha(dst.a, alpha) % 256;
      if outA > 0 then
        Color(Saturate(BlendQuotient(s.r, dst.r, dst.a, alpha, outA)),
              Saturate(BlendQuotient(s.g, dst.g, dst.a, alpha, outA)),
              Saturate(BlendQuotient(s.b, dst.b, dst.a, alpha, outA)),
              outA)
      else Color(255, 255, 255, 0)
  }

  function Saturate(v: int): byte
  {
    if v < 0 then 0 else if v > 255 then 255 else v
  }

  /** One channel of the saturated blend: at least the smaller input, and equal to
      the as-written cast whenever the quotient fits in a byte. */
  lemma {:induction false} SaturatedChannel(sc: int, dc: int, dstA: int, alpha: int)
    requires 0 <= sc <= 255 && 0 <= dc <= 255 && 0 <= dstA <= 255 && 2 <= alpha <= 255
    ensures BlendAlpha(dstA, alpha) % 256 == BlendAlpha(dstA, alpha) > 0
    ensures var q := BlendQuotient(sc, dc, dstA, alpha, BlendAlpha(dstA, alpha));
            Saturate(q) >= Min(sc, dc) && (q <= 255 ==> Saturate(q) == q % 256)
  {
    BlendQuotientLower(sc, dc, dstA, alpha);
    BlendAlphaRange(dstA, alpha);
  }

  /** The saturated blend never darkens a channel below both of its inputs, and it
      agrees with the as-written blend whenever no channel exceeds 255. */
  lemma {:induction false} SaturatedBlendBetween(dst: Color, src: Color, tint: Color)
    requires Tint(src, tint).a > 0
    ensures var s := Tint(src, tint);
            var out := AlphaBlendSaturated(dst, src, tint);
            out.r >= Min(s.r, dst.r) && out.g >= Min(s.g, dst.g) && out.b >= Min(s.b, dst.b)
    ensures var s := Tint(src, tint);
            var outA := BlendAlpha(dst.a, s.a as int + 1);
            outA > 0 &&
            (BlendQuotient(s.r, dst.r, dst.a, s.a as int + 1, outA) <= 255 &&
             BlendQuotient(s.g, dst.g, dst.a, s.a as int + 1, outA) <= 255 &&
             BlendQuotient(s.b, dst.b, dst.a, s.a as int + 1, outA) <= 255
             ==> AlphaBlendSaturated(dst, src, tint) == AlphaBlend(dst, src, tint))
  {
    var s := Tint(src, tint);
    TintedAlphaBelowOpaque(src, tint);
    var alpha := s.a as int + 1;
    SaturatedChannel(s.r, dst.r, dst.a, alpha);
    SaturatedChannel(s.g, dst.g, dst.a, alpha);
    SaturatedChannel(s.b, dst.b, dst.a, alpha);
  }

  /** White over nearly transparent white: the red quotient is 380, which the cast
      wraps to 124, far below both inputs (254 and 255). */
  lemma BlendWrapsWhiteOnWhite()
    ensures AlphaBlend(Color(255, 255, 255, 1), Color(255, 255, 255, 2), White).r == 124
    ensures AlphaBlendSaturated(Color(255, 255, 255, 1), Color(255, 255, 255, 2), White).r == 255
  {
    var s := Tint(Color(255, 255, 255, 2), White);
    assert s == Color(254, 254, 254, 1);
    assert BlendAlpha(1, 2) == 2;
    assert BlendNumerator(254, 255, 1, 2) == 194818;
    assert BlendQuotient(254, 255, 1, 2, 2) == 380;
  }

  // ---------------------------------------------------------------------------
  // 16-bit packed layouts
  // ---------------------------------------------------------------------------

  /** `r<<11 | g<<5 | b`, the R5G6B5 word (fields are disjoint, so OR is a sum). */
  function Pack565(r: nat, g: nat, b: nat): nat
    requires r < 32 && g < 64 && b < 32
  {
    r * 2048 + g * 32 + b
  }

  /** `r<<11 | g<<6 | b<<1 | a`, the R5G5B5A1 word. */
  function Pack5551(r: nat, g: nat, b: nat, a: nat): nat
    requires r < 32 && g < 32 && b < 32 && a < 2
  {
    r * 2048 + g * 64 + b * 2 + a
  }

  /** `r<<12 | g<<8 | b<<4 | a`, the R4G4B4A4 word. */
  function Pack4444(r: nat, g: nat, b: nat, a: nat): nat
    requires r < 16 && g < 16 && b < 16 && a < 16
  {
    r * 4096 + g * 256 + b * 16 + a
  }

  /** The shifts and masks the decoders apply recover every field of each layout. */
  lemma {:induction false} PackedFieldsRoundTrip(r: nat, g: nat, b: nat, a: nat)
    ensures r < 32 && g < 64 && b < 32 ==>
              var w := Pack565(r, g, b);
              w < 0x1_0000 && w / 2048 == r && (w / 32) % 64 == g && w % 32 == b
    ensures r < 32 && g < 32 && b < 32 && a < 2 ==>
              var w := Pack5551(r, g, b, a);
              w < 0x1_0000 && w / 2048 == r && (w / 64) % 32 == g && (w % 64) / 2 == b && w % 2 == a
    ensures r < 16 && g < 16 && b < 16 && a < 16 ==>
              var w := Pack4444(r, g, b, a);
              w < 0x1_0000 && w / 4096 == r && (w / 256) % 16 == g && (w / 16) % 16 == b && w % 16 == a
  {
    if r < 32 && g < 64 && b < 32 {
      var w := Pack565(r, g, b);
      DivUnique(w, 2048, r, g * 32 + b);
      DivUnique(w, 32, r * 64 + g, b);
      DivUnique(r * 64 + g, 64, r, g);
    }
    if r < 32 && g < 32 && b < 32 && a < 2 {
      var w := Pack5551(r, g, b, a);
      DivUnique(w, 2048, r, g * 64 + b * 2 + a);
      DivUnique(w, 64, r * 32 + g, b * 2 + a);
      DivUnique(r * 32 + g, 32, r, g);
      DivUnique(w, 2, r * 1024 + g * 32 + b, a);
      DivUnique(b * 2 + a, 2, b, a);
    }
    if r < 16 && g < 16 && b < 16 && a < 16 {
      var w := Pack4444(r, g, b, a);
      DivUnique(w, 4096, r, g * 256 + b * 16 + a);
      DivUnique(w, 256, r * 16 + g, b * 16 + a);
      DivUnique(r * 16 + g, 16, r, g);
      DivUnique(w, 16, r * 256 + g * 16 + b, a);
      DivUnique(r * 256 + g * 16 + b, 16, r * 16 + g, b);
    }
  }

  // ---------------------------------------------------------------------------
  // Decoders
  // ---------------------------------------------------------------------------

  /** The packed decode of LoadImageColors and GetImageColor: fields are scaled by
      the integer constants 255/31 = 8, 255/63 = 4 and 255/15 = 17. */
  function LoadedPacked(w: nat, format: int): Color
    requires w < 0x1_0000
    requires format == R5G6B5 || format == R5G5B5A1 || format == R4G4B4A4
  {
    if format == R5G6B5 then
      Color((w / 2048) * 8, ((w / 32) % 64) * 4, (w % 32) * 8, 255)
    else if format == R5G5B5A1 then
      Color((w / 2048) * 8, ((w / 64) % 32) * 8, ((w % 64) / 2) * 8, (w % 2) * 255)
    else
      Color((w / 4096) * 17, ((w / 256) % 16) * 17, ((w / 16) % 16) * 17, (w % 16) * 17)
  }

  /** The packed decode of Color_GetPixel: `field*255/max`, and for R5G5B5A1 a blue
      channel taken from the low five bits, alpha bit included. */
  function GetPixelPacked(w: nat, format: int): Color
    requires w < 0x1_0000
    requires format == R5G6B5 || format == R5G5B5A1 || format == R4G4B4A4
  {
    if format == R5G6B5 then
      Color(Expand(w / 2048, 31), Expand((w / 32) % 64, 63), Expand(w % 32, 31), 255)
    else if format == R5G5B5A1 then
      Color(Expand(w / 2048, 31), Expand((w / 64) % 32, 31), Expand(w % 32, 31),
            if w % 2 == 1 then 255 else 0)
    else
      Color(Expand(w / 4096, 15), Expand((w / 256) % 16, 15), Expand((w / 16) % 16, 15),
            Expand(w % 16, 15))
  }

  /** `v*255/m`: a field of at most m scaled to 0..255 in integer arithmetic. */
  function Expand(v: nat, m: nat): byte
    requires 1 <= m && v <= m
  {
    MulLe(v, m, 255);
    v * 255 / m
  }


  /** The two decoders of R5G6B5 disagree: Color_GetPixel gives `8f + 7f/31` for a
      five-bit field f where LoadImageColors gives `8f`, so full red is 255 in one
      and 248 in the other. */
  lemma {:induction false} DecodersDiffer565(w: nat)
    requires w < 0x1_0000
    ensures GetPixelPacked(w, R5G6B5).r == LoadedPacked(w, R5G6B5).r + (7 * (w / 2048)) / 31
    ensures GetPixelPacked(w, R5G6B5).b == LoadedPacked(w, R5G6B5).b + (7 * (w % 32)) / 31
    ensures GetPixelPacked(w, R5G6B5).g == LoadedPacked(w, R5G6B5).g + (3 * ((w / 32) % 64)) / 63
    ensures GetPixelPacked(0xFFFF, R5G6B5).r == 255 && LoadedPacked(0xFFFF, R5G6B5).r == 248
  {
    FieldScale(w / 2048, 31, 8, 7);
    FieldScale(w % 32, 31, 8, 7);
    FieldScale((w / 32) % 64, 63, 4, 3);
  }

  /** f*(k*m + e)/m == k*f + e*f/m. */
  lemma FieldScale(f: nat, m: nat, k: nat, e: nat)
    requires m >= 1
    ensures f * (k * m + e) / m == k * f + (e * f) / m
  {
    MulNat(e, f);
    MulNat(k, f);
    MulNat(f, k * m + e);
    var ef := e * f;
    var q := ef / m;
    var rem := ef % m;
    var kf := k * f;
    assert f * (k * m + e) == kf * m + ef by {
      assert f * (k * m + e) == f * (k * m) + f * e;
      assert f * (k * m) == (k * f) * m;
    }
    assert kf * m + ef == (kf + q) * m + rem;
    DivUnique(f * (k * m + e), m, kf + q, rem);
  }

  /** The R5G5B5A1 word 1 decodes with blue 8. */
  lemma GetPixelPackedWordOne()
    ensures GetPixelPacked(1, R5G5B5A1) == Color(0, 0, 8, 255)
  {
    assert Expand(0, 31) == 0;
    assert Expand(1, 31) == 8;
  }

  /** The bytes [1, 0] hold the R5G5B5A1 word 1. */
  lemma GetPixelWordOne(ops: FloatOps)
    ensures GetPixel([1, 0], R5G5B5A1, ops) == GetPixelPacked(1, R5G5B5A1)
  {
    assert Word(1, 0) == 1;
  }

  /** Color_GetPixel reads the alpha bit into R5G5B5A1 blue: an opaque black pixel
      (the word 1) decodes with blue 8. */
  lemma GetPixelBlueTakesAlphaBit(ops: FloatOps)
    ensures GetPixelPacked(Pack5551(0, 0, 0, 1), R5G5B5A1) == Color(0, 0, 8, 255)
    ensures GetPixel([1, 0], R5G5B5A1, ops) == Color(0, 0, 8, 255)
  {
    assert Pack5551(0, 0, 0, 1) == 1;
    GetPixelPackedWordOne();
    GetPixelWordOne(ops);
  }

  /** Color_GetPixel's R5G5B5A1 decode with blue taken from bits 1..5. */
  function GetPixel5551Fixed(w: nat): Color
    requires w < 0x1_0000
  {
    Color((w / 2048) * 255 / 31, ((w / 64) % 32) * 255 / 31, ((w % 64) / 2) * 255 / 31,
          if w % 2 == 1 then 255 else 0)
  }

  /** With the fixed mask, every field of a packed R5G5B5A1 word decodes on its own:
      blue no longer depends on the alpha bit. */
  lemma {:induction false} GetPixel5551FixedFields(r: nat, g: nat, b: nat, a: nat)
    requires r < 32 && g < 32 && b < 32 && a < 2
    ensures GetPixel5551Fixed(Pack5551(r, g, b, a))
         == Color(r * 255 / 31, g * 255 / 31, b * 255 / 31, if a == 1 then 255 else 0)
  {
    PackedFieldsRoundTrip(r, g, b, a);
  }

  /** Color_GetPixel: one pixel decoded from the bytes at `p`, the R5G5B5A1 blue
      mask as written (see `GetPixelBlueTakesAlphaBit`). */
  function GetPixel(p: seq<byte>, format: int, ops: FloatOps): Color
    requires IsUncompressed(format) ==> |p| >= BytesPerPixel(format)
  {
    if format == Grayscale then Color(p[0], p[0], p[0], 255)
    else if format == GrayAlpha then Color(p[0], p[0], p[0], p[1])
    else if format == R5G6B5 || format == R5G5B5A1 || format == R4G4B4A4 then
      GetPixelPacked(Word(p[0], p[1]), format)
    else if format == R8G8B8A8 then Color(p[0], p[1], p[2], p[3])
    else if format == R8G8B8 then Color(p[0], p[1], p[2], 255)
    else if format == R32 then
      var v := ops.floatToByte(p[0..4]); Color(v, v, v, 255)
    else if format == R32G32B32 then
      Color(ops.floatToByte(p[0..4]), ops.floatToByte(p[4..8]), ops.floatToByte(p[8..12]), 255)
    else if format == R32G32B32A32 then
      Color(ops.floatToByte(p[0..4]), ops.floatToByte(p[4..8]), ops.floatToByte(p[8..12]),
            ops.floatToByte(p[12..16]))
    else Blank
  }

  /** Pixel i as LoadImageColors decodes it from the whole buffer `data`, as
      written: the R32 case reads at an index that is never advanced, so it reads
      pixel 0 for every pixel; the R32G32B32A32 case reads its first float for all
      four channels. */
  function LoadedPixel(data: seq<byte>, i: nat, format: int, ops: FloatOps): Color
    requires IsUncompressed(format) ==> (i + 1) * BytesPerPixel(format) <= |data|
  {
    if format == Grayscale then Color(data[i], data[i], data[i], 255)
    else if format == GrayAlpha then Color(data[2 * i], data[2 * i], data[2 * i], data[2 * i + 1])
    else if format == R5G6B5 || format == R5G5B5A1 || format == R4G4B4A4 then
      LoadedPacked(Word(data[2 * i], data[2 * i + 1]), format)
    else if format == R8G8B8A8 then Color(data[4 * i], data[4 * i + 1], data[4 * i + 2], data[4 * i + 3])
    else if format == R8G8B8 then Color(data[3 * i], data[3 * i + 1], data[3 * i + 2], 255)
    else if format == R32 then Color(ops.floatToByte(data[0..4]), 0, 0, 255)
    else if format == R32G32B32 then
      Color(ops.floatToByte(data[12 * i .. 12 * i + 4]), ops.floatToByte(data[12 * i + 4 .. 12 * i + 8]),
            ops.floatToByte(data[12 * i + 8 .. 12 * i + 12]), 255)
    else if format == R32G32B32A32 then
      var v := ops.floatToByte(data[16 * i .. 16 * i + 4]); Color(v, v, v, v)
    else Blank
  }

  /** Pixel i as LoadImageColors evidently means to decode it: the R32 read index
      advanced by one float per pixel as in every other case. */
  function LoadedPixelFixed(data: seq<byte>, i: nat, format: int, ops: FloatOps): Color
    requires IsUncompressed(format) ==> (i + 1) * BytesPerPixel(format) <= |data|
  {
    if format == R32 then Color(ops.floatToByte(data[4 * i .. 4 * i + 4]), 0, 0, 255)
    else LoadedPixel(data, i, format, ops)
  }

  /** As written, every pixel of an R32 image is decoded from the first float, so
      pixel i reads what the corrected decode gives pixel 0; the other formats are
      unaffected. */
  lemma {:induction false} LoadedR32ReadsFirstPixel(data: seq<byte>, i: nat, format: int, ops: FloatOps)
    requires IsUncompressed(format) ==> (i + 1) * BytesPerPixel(format) <= |data|
    ensures format == R32 ==> LoadedPixel(data, i, format, ops) == LoadedPixelFixed(data, 0, format, ops)
    ensures format != R32 ==> LoadedPixel(data, i, format, ops) == LoadedPixelFixed(data, i, format, ops)
  {
    if format == R32 {
      MulLe(1, i + 1, 4);
    }
  }

  /** GetImageColor at pixel index i = y*width + x (the bounds test is the caller's),
      with each case's own index arithmetic. */
  function ImageColorAt(data: seq<byte>, i: nat, format: int, ops: FloatOps): Color
    requires IsUncompressed(format) ==> (i + 1) * BytesPerPixel(format) <= |data|
  {
    if format == Grayscale then Color(data[i], data[i], data[i], 255)
    else if format == GrayAlpha then Color(data[i * 2], data[i * 2], data[i * 2], data[i * 2 + 1])
    else if format == R5G6B5 || format == R5G5B5A1 || format == R4G4B4A4 then
      LoadedPacked(Word(data[i * 2], data[i * 2 + 1]), format)
    else if format == R8G8B8A8 then Color(data[i * 4], data[i * 4 + 1], data[i * 4 + 2], data[i * 4 + 3])
    else if format == R8G8B8 then Color(data[i * 3], data[i * 3 + 1], data[i * 3 + 2], 255)
    else if format == R32 then Color(ops.floatToByte(data[i * 4 .. i * 4 + 4]), 0, 0, 255)
    else if format == R32G32B32 then
      Color(ops.floatToByte(data[i * 3 * 4 .. i * 3 * 4 + 4]), ops.floatToByte(data[(i * 3 + 1) * 4 .. (i * 3 + 1) * 4 + 4]),
            ops.floatToByte(data[(i * 3 + 2) * 4 .. (i * 3 + 2) * 4 + 4]), 255)
    else if format == R32G32B32A32 then
      var v := ops.floatToByte(data[i * 4 * 4 .. i * 4 * 4 + 4]); Color(v, v, v, v)
    else Blank
  }

  /** The corrected LoadImageColors and GetImageColor decode every pixel of every
      uncompressed format alike. As written they agree on every pixel of every other
      format, and LoadImageColors reads pixel 0 of an R32 image wherever
      GetImageColor reads pixel i. */
  lemma {:induction false} LoadedMatchesImageColor(data: seq<byte>, i: nat, format: int, ops: FloatOps)
    requires IsUncompressed(format) ==> (i + 1) * BytesPerPixel(format) <= |data|
    ensures LoadedPixelFixed(data, i, format, ops) == ImageColorAt(data, i, format, ops)
    ensures format != R32 ==> LoadedPixel(data, i, format, ops) == ImageColorAt(data, i, format, ops)
    ensures format == R32 ==> LoadedPixel(data, i, format, ops) == ImageColorAt(data, 0, format, ops)
  {
    BytesPerPixelTable(format);
    if format == R32G32B32 {
      assert i * 3 * 4 == 12 * i && (i * 3 + 1) * 4 == 12 * i + 4 && (i * 3 + 2) * 4 == 12 * i + 8;
    } else if format == R32G32B32A32 {
      assert i * 4 * 4 == 16 * i;
    }
  }

  /** Color_SetPixel for R8G8B8 and R8G8B8A8, and the float-computed bytes of the
      other formats it handles; no bytes for formats it ignores. */
  function SetPixel(color: Color, format: int, ops: FloatOps): (p: seq<byte>)
    ensures Grayscale <= format <= R8G8B8A8 ==> |p| == BytesPerPixel(format)
    ensures !(Grayscale <= format <= R8G8B8A8) ==> p == []
  {
    if format == R8G8B8 then [color.r, color.g, color.b]
    else if format == R8G8B8A8 then [color.r, color.g, color.b, color.a]
    else if Grayscale <= format <= R4G4B4A4 then
      Fit(ops.encodePixel(color, format), BytesPerPixel(format))
    else []
  }

  /** Writing a colour with Color_SetPixel and reading it back with Color_GetPixel is
      exact in R8G8B8A8, and exact but opaque in R8G8B8. */
  lemma {:induction false} SetPixelRoundTrip(color: Color, ops: FloatOps)
    ensures GetPixel(SetPixel(color, R8G8B8A8, ops), R8G8B8A8, ops) == color
    ensures GetPixel(SetPixel(color, R8G8B8, ops), R8G8B8, ops) == color.(a := 255)
    ensures LoadedPixel(SetPixel(color, R8G8B8A8, ops), 0, R8G8B8A8, ops) == color
  {
  }
}
