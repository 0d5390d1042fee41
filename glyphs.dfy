/** Glyph_GetIndex, the glyph lookup of the text drawing code, in its
    unordered-charset form: a linear search of the font's glyphs for a codepoint,
    with a fixed fallback index. */
module Glyphs {

  /** The part of a Font the lookup reads: the glyph count and the codepoint each
      glyph stands for. */
  datatype Font = Font(glyphCount: int, values: seq<int>)

  /** GLYPH_NOTFOUND_CHAR_FALLBACK: the codepoint of '?', returned as an index. */
  const NotFoundFallback: int := 63

  /** The result of the search from glyph i on. */
  function SearchFrom(font: Font, codepoint: int, i: nat): int
    requires font.glyphCount <= |font.values|
    decreases font.glyphCount - i
  {
    if i >= font.glyphCount then NotFoundFallback
    else if font.values[i] == codepoint then i
    else SearchFrom(font, codepoint, i + 1)
  }

  /** The index Glyph_GetIndex returns. */
  function GlyphIndex(font: Font, codepoint: int): int
    requires font.glyphCount <= |font.values|
  {
    SearchFrom(font, codepoint, 0)
  }

  /** The search from glyph i finds the first glyph at or after i with the
      codepoint, and falls back to 63 when there is none. */
  lemma {:induction false} SearchFromFinds(font: Font, codepoint: int, i: nat)
    requires font.glyphCount <= |font.values|
    ensures var index := SearchFrom(font, codepoint, i);
      (exists j | i <= j < font.glyphCount :: font.values[j] == codepoint) ==>
        i <= index < font.glyphCount && font.values[index] == codepoint &&
        forall j | i <= j < index :: font.values[j] != codepoint
    ensures (forall j | i <= j < font.glyphCount :: font.values[j] != codepoint) ==>
      SearchFrom(font, codepoint, i) == NotFoundFallback
    decreases font.glyphCount - i
  {
    if i < font.glyphCount && font.values[i] != codepoint {
      SearchFromFinds(font, codepoint, i + 1);
    }
  }

  /** Glyph_GetIndex returns the first glyph whose codepoint matches, and 63 when
      no glyph matches. */
  lemma GlyphIndexFirst(font: Font, codepoint: int)
    requires font.glyphCount <= |font.values|
    ensures var index := GlyphIndex(font, codepoint);
      (exists j | 0 <= j < font.glyphCount :: font.values[j] == codepoint) ==>
        0 <= index < font.glyphCount && font.values[index] == codepoint &&
        forall j | 0 <= j < index :: font.values[j] != codepoint
    ensures (forall j | 0 <= j < font.glyphCount :: font.values[j] != codepoint) ==>
      GlyphIndex(font, codepoint) == NotFoundFallback
  {
    SearchFromFinds(font, codepoint, 0);
  }

  /** The fallback is an index, not the glyph of '?': for a codepoint the font
      lacks, the lookup returns 63, which lies past the last glyph of a font of at
      most 63 glyphs, and names glyph 63 of a larger one, whatever codepoint that
      glyph stands for. */
  lemma FallbackIndex(font: Font, codepoint: int)
    requires font.glyphCount <= |font.values|
    requires forall j | 0 <= j < font.glyphCount :: font.values[j] != codepoint
    ensures GlyphIndex(font, codepoint) == 63
    ensures GlyphIndex(font, codepoint) < font.glyphCount <==> font.glyphCount > 63
  {
    GlyphIndexFirst(font, codepoint);
  }

  /** Glyph_GetIndex: a linear search that stops at the first match. */
  method GetGlyphIndex(font: Font, codepoint: int) returns (index: int)
    requires font.glyphCount <= |font.values|
    ensures index == GlyphIndex(font, codepoint)
  {
    index := NotFoundFallback;
    var i := 0;
    while i < font.glyphCount
      invariant 0 <= i && (0 <= font.glyphCount ==> i <= font.glyphCount)
      invariant GlyphIndex(font, codepoint) == SearchFrom(font, codepoint, i)
    {
      if font.values[i] == codepoint {
        index := i;
        break;
      }
      i := i + 1;
    }
  }
}
