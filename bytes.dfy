/** Bytes, 16-bit words, the byte-range copy the engine does with memcpy, and the
    index arithmetic of flat pixel buffers (cell p of size bpp starts at p*bpp). */
module Bytes {

  /** An `unsigned char`. */
  type byte = x: int | 0 <= x < 256

  /** A 16-bit `unsigned short` stored little-endian in two consecutive bytes. */
  function Word(lo: byte, hi: byte): (w: int)
    ensures 0 <= w < 0x1_0000
    ensures w % 256 == lo && w / 256 == hi
  {
    lo + 256 * hi
  }

  /** The two bytes that store the 16-bit word `w`. */
  function WordBytes(w: int): (b: seq<byte>)
    requires 0 <= w < 0x1_0000
    ensures |b| == 2 && Word(b[0], b[1]) == w
  {
    [w % 256, w / 256]
  }

  function Pow2(n: nat): (p: nat)
    ensures p >= 1
  {
    if n == 0 then 1 else 2 * Pow2(n - 1)
  }

  /** The cell of `bpp` bytes at cell index `p` of a flat buffer. */
  function CellAt(s: seq<byte>, p: nat, bpp: nat): (c: seq<byte>)
    requires p * bpp + bpp <= |s|
    ensures |c| == bpp
  {
    s[p * bpp .. p * bpp + bpp]
  }

  /** memcpy(dst + dstOff, src + srcOff, n) between two distinct buffers. */
  method CopyBytes(dst: array<byte>, dstOff: nat, src: array<byte>, srcOff: nat, n: nat)
    requires dst != src
    requires dstOff + n <= dst.Length && srcOff + n <= src.Length
    modifies dst
    ensures dst[dstOff .. dstOff + n] == src[srcOff .. srcOff + n]
    ensures dst[..dstOff] == old(dst[..dstOff])
    ensures dst[dstOff + n..] == old(dst[dstOff + n..])
  {
    for i := 0 to n
      invariant dst[dstOff .. dstOff + i] == src[srcOff .. srcOff + i]
      invariant dst[..dstOff] == old(dst[..dstOff])
      invariant dst[dstOff + i..] == old(dst[dstOff + i..])
    {
      dst[dstOff + i] := src[srcOff + i];
      assert dst[dstOff .. dstOff + i + 1] == dst[dstOff .. dstOff + i] + [dst[dstOff + i]];
      assert src[srcOff .. srcOff + i + 1] == src[srcOff .. srcOff + i] + [src[srcOff + i]];
    }
  }

  /** Copies of equal runs of cells: cell x of one run equals cell x of the other. */
  lemma RunCells(s: seq<byte>, a: nat, t: seq<byte>, b: nat, n: nat, bpp: nat, x: nat)
    requires a + n * bpp <= |s| && b + n * bpp <= |t|
    requires s[a .. a + n * bpp] == t[b .. b + n * bpp]
    requires x < n
    ensures a + x * bpp + bpp <= |s| && b + x * bpp + bpp <= |t|
    ensures s[a + x * bpp .. a + x * bpp + bpp] == t[b + x * bpp .. b + x * bpp + bpp]
  {
    CellBefore(x, n, bpp);
    var o := x * bpp;
    var m := n * bpp;
    forall k | a + o <= k < a + o + bpp
      ensures s[k] == t[k - a + b]
    {
      assert s[a .. a + m][k - a] == t[b .. b + m][k - a];
    }
  }

  /** A cell with index below n ends inside the first n cells. */
  lemma CellBefore(p: nat, n: nat, bpp: nat)
    requires p < n
    ensures p * bpp + bpp <= n * bpp
  {
    MulLe(p + 1, n, bpp);
  }

  /** A product of naturals is a natural (stated so that offsets computed as
      products can be passed where a `nat` is expected). */
  lemma MulNat(a: nat, b: nat)
    ensures 0 <= a * b
  {
  }

  lemma MulLe(a: nat, b: nat, c: nat)
    requires a <= b
    ensures a * c <= b * c
  {
  }

  /** Cell (x, y) of a w-wide, h-high grid has flat index below w*h and ends inside it. */
  lemma GridCell(y: nat, x: nat, w: nat, h: nat, bpp: nat)
    requires y < h && x < w
    ensures y * w + x < w * h
    ensures (y * w + x) * bpp + bpp <= w * h * bpp
    ensures (y * w + x) * bpp == y * (w * bpp) + x * bpp
  {
    MulLe(y + 1, h, w);
    CellBefore(y * w + x, w * h, bpp);
  }

  /** Distinct (x, y) give distinct flat indices y*w + x. */
  lemma GridIndexUnique(y1: nat, x1: nat, y2: nat, x2: nat, w: nat)
    requires x1 < w && x2 < w
    requires y1 * w + x1 == y2 * w + x2
    ensures y1 == y2 && x1 == x2
  {
    if y1 < y2 {
      MulLe(y1 + 1, y2, w);
    } else if y2 < y1 {
      MulLe(y2 + 1, y1, w);
    }
  }

  /** Every flat index below n*bpp lies in exactly one cell. */
  lemma CellOfIndex(k: nat, n: nat, bpp: nat)
    requires k < n * bpp
    ensures bpp > 0 && k / bpp < n && k % bpp < bpp
    ensures (k / bpp) * bpp + k % bpp == k
  {
    if k / bpp >= n {
      MulLe(n, k / bpp, bpp);
    }
  }

  /** Every cell index below w*h is (x, y) for some row y < h and column x < w. */
  lemma IndexOfCell(p: nat, w: nat, h: nat)
    requires p < w * h
    ensures w > 0 && p / w < h && p % w < w && (p / w) * w + p % w == p
  {
    if p / w >= h {
      MulLe(h, p / w, w);
    }
  }

  /** Division is determined by a quotient and a remainder below the divisor. */
  lemma DivUnique(d: nat, D: nat, q: nat, r: nat)
    requires D >= 1 && r < D && d == q * D + r
    ensures d / D == q
  {
    var k := q - d / D;
    assert k * D == d % D - r;
    MulSign(k, D);
  }

  lemma MulSign(k: int, D: int)
    requires D >= 0
    ensures k >= 1 ==> k * D >= D
    ensures k <= -1 ==> k * D <= -D
  {
    if k >= 1 {
      assert k * D == D + (k - 1) * D;
    } else if k <= -1 {
      assert k * D == -D + (k + 1) * D;
    }
  }

  /** A quotient is at least q when the dividend holds q copies of the divisor. */
  lemma DivAtLeast(n: nat, d: nat, q: nat)
    requires d >= 1 && n >= q * d
    ensures n / d >= q
  {
    DivUnique(n, d, n / d, n % d);
    if n / d < q {
      MulLe(n / d + 1, q, d);
    }
  }

  /** The first n bytes of s, padded with zero bytes: the part of a result the
      caller's buffer of n bytes holds. */
  function Fit(s: seq<byte>, n: nat): (r: seq<byte>)
    ensures |r| == n
    ensures forall i | 0 <= i < n && i < |s| :: r[i] == s[i]
    ensures forall i | |s| <= i < n :: r[i] == 0
  {
    if n <= |s| then s[..n] else s + seq(n - |s|, _ => 0)
  }
}
