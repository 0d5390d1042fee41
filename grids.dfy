/** The two-dimensional view of a flat pixel buffer, and the pure grid transforms
    the geometric operations are proved against. A grid is a sequence of rows; row
    y holds the cells of that row from left to right. */
module Grids {
  import opened Bytes

  /** Cell p of `bpp` bytes of a flat buffer; empty when it lies outside the buffer. */
  function Cell(s: seq<byte>, p: nat, bpp: nat): seq<byte>
  {
    if p * bpp + bpp <= |s| then s[p * bpp .. p * bpp + bpp] else []
  }

  /** The cell at (row, col) of a row-major buffer `width` cells wide. */
  function Pixel(s: seq<byte>, row: nat, col: nat, width: nat, bpp: nat): seq<byte>
  {
    Cell(s, row * width + col, bpp)
  }

  /** The buffer seen as `height` rows of `width` cells. */
  function Grid(s: seq<byte>, width: nat, height: nat, bpp: nat): (g: seq<seq<seq<byte>>>)
    ensures IsGrid(g, width, height)
  {
    seq(height, y requires 0 <= y < height => seq(width, x requires 0 <= x < width => Pixel(s, y, x, width, bpp)))
  }

  /** g has h rows of w cells. */
  predicate IsGrid<T>(g: seq<seq<T>>, w: nat, h: nat)
  {
    |g| == h && forall y | 0 <= y < h :: |g[y]| == w
  }

  /** Row h-1-y of g becomes row y. */
  function FlipV<T>(g: seq<seq<T>>): seq<seq<T>>
  {
    seq(|g|, y requires 0 <= y < |g| => g[|g| - 1 - y])
  }

  /** Cell w-1-x of each row becomes cell x. */
  function FlipH<T>(g: seq<seq<T>>): seq<seq<T>>
  {
    seq(|g|, y requires 0 <= y < |g| => seq(|g[y]|, x requires 0 <= x < |g[y]| => g[y][|g[y]| - 1 - x]))
  }

  /** A quarter turn clockwise of an h x w grid: the result has w rows of h cells,
      and its cell (x, c) is the old cell at row h-1-c, column x. */
  function RotateCW<T>(g: seq<seq<T>>, w: nat, h: nat): seq<seq<T>>
    requires IsGrid(g, w, h)
  {
    seq(w, x requires 0 <= x < w => seq(h, c requires 0 <= c < h => g[h - 1 - c][x]))
  }

  /** A quarter turn counter-clockwise: cell (x, c) of the result is the old cell at
      row c, column w-1-x. */
  function RotateCCW<T>(g: seq<seq<T>>, w: nat, h: nat): seq<seq<T>>
    requires IsGrid(g, w, h)
  {
    seq(w, x requires 0 <= x < w => seq(h, c requires 0 <= c < h => g[c][w - 1 - x]))
  }

  /** The ch rows of cw cells starting at (x, y). */
  function SubGrid<T>(g: seq<seq<T>>, x: nat, y: nat, cw: nat, ch: nat): seq<seq<T>>
    requires y + ch <= |g|
    requires forall r | y <= r < y + ch :: x + cw <= |g[r]|
  {
    seq(ch, r requires 0 <= r < ch => g[y + r][x .. x + cw])
  }

  /** An nw x nh canvas holding g shifted by (dx, dy) and `fill` where no cell of g
      lands. */
  function Shifted<T>(g: seq<seq<T>>, w: nat, h: nat, nw: nat, nh: nat, dx: int, dy: int, fill: T): seq<seq<T>>
    requires IsGrid(g, w, h)
  {
    seq(nh, r requires 0 <= r < nh => seq(nw, c requires 0 <= c < nw =>
      if 0 <= r - dy < h && 0 <= c - dx < w then g[r - dy][c - dx] else fill))
  }

  /** The grid of a buffer has the expected shape. */
  lemma GridShape(s: seq<byte>, width: nat, height: nat, bpp: nat)
    ensures IsGrid(Grid(s, width, height, bpp), width, height)
  {
  }

  /** Every cell of the grid of a large enough buffer has `bpp` bytes. */
  lemma {:induction false} GridCells(s: seq<byte>, width: nat, height: nat, bpp: nat, y: nat, x: nat)
    requires width * height * bpp <= |s| && y < height && x < width
    ensures (y * width + x) * bpp + bpp <= |s|
    ensures Pixel(s, y, x, width, bpp) == s[(y * width + x) * bpp .. (y * width + x) * bpp + bpp]
  {
    GridCell(y, x, width, height, bpp);
    var p := (y * width + x) * bpp;
    assert p + bpp <= |s|;
  }

  /** Flipping twice restores the grid. */
  lemma {:induction false} FlipVInvolution<T>(g: seq<seq<T>>)
    ensures FlipV(FlipV(g)) == g
  {
    var f := FlipV(FlipV(g));
    assert |f| == |g|;
    forall y | 0 <= y < |g|
      ensures f[y] == g[y]
    {
      assert f[y] == FlipV(g)[|g| - 1 - y] == g[|g| - 1 - (|g| - 1 - y)];
    }
  }

  lemma {:induction false} FlipHInvolution<T>(g: seq<seq<T>>)
    ensures FlipH(FlipH(g)) == g
  {
    var f := FlipH(FlipH(g));
    forall y | 0 <= y < |g|
      ensures f[y] == g[y]
    {
      var n := |g[y]|;
      assert |FlipH(g)[y]| == n;
      forall x | 0 <= x < n
        ensures f[y][x] == g[y][x]
      {
        assert f[y][x] == FlipH(g)[y][n - 1 - x] == g[y][n - 1 - (n - 1 - x)];
      }
    }
  }

  /** The flips keep the shape of the grid. */
  lemma FlipShapes<T>(g: seq<seq<T>>, w: nat, h: nat)
    requires IsGrid(g, w, h)
    ensures IsGrid(FlipV(g), w, h) && IsGrid(FlipH(g), w, h)
    ensures IsGrid(RotateCW(g, w, h), h, w) && IsGrid(RotateCCW(g, w, h), h, w)
  {
  }

  /** A clockwise turn followed by a counter-clockwise turn restores the grid, and
      so does the reverse order. */
  lemma {:induction false} RotateInverse<T>(g: seq<seq<T>>, w: nat, h: nat)
    requires IsGrid(g, w, h)
    ensures RotateCCW(RotateCW(g, w, h), h, w) == g
    ensures RotateCW(RotateCCW(g, w, h), h, w) == g
  {
    var cw := RotateCW(g, w, h);
    var ccw := RotateCCW(g, w, h);
    assert IsGrid(cw, h, w) && IsGrid(ccw, h, w);
    var a := RotateCCW(cw, h, w);
    var b := RotateCW(ccw, h, w);
    forall y | 0 <= y < h
      ensures a[y] == g[y] && b[y] == g[y]
    {
      forall x | 0 <= x < w
        ensures a[y][x] == g[y][x] && b[y][x] == g[y][x]
      {
        assert a[y][x] == cw[x][h - 1 - y] == g[y][x];
        assert b[y][x] == ccw[w - 1 - x][y] == g[y][x];
      }
    }
  }

  /** Two clockwise turns are a half turn: both flips. */
  lemma {:induction false} HalfTurn<T>(g: seq<seq<T>>, w: nat, h: nat)
    requires IsGrid(g, w, h)
    ensures RotateCW(RotateCW(g, w, h), h, w) == FlipH(FlipV(g))
  {
    var cw := RotateCW(g, w, h);
    assert IsGrid(cw, h, w);
    var a := RotateCW(cw, h, w);
    var f := FlipH(FlipV(g));
    forall y | 0 <= y < h
      ensures a[y] == f[y]
    {
      assert |FlipV(g)[y]| == w;
      forall x | 0 <= x < w
        ensures a[y][x] == f[y][x]
      {
        assert a[y][x] == cw[w - 1 - x][y] == g[h - 1 - y][w - 1 - x];
        assert f[y][x] == FlipV(g)[y][w - 1 - x] == g[h - 1 - y][w - 1 - x];
      }
    }
  }

  /** Byte k of a buffer of exactly w*h cells is byte k % bpp of its grid cell. */
  lemma {:induction false} GridByte(s: seq<byte>, w: nat, h: nat, bpp: nat, k: nat)
    requires |s| == w * h * bpp && k < |s|
    ensures bpp > 0 && w > 0 && k / bpp / w < h && k / bpp % w < w
    ensures |Grid(s, w, h, bpp)[k / bpp / w][k / bpp % w]| == bpp
    ensures s[k] == Grid(s, w, h, bpp)[k / bpp / w][k / bpp % w][k % bpp]
  {
    CellOfIndex(k, w * h, bpp);
    var p := k / bpp;
    var i := k % bpp;
    IndexOfCell(p, w, h);
    var y := p / w;
    var x := p % w;
    assert y * w + x == p;
    GridCells(s, w, h, bpp, y, x);
    var cell := Grid(s, w, h, bpp)[y][x];
    assert cell == s[p * bpp .. p * bpp + bpp];
    assert cell[i] == s[p * bpp + i];
  }

  /** Equal grids over buffers of exactly w*h cells are equal buffers: the view
      loses nothing. */
  lemma {:induction false} GridInjective(s: seq<byte>, t: seq<byte>, w: nat, h: nat, bpp: nat)
    requires |s| == w * h * bpp && |t| == w * h * bpp
    requires Grid(s, w, h, bpp) == Grid(t, w, h, bpp)
    ensures s == t
  {
    forall k | 0 <= k < |s|
      ensures s[k] == t[k]
    {
      GridByte(s, w, h, bpp, k);
      GridByte(t, w, h, bpp, k);
    }
  }

  /** Cells wholly outside [lo, hi) are the same in two buffers that agree outside
      that range. */
  lemma {:induction false} CellFrame(a: seq<byte>, b: seq<byte>, lo: nat, hi: nat, p: nat, bpp: nat)
    requires |a| == |b| && lo <= hi <= |a|
    requires a[..lo] == b[..lo] && a[hi..] == b[hi..]
    requires p * bpp + bpp <= lo || hi <= p * bpp
    ensures Cell(a, p, bpp) == Cell(b, p, bpp)
  {
    if p * bpp + bpp <= |a| {
      if p * bpp + bpp <= lo {
        assert a[p * bpp .. p * bpp + bpp] == a[..lo][p * bpp .. p * bpp + bpp];
        assert b[p * bpp .. p * bpp + bpp] == b[..lo][p * bpp .. p * bpp + bpp];
      } else {
        forall k | p * bpp <= k < p * bpp + bpp
          ensures a[k] == b[k]
        {
          assert a[k] == a[hi..][k - hi] && b[k] == b[hi..][k - hi];
        }
      }
    }
  }

  /** After copying n cells from cell sp of s to cell dp of d, cell dp + c of d is
      cell sp + c of s. */
  lemma {:induction false} RunCell(d: seq<byte>, dp: nat, s: seq<byte>, sp: nat, n: nat, bpp: nat, c: nat)
    requires dp * bpp + n * bpp <= |d| && sp * bpp + n * bpp <= |s|
    requires d[dp * bpp .. dp * bpp + n * bpp] == s[sp * bpp .. sp * bpp + n * bpp]
    requires c < n
    ensures (dp + c) * bpp + bpp <= |d| && (sp + c) * bpp + bpp <= |s|
    ensures Cell(d, dp + c, bpp) == Cell(s, sp + c, bpp)
  {
    RunCells(d, dp * bpp, s, sp * bpp, n, bpp, c);
    assert (dp + c) * bpp == dp * bpp + c * bpp;
    assert (sp + c) * bpp == sp * bpp + c * bpp;
  }

  /** A cell in an earlier row ends before row y starts. */
  lemma CellBeforeRow(r: nat, c: nat, w: nat, y: nat, bpp: nat)
    requires r < y && c < w
    ensures (r * w + c) * bpp + bpp <= y * w * bpp
  {
    MulLe(r + 1, y, w);
    MulLe(r * w + c + 1, y * w, bpp);
  }

  /** A cell in row y or later starts after every earlier row. */
  lemma CellFromRow(r: nat, c: nat, w: nat, y: nat, bpp: nat)
    requires y <= r
    ensures y * w * bpp <= (r * w + c) * bpp
  {
    MulLe(y, r, w);
    MulLe(y * w, r * w + c, bpp);
  }

  /** The first `rows` rows of a block of `cols` cells have been copied from (sx, sy)
      of a buffer `sw` cells wide to (dx, dy) of a buffer `dw` cells wide. */
  predicate BlockCopied(dst: seq<byte>, dw: nat, dx: nat, dy: nat, src: seq<byte>, sw: nat, sx: nat, sy: nat,
                        rows: nat, cols: nat, bpp: nat)
  {
    forall r, c | dy <= r < dy + rows && dx <= c < dx + cols ::
      Pixel(dst, r, c, dw, bpp) == Pixel(src, r - dy + sy, c - dx + sx, sw, bpp)
  }

  /** A slice inside a common prefix of two buffers is the same in both. */
  lemma SliceOfPrefix(s: seq<byte>, t: seq<byte>, n: nat, a: nat, b: nat)
    requires n <= |s| && n <= |t| && s[..n] == t[..n] && a <= b <= n
    ensures s[a..b] == t[a..b]
  {
    assert s[a..b] == s[..n][a..b];
    assert t[a..b] == t[..n][a..b];
  }

  /** The one-row memcpy BlockStep describes. */
  predicate RowWritten(before: seq<byte>, after: seq<byte>, lo: int, n: int, src: seq<byte>, from: int)
  {
    0 <= lo && 0 <= n && 0 <= from &&
    |after| == |before| && lo + n <= |after| && from + n <= |src| &&
    after[..lo] == before[..lo] && after[lo + n..] == before[lo + n..] &&
    after[lo .. lo + n] == src[from .. from + n]
  }

  /** A cell of an earlier row of the block is not touched by the row copy. */
  lemma {:induction false} BlockStepOld(before: seq<byte>, after: seq<byte>, dw: nat, dx: nat, dy: nat,
                                        src: seq<byte>, sw: nat, sx: nat, sy: nat, rows: nat, cols: nat, bpp: nat,
                                        r: nat, c: nat)
    requires dx + cols <= dw && dy <= r < dy + rows && dx <= c < dx + cols
    requires RowWritten(before, after, ((rows + dy) * dw + dx) * bpp, cols * bpp, src, ((rows + sy) * sw + sx) * bpp)
    ensures Pixel(after, r, c, dw, bpp) == Pixel(before, r, c, dw, bpp)
  {
    var dp := (rows + dy) * dw + dx;
    CellBeforeRow(r, c, dw, rows + dy, bpp);
    MulLe((rows + dy) * dw, dp, bpp);
    CellFrame(after, before, dp * bpp, dp * bpp + cols * bpp, r * dw + c, bpp);
  }

  /** A cell of the copied row is the source cell. */
  lemma {:induction false} BlockStepNew(before: seq<byte>, after: seq<byte>, dw: nat, dx: nat, dy: nat,
                                        src: seq<byte>, sw: nat, sx: nat, sy: nat, rows: nat, cols: nat, bpp: nat,
                                        c: nat)
    requires dx <= c < dx + cols
    requires RowWritten(before, after, ((rows + dy) * dw + dx) * bpp, cols * bpp, src, ((rows + sy) * sw + sx) * bpp)
    ensures Pixel(after, rows + dy, c, dw, bpp) == Pixel(src, rows + sy, c - dx + sx, sw, bpp)
  {
    var dp := (rows + dy) * dw + dx;
    var sp := (rows + sy) * sw + sx;
    RunCell(after, dp, src, sp, cols, bpp, c - dx);
    assert dp + (c - dx) == (rows + dy) * dw + c;
    assert sp + (c - dx) == (rows + sy) * sw + (c - dx + sx);
  }

  /** Copying the next row of the block with one memcpy extends the copied block by
      a row. */
  lemma {:induction false} BlockStep(before: seq<byte>, after: seq<byte>, dw: nat, dx: nat, dy: nat,
                                     src: seq<byte>, sw: nat, sx: nat, sy: nat, rows: nat, cols: nat, bpp: nat)
    requires dx + cols <= dw
    requires BlockCopied(before, dw, dx, dy, src, sw, sx, sy, rows, cols, bpp)
    requires RowWritten(before, after, ((rows + dy) * dw + dx) * bpp, cols * bpp, src, ((rows + sy) * sw + sx) * bpp)
    ensures BlockCopied(after, dw, dx, dy, src, sw, sx, sy, rows + 1, cols, bpp)
  {
    forall r, c | dy <= r < dy + rows + 1 && dx <= c < dx + cols
      ensures Pixel(after, r, c, dw, bpp) == Pixel(src, r - dy + sy, c - dx + sx, sw, bpp)
    {
      if r < dy + rows {
        BlockStepOld(before, after, dw, dx, dy, src, sw, sx, sy, rows, cols, bpp, r, c);
      } else {
        BlockStepNew(before, after, dw, dx, dy, src, sw, sx, sy, rows, cols, bpp, c);
      }
    }
  }

  /** A block copied from (sx, sy) into the whole of a cw x ch buffer is that
      sub-grid of the source. */
  lemma {:induction false} BlockIsSubGrid(dst: seq<byte>, cw: nat, ch: nat, src: seq<byte>, sw: nat, sh: nat,
                                          sx: nat, sy: nat, bpp: nat)
    requires sx + cw <= sw && sy + ch <= sh
    requires BlockCopied(dst, cw, 0, 0, src, sw, sx, sy, ch, cw, bpp)
    ensures Grid(dst, cw, ch, bpp) == SubGrid(Grid(src, sw, sh, bpp), sx, sy, cw, ch)
  {
    var g := Grid(src, sw, sh, bpp);
    var s := SubGrid(g, sx, sy, cw, ch);
    var d := Grid(dst, cw, ch, bpp);
    forall r | 0 <= r < ch
      ensures d[r] == s[r]
    {
      forall c | 0 <= c < cw
        ensures d[r][c] == s[r][c]
      {
        assert d[r][c] == Pixel(dst, r, c, cw, bpp);
        assert s[r][c] == g[r + sy][c + sx];
      }
    }
  }

  /** A cell other than the cols cells copied into row `row` at column dx lies wholly
      before or wholly after the bytes of that copy. */
  lemma {:induction false} CellOutsideRun(r: nat, c: nat, w: nat, row: nat, dx: nat, cols: nat, bpp: nat)
    requires c < w && dx + cols <= w
    requires !(r == row && dx <= c < dx + cols)
    ensures var lo := (row * w + dx) * bpp;
      (r * w + c) * bpp + bpp <= lo || lo + cols * bpp <= (r * w + c) * bpp
  {
    var lo := (row * w + dx) * bpp;
    if r < row {
      CellBeforeRow(r, c, w, row, bpp);
      MulLe(row * w, row * w + dx, bpp);
    } else if r > row {
      CellFromRow(r, c, w, row + 1, bpp);
      MulLe(row * w + dx + cols, (row + 1) * w, bpp);
    } else if c < dx {
      MulLe(r * w + c + 1, row * w + dx, bpp);
    } else {
      MulLe(row * w + dx + cols, r * w + c, bpp);
    }
  }

  /** Every cell of a dw x dh buffer outside the first `rows` rows of the block at
      (dx, dy) keeps its bytes from `orig`. */
  predicate OutsideKept(cur: seq<byte>, orig: seq<byte>, dw: nat, dh: nat, dx: nat, dy: nat,
                        rows: nat, cols: nat, bpp: nat)
  {
    forall r, c | 0 <= r < dh && 0 <= c < dw && !(dy <= r < dy + rows && dx <= c < dx + cols) ::
      Pixel(cur, r, c, dw, bpp) == Pixel(orig, r, c, dw, bpp)
  }

  /** The row copy leaves every cell outside the grown block alone. */
  lemma {:induction false} OutsideStep(before: seq<byte>, after: seq<byte>, orig: seq<byte>, dw: nat, dh: nat,
                                       dx: nat, dy: nat, rows: nat, cols: nat, bpp: nat, src: seq<byte>, from: int)
    requires dx + cols <= dw
    requires OutsideKept(before, orig, dw, dh, dx, dy, rows, cols, bpp)
    requires RowWritten(before, after, ((rows + dy) * dw + dx) * bpp, cols * bpp, src, from)
    ensures OutsideKept(after, orig, dw, dh, dx, dy, rows + 1, cols, bpp)
  {
    forall r, c | 0 <= r < dh && 0 <= c < dw && !(dy <= r < dy + rows + 1 && dx <= c < dx + cols)
      ensures Pixel(after, r, c, dw, bpp) == Pixel(orig, r, c, dw, bpp)
    {
      OutsideCell(before, after, dw, dx, rows + dy, cols, bpp, src, from, r, c);
    }
  }

  /** A cell outside the copied run keeps its bytes. */
  lemma {:induction false} OutsideCell(before: seq<byte>, after: seq<byte>, dw: nat, dx: nat, row: nat, cols: nat,
                                       bpp: nat, src: seq<byte>, from: int, r: nat, c: nat)
    requires dx + cols <= dw && c < dw && !(r == row && dx <= c < dx + cols)
    requires RowWritten(before, after, (row * dw + dx) * bpp, cols * bpp, src, from)
    ensures Pixel(after, r, c, dw, bpp) == Pixel(before, r, c, dw, bpp)
  {
    MulNat(row * dw + dx, bpp);
    MulNat(cols, bpp);
    MulNat(r * dw + c, bpp);
    var lo, n := (row * dw + dx) * bpp, cols * bpp;
    var p := r * dw + c;
    assert p * bpp + bpp <= lo || lo + n <= p * bpp by {
      CellOutsideRun(r, c, dw, row, dx, cols, bpp);
    }
    CellFrame(after, before, lo, lo + n, p, bpp);
  }

  /** The memcpy-per-row loop: rows sy .. sy+rows-1 of the source, cols cells from
      column sx, land at rows dy .. of the destination from column dx. Cells outside
      that block keep their bytes. */
  method CopyRows(dst: array<byte>, dw: nat, dh: nat, dx: nat, dy: nat,
                  src: array<byte>, sw: nat, sh: nat, sx: nat, sy: nat, rows: nat, cols: nat, bpp: nat)
    requires dst != src
    requires dx + cols <= dw && dy + rows <= dh && dw * dh * bpp <= dst.Length
    requires sx + cols <= sw && sy + rows <= sh && sw * sh * bpp <= src.Length
    modifies dst
    ensures BlockCopied(dst[..], dw, dx, dy, src[..], sw, sx, sy, rows, cols, bpp)
    ensures OutsideKept(dst[..], old(dst[..]), dw, dh, dx, dy, rows, cols, bpp)
  {
    ghost var orig := dst[..];
    for y := 0 to rows
      invariant BlockCopied(dst[..], dw, dx, dy, src[..], sw, sx, sy, y, cols, bpp)
      invariant OutsideKept(dst[..], orig, dw, dh, dx, dy, y, cols, bpp)
    {
      MulNat((y + dy) * dw + dx, bpp);
      MulNat((y + sy) * sw + sx, bpp);
      MulNat(cols, bpp);
      var lo, from, n := ((y + dy) * dw + dx) * bpp, ((y + sy) * sw + sx) * bpp, cols * bpp;
      RunFits(y + dy, dx, cols, dw, dh, bpp);
      RunFits(y + sy, sx, cols, sw, sh, bpp);
      ghost var before := dst[..];
      CopyBytes(dst, lo, src, from, n);
      assert RowWritten(before, dst[..], lo, n, src[..], from);
      BlockStep(before, dst[..], dw, dx, dy, src[..], sw, sx, sy, y, cols, bpp);
      OutsideStep(before, dst[..], orig, dw, dh, dx, dy, y, cols, bpp, src[..], from);
    }
  }

  /** A run of n cells starting at cell `col` of row `row` lies inside a w x h grid. */
  lemma RunFits(row: nat, col: nat, n: nat, w: nat, h: nat, bpp: nat)
    requires row < h && col + n <= w
    ensures (row * w + col) * bpp + n * bpp <= w * h * bpp
  {
    MulLe(row + 1, h, w);
    MulLe(row * w + col + n, w * h, bpp);
  }
}
