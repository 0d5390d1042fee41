/** The point lists the drawing operations hand to Image_DrawPixel, and what they
    cover: the base level in index order (Image_Clear), a rectangle row by row
    (Image_DrawRectangleRec), a Bresenham walk (Image_DrawLine) and the eight-way
    symmetric midpoint circle (Image_DrawCircle). */
module Shapes {
  import opened Bytes

  /** A pixel position; either coordinate may lie outside the image. */
  datatype Point = Point(x: int, y: int)

  // ---------------------------------------------------------------------------
  // Image_Clear
  // ---------------------------------------------------------------------------

  /** The points Image_Clear draws: index i of the base level at column i%w and
      row i/w. */
  function ClearPoints(w: nat, h: nat): (pts: seq<Point>)
    ensures |pts| == w * h
  {
    MulNat(w, h);
    seq(w * h, i requires 0 <= i < w * h => IndexOfCell(i, w, h); Point(i % w, i / w))
  }

  /** Every pixel of the image is among the points Image_Clear draws. */
  lemma ClearCovers(w: nat, h: nat, x: nat, y: nat)
    requires x < w && y < h
    ensures Point(x, y) in ClearPoints(w, h)
  {
    GridCell(y, x, w, h, 1);
    DivUnique(y * w + x, w, y, x);
    assert ClearPoints(w, h)[y * w + x] == Point(x, y);
  }

  // ---------------------------------------------------------------------------
  // Image_DrawRectangleRec
  // ---------------------------------------------------------------------------

  /** The points (x, y) for x from sx up to ex, excluded. */
  function Span(sx: int, ex: int, y: int): (pts: seq<Point>)
    ensures |pts| == if sx < ex then ex - sx else 0
  {
    if ex <= sx then [] else seq(ex - sx, k requires 0 <= k < ex - sx => Point(sx + k, y))
  }

  /** The points Image_DrawRectangleRec draws, row after row: columns sx to ex and
      rows sy to ey, both ends excluded. */
  function RectPoints(sx: int, ex: int, sy: int, ey: int): seq<Point>
    decreases ey - sy
  {
    if ey <= sy then [] else RectPoints(sx, ex, sy, ey - 1) + Span(sx, ex, ey - 1)
  }

  /** A point is drawn by Image_DrawRectangleRec exactly when it lies in the
      rectangle. */
  lemma {:induction false} RectMembers(sx: int, ex: int, sy: int, ey: int, p: Point)
    ensures p in RectPoints(sx, ex, sy, ey) <==> sx <= p.x < ex && sy <= p.y < ey
    decreases ey - sy
  {
    if sy < ey {
      RectMembers(sx, ex, sy, ey - 1, p);
      if p.y == ey - 1 && sx <= p.x < ex {
        assert Span(sx, ex, ey - 1)[p.x - sx] == p;
      }
    }
  }

  // ---------------------------------------------------------------------------
  // Image_DrawLine
  // ---------------------------------------------------------------------------

  function Abs(v: int): nat
  {
    if v < 0 then -v else v
  }

  /** The set-up of Image_DrawLine. U is the major axis (x when the line is wider
      than high, y otherwise), V the minor one; the walk runs from startU up to endU
      and moves V by stepV when the decision value p is not negative, adding b to
      it, and adds a to it otherwise. */
  datatype Walk = Walk(reversedXY: bool, startU: int, startV: int, endU: int, stepV: int, a: int, b: int, p: int)

  /** The walk from (u0, v0) to (u1, v1) in major/minor coordinates, turned round
      when ΔU is not positive (swapping the ends and negating both changes). */
  function Oriented(reversedXY: bool, u0: int, v0: int, u1: int, v1: int): Walk
  {
    var du, dv := u1 - u0, v1 - v0;
    var a := 2 * Abs(dv);
    if du > 0 then Walk(reversedXY, u0, v0, u1, if dv < 0 then -1 else 1, a, a - 2 * Abs(du), a - Abs(du))
    else Walk(reversedXY, u1, v1, u0, if -dv < 0 then -1 else 1, a, a - 2 * Abs(du), a - Abs(du))
  }

  /** The walk Image_DrawLine sets up for a line between two points: along x
      (U = x, V = y) when |Δy| < |Δx|, along y (U = y, V = x) otherwise. */
  function LineWalk(x0: int, y0: int, x1: int, y1: int): Walk
  {
    if Abs(y1 - y0) < Abs(x1 - x0) then Oriented(true, x0, y0, x1, y1) else Oriented(false, y0, x0, y1, x1)
  }

  /** The shape of every walk LineWalk sets up: a unit step along V, a non-negative
      run along U that is at least the (even) a/2 along V, and the Bresenham
      constants a = 2|ΔV|, b = a - 2|ΔU|, p = a - |ΔU|. */
  predicate WalkShape(s: Walk)
  {
    (s.stepV == 1 || s.stepV == -1) && s.startU <= s.endU &&
    0 <= s.a <= 2 * (s.endU - s.startU) && s.a % 2 == 0 &&
    s.b == s.a - 2 * (s.endU - s.startU) && s.p == s.a - (s.endU - s.startU)
  }

  /** An oriented walk whose minor change is at most its major change has the shape
      above and runs from one end to the other; a is twice the minor change, and
      that many unit steps of stepV cover it. */
  lemma OrientedShape(reversedXY: bool, u0: int, v0: int, u1: int, v1: int)
    requires Abs(v1 - v0) <= Abs(u1 - u0)
    ensures var s := Oriented(reversedXY, u0, v0, u1, v1);
      WalkShape(s) && s.reversedXY == reversedXY && s.a == 2 * Abs(v1 - v0) &&
      ((s.startU == u0 && s.startV == v0 && s.endU == u1 && Along(s, Abs(v1 - v0)) == v1) ||
       (s.startU == u1 && s.startV == v1 && s.endU == u0 && Along(s, Abs(v1 - v0)) == v0))
  {
  }

  lemma LineWalkShape(x0: int, y0: int, x1: int, y1: int)
    ensures WalkShape(LineWalk(x0, y0, x1, y1))
  {
    if Abs(y1 - y0) < Abs(x1 - x0) {
      OrientedShape(true, x0, y0, x1, y1);
    } else {
      OrientedShape(false, y0, x0, y1, x1);
    }
  }

  /** The minor coordinate and the decision value. */
  datatype Pen = Pen(v: int, p: int)

  /** One step of the loop of Image_DrawLine. */
  function Advance(s: Walk, pen: Pen): Pen
  {
    if pen.p >= 0 then Pen(pen.v + s.stepV, pen.p + s.b) else Pen(pen.v, pen.p + s.a)
  }

  /** The pen after k steps. */
  function PenAt(s: Walk, k: nat): Pen
  {
    if k == 0 then Pen(s.startV, s.p) else Advance(s, PenAt(s, k - 1))
  }

  /** The pixel for major coordinate u and minor coordinate v. */
  function Place(s: Walk, u: int, v: int): Point
  {
    if s.reversedXY then Point(u, v) else Point(v, u)
  }

  /** The point a walk visits after k steps. */
  function PointAt(s: Walk, k: nat): Point
  {
    Place(s, s.startU + k, PenAt(s, k).v)
  }

  /** The points a walk visits, in order: one per major coordinate from startU to
      endU. */
  function WalkPoints(s: Walk): (pts: seq<Point>)
    requires s.startU <= s.endU
    ensures |pts| == s.endU - s.startU + 1
    ensures forall k | 0 <= k < |pts| :: pts[k] == PointAt(s, k)
  {
    seq(s.endU - s.startU + 1, k requires 0 <= k <= s.endU - s.startU => PointAt(s, k))
  }

  /** The points Image_DrawLine draws, in order. */
  function LinePoints(x0: int, y0: int, x1: int, y1: int): seq<Point>
  {
    LineWalkShape(x0, y0, x1, y1);
    WalkPoints(LineWalk(x0, y0, x1, y1))
  }

  /** The number of steps among the first k that moved along V. */
  function Moves(s: Walk, k: nat): (m: nat)
    ensures m <= k
  {
    if k == 0 then 0 else Moves(s, k - 1) + (if PenAt(s, k - 1).p >= 0 then 1 else 0)
  }

  /** The minor coordinate after m unit steps from startV in the direction of stepV. */
  function Along(s: Walk, m: int): int
  {
    s.startV + s.stepV * m
  }

  lemma AlongStep(s: Walk, m: int)
    ensures Along(s, m + 1) == Along(s, m) + s.stepV
  {
    assert s.stepV * (m + 1) == s.stepV * m + s.stepV;
  }

  /** After k steps the pen has moved Moves(s, k) units along V, in the direction of
      stepV. */
  lemma {:induction false} PenMoves(s: Walk, k: nat)
    ensures PenAt(s, k).v == Along(s, Moves(s, k))
  {
    if k > 0 {
      PenMoves(s, k - 1);
      AlongStep(s, Moves(s, k - 1));
    }
  }

  /** The decision value after k steps with m moves along V, as Bresenham's
      derivation gives it: a(k+1) - |ΔU|(2m+1). */
  function Decision(a: int, du: int, k: nat, m: nat): int
  {
    a * (k + 1) - du * (2 * m + 1)
  }

  lemma DecisionMoved(a: int, du: int, k: nat, m: nat)
    ensures Decision(a, du, k, m) + a - 2 * du == Decision(a, du, k + 1, m + 1)
  {
    assert a * (k + 2) == a * (k + 1) + a;
    assert du * (2 * (m + 1) + 1) == du * (2 * m + 1) + 2 * du;
  }

  lemma DecisionStayed(a: int, du: int, k: nat, m: nat)
    ensures Decision(a, du, k, m) + a == Decision(a, du, k + 1, m)
  {
    assert a * (k + 2) == a * (k + 1) + a;
  }

  /** The Bresenham invariant: the decision value after k steps is
      Decision(a, |ΔU|, k, m) for the m moves so far, and it stays in [b, a). */
  lemma {:induction false} PenInvariant(s: Walk, k: nat)
    requires WalkShape(s)
    ensures PenAt(s, k).p == Decision(s.a, s.endU - s.startU, k, Moves(s, k))
    ensures s.endU > s.startU ==> s.b <= PenAt(s, k).p < s.a
  {
    var du := s.endU - s.startU;
    if k == 0 {
      assert Decision(s.a, du, 0, 0) == s.a - du;
    } else {
      PenInvariant(s, k - 1);
      var m := Moves(s, k - 1);
      if PenAt(s, k - 1).p >= 0 {
        DecisionMoved(s.a, du, k - 1, m);
      } else {
        DecisionStayed(s.a, du, k - 1, m);
      }
    }
  }

  lemma DecisionAtEnd(a: int, du: nat, m: nat)
    ensures Decision(a, du, du, m) - a == du * (a - 2 * m - 1)
  {
    calc {
      Decision(a, du, du, m) - a;
      a * (du + 1) - du * (2 * m + 1) - a;
      { assert a * (du + 1) == a * du + a; }
      a * du - du * (2 * m + 1);
      { assert du * (a - (2 * m + 1)) == du * a - du * (2 * m + 1); }
      du * (a - 2 * m - 1);
    }
  }

  /** An odd multiple of a positive d that lies in [-2d, 0) is -d. */
  lemma OddMultiple(d: int, t: int)
    requires d > 0 && t % 2 == 1 && -2 * d <= d * t < 0
    ensures t == -1
  {
    if t >= 0 {
      MulNat(d, t);
    } else if t <= -3 {
      MulLe(3, -t, d);
    }
  }

  /** After |ΔU| steps the pen has made a/2 moves: the walk ends on the far
      endpoint. */
  lemma {:induction false} PenEnd(s: Walk)
    requires WalkShape(s)
    ensures 2 * Moves(s, s.endU - s.startU) == s.a
  {
    var du := s.endU - s.startU;
    PenInvariant(s, du);
    if du > 0 {
      EndMoves(s.a, du, Moves(s, du), PenAt(s, du).p);
    }
  }

  /** The only number of moves whose decision value after du steps lies in
      [a - 2du, a), for an even a, is a/2. */
  lemma EndMoves(a: int, du: nat, m: nat, p: int)
    requires du > 0 && a % 2 == 0 && a - 2 * du <= p < a && p == Decision(a, du, du, m)
    ensures 2 * m == a
  {
    DecisionAtEnd(a, du, m);
    var t := a - 2 * m - 1;
    assert t % 2 == 1;
    OddMultiple(du, t);
  }

  /** Image_DrawLine draws max(|Δx|, |Δy|) + 1 pixels. */
  lemma LineLength(x0: int, y0: int, x1: int, y1: int)
    ensures |LinePoints(x0, y0, x1, y1)| == (if Abs(x1 - x0) > Abs(y1 - y0) then Abs(x1 - x0) else Abs(y1 - y0)) + 1
  {
  }

  /** A walk starts at (startU, startV) and ends at endU after a/2 moves along V. */
  lemma WalkEnds(s: Walk)
    requires WalkShape(s)
    ensures WalkPoints(s)[0] == Place(s, s.startU, s.startV)
    ensures WalkPoints(s)[s.endU - s.startU] == Place(s, s.endU, Along(s, s.a / 2))
  {
    var du := s.endU - s.startU;
    PenEnd(s);
    PenMoves(s, du);
  }

  /** An oriented walk starts at one of its two endpoints and ends at the other. */
  lemma OrientedEnds(reversedXY: bool, u0: int, v0: int, u1: int, v1: int)
    requires Abs(v1 - v0) <= Abs(u1 - u0)
    ensures var s := Oriented(reversedXY, u0, v0, u1, v1);
      WalkShape(s) && s.reversedXY == reversedXY &&
      ((WalkPoints(s)[0] == Place(s, u0, v0) && WalkPoints(s)[s.endU - s.startU] == Place(s, u1, v1)) ||
       (WalkPoints(s)[0] == Place(s, u1, v1) && WalkPoints(s)[s.endU - s.startU] == Place(s, u0, v0)))
  {
    OrientedShape(reversedXY, u0, v0, u1, v1);
    WalkEnds(Oriented(reversedXY, u0, v0, u1, v1));
  }

  /** The line starts at one endpoint and ends at the other. */
  lemma LineEnds(x0: int, y0: int, x1: int, y1: int)
    ensures var pts := LinePoints(x0, y0, x1, y1);
      (pts[0] == Point(x0, y0) && pts[|pts| - 1] == Point(x1, y1)) ||
      (pts[0] == Point(x1, y1) && pts[|pts| - 1] == Point(x0, y0))
  {
    if Abs(y1 - y0) < Abs(x1 - x0) {
      OrientedEnds(true, x0, y0, x1, y1);
      assert LineWalk(x0, y0, x1, y1) == Oriented(true, x0, y0, x1, y1);
    } else {
      OrientedEnds(false, y0, x0, y1, x1);
      assert LineWalk(x0, y0, x1, y1) == Oriented(false, y0, x0, y1, x1);
    }
  }

  /** Consecutive points of a walk are neighbours (their coordinates differ by at
      most one), and no point is visited twice. */
  lemma WalkConnected(s: Walk)
    requires WalkShape(s)
    ensures var pts := WalkPoints(s);
      (forall k | 0 <= k < |pts| - 1 :: Abs(pts[k + 1].x - pts[k].x) <= 1 && Abs(pts[k + 1].y - pts[k].y) <= 1) &&
      (forall i, j | 0 <= i < j < |pts| :: pts[i] != pts[j])
  {
    var pts := WalkPoints(s);
    forall k | 0 <= k < |pts| - 1
      ensures Abs(pts[k + 1].x - pts[k].x) <= 1 && Abs(pts[k + 1].y - pts[k].y) <= 1
    {
      assert PenAt(s, k + 1) == Advance(s, PenAt(s, k));
    }
  }

  /** Consecutive points of the line are neighbours, and no pixel is drawn twice. */
  lemma LineConnected(x0: int, y0: int, x1: int, y1: int)
    ensures var pts := LinePoints(x0, y0, x1, y1);
      (forall k | 0 <= k < |pts| - 1 :: Abs(pts[k + 1].x - pts[k].x) <= 1 && Abs(pts[k + 1].y - pts[k].y) <= 1) &&
      (forall i, j | 0 <= i < j < |pts| :: pts[i] != pts[j])
  {
    LineWalkShape(x0, y0, x1, y1);
    WalkConnected(LineWalk(x0, y0, x1, y1));
  }

  // ---------------------------------------------------------------------------
  // Image_DrawCircle
  // ---------------------------------------------------------------------------

  /** The eight points Image_DrawCircle draws for one point (x, y) of its arc, in
      the order it draws them. */
  function Octants(cx: int, cy: int, x: int, y: int): (pts: seq<Point>)
    ensures |pts| == 8
  {
    [Point(cx + x, cy + y), Point(cx - x, cy + y), Point(cx + x, cy - y), Point(cx - x, cy - y),
     Point(cx + y, cy + x), Point(cx - y, cy + x), Point(cx + y, cy - x), Point(cx - y, cy - x)]
  }

  /** The state of the loop of Image_DrawCircle: the arc point and the decision
      value. */
  datatype Arc = Arc(x: int, y: int, d: int)

  /** The state the loop starts in for a radius: the decision value 3 - 2r is the
      closed form below at (0, r). */
  function CircleStart(radius: int): (a: Arc)
    ensures a.x == 0 && a.y == radius && Reached(radius, a)
  {
    Arc(0, radius, 3 - 2 * radius)
  }

  /** One pass of the loop: x moves right, and y moves down when the decision
      value is positive. */
  function ArcStep(a: Arc): Arc
  {
    var x := a.x + 1;
    if a.d > 0 then Arc(x, a.y - 1, a.d + 4 * (x - (a.y - 1)) + 10) else Arc(x, a.y, a.d + 4 * x + 6)
  }

  /** The passes the loop has left to run: while y >= x. */
  function ArcLeft(a: Arc): nat
  {
    if a.y >= a.x then a.y - a.x + 1 else 0
  }

  /** The points drawn from loop state a on. */
  function CircleFrom(cx: int, cy: int, a: Arc): seq<Point>
    decreases ArcLeft(a)
  {
    if a.y < a.x then [] else Octants(cx, cy, a.x, a.y) + CircleFrom(cx, cy, ArcStep(a))
  }

  /** The points Image_DrawCircle draws, in order. A negative radius draws
      nothing; otherwise the circle reaches the four points at distance radius
      along the axes. */
  function CirclePoints(cx: int, cy: int, radius: int): (pts: seq<Point>)
    ensures radius < 0 ==> pts == []
    ensures radius >= 0 ==>
      Point(cx, cy + radius) in pts && Point(cx, cy - radius) in pts &&
      Point(cx + radius, cy) in pts && Point(cx - radius, cy) in pts
  {
    var pts := CircleFrom(cx, cy, CircleStart(radius));
    if radius >= 0 then
      assert pts[..8] == Octants(cx, cy, 0, radius);
      pts
    else pts
  }

  /** The reflections that generate the symmetry group of a circle about (cx, cy):
      across the vertical axis, across the horizontal axis, and across the
      diagonal. */
  function MirrorX(cx: int, p: Point): Point
  {
    Point(2 * cx - p.x, p.y)
  }

  function MirrorY(cy: int, p: Point): Point
  {
    Point(p.x, 2 * cy - p.y)
  }

  function MirrorDiagonal(cx: int, cy: int, p: Point): Point
  {
    Point(cx + (p.y - cy), cy + (p.x - cx))
  }

  /** The eight points of one arc point are closed under the three reflections. */
  lemma OctantsSymmetric(cx: int, cy: int, x: int, y: int, p: Point)
    requires p in Octants(cx, cy, x, y)
    ensures MirrorX(cx, p) in Octants(cx, cy, x, y)
    ensures MirrorY(cy, p) in Octants(cx, cy, x, y)
    ensures MirrorDiagonal(cx, cy, p) in Octants(cx, cy, x, y)
  {
  }

  lemma {:induction false} CircleFromSymmetric(cx: int, cy: int, a: Arc, p: Point)
    requires p in CircleFrom(cx, cy, a)
    ensures MirrorX(cx, p) in CircleFrom(cx, cy, a)
    ensures MirrorY(cy, p) in CircleFrom(cx, cy, a)
    ensures MirrorDiagonal(cx, cy, p) in CircleFrom(cx, cy, a)
    decreases ArcLeft(a)
  {
    if a.y >= a.x {
      if p in Octants(cx, cy, a.x, a.y) {
        OctantsSymmetric(cx, cy, a.x, a.y, p);
      } else {
        CircleFromSymmetric(cx, cy, ArcStep(a), p);
      }
    }
  }

  /** Image_DrawCircle is 8-way symmetric: the mirror image of every pixel it
      draws, across either axis through the centre or the diagonal, is drawn as
      well. */
  lemma CircleSymmetric(cx: int, cy: int, radius: int, p: Point)
    requires p in CirclePoints(cx, cy, radius)
    ensures MirrorX(cx, p) in CirclePoints(cx, cy, radius)
    ensures MirrorY(cy, p) in CirclePoints(cx, cy, radius)
    ensures MirrorDiagonal(cx, cy, p) in CirclePoints(cx, cy, radius)
  {
    CircleFromSymmetric(cx, cy, CircleStart(radius), p);
  }

  /** From a state with 0 <= x and y <= radius every point drawn lies in the square
      of half-side radius around the centre. */
  lemma {:induction false} CircleFromBounded(cx: int, cy: int, radius: int, a: Arc, p: Point)
    requires 0 <= a.x && a.y <= radius && p in CircleFrom(cx, cy, a)
    ensures Abs(p.x - cx) <= radius && Abs(p.y - cy) <= radius
    decreases ArcLeft(a)
  {
    if a.y >= a.x && p !in Octants(cx, cy, a.x, a.y) {
      CircleFromBounded(cx, cy, radius, ArcStep(a), p);
    }
  }

  /** Every pixel Image_DrawCircle draws lies within radius of the centre along
      both axes. */
  lemma CircleBounded(cx: int, cy: int, radius: int, p: Point)
    requires p in CirclePoints(cx, cy, radius)
    ensures Abs(p.x - cx) <= radius && Abs(p.y - cy) <= radius
  {
    CircleFromBounded(cx, cy, radius, CircleStart(radius), p);
  }

  /** The midpoint decision value in closed form: after the loop has reached arc
      point (x, y) for a radius, it equals 2x^2 + 8x + 2y^2 - 6y + 3 + 4r - 2r^2. */
  function ArcDecision(radius: int, x: int, y: int): int
  {
    2 * x * x + 8 * x + 2 * y * y - 6 * y + 3 + 4 * radius - 2 * radius * radius
  }

  lemma ArcDecisionRight(radius: int, x: int, y: int)
    ensures ArcDecision(radius, x + 1, y) == ArcDecision(radius, x, y) + 4 * (x + 1) + 6
  {
    assert (x + 1) * (x + 1) == x * x + 2 * x + 1;
  }

  lemma ArcDecisionDiagonal(radius: int, x: int, y: int)
    ensures ArcDecision(radius, x + 1, y - 1) == ArcDecision(radius, x, y) + 4 * ((x + 1) - (y - 1)) + 10
  {
    assert (x + 1) * (x + 1) == x * x + 2 * x + 1;
    assert (y - 1) * (y - 1) == y * y - 2 * y + 1;
  }

  /** A loop state consistent with the radius: x has not gone left of 0, y has not
      gone above the radius, and the decision value is its closed form. */
  predicate Reached(radius: int, a: Arc)
  {
    0 <= a.x && a.y <= radius && a.d == ArcDecision(radius, a.x, a.y)
  }

  /** Each pass keeps the decision value equal to its closed form: x advances by
      one, and y drops by one exactly when the decision value was positive. */
  lemma ArcStepReached(radius: int, a: Arc)
    requires Reached(radius, a)
    ensures var b := ArcStep(a);
      Reached(radius, b) && b.x == a.x + 1 && (b.y == a.y || b.y == a.y - 1) && (b.y == a.y - 1 <==> a.d > 0)
  {
    if a.d > 0 {
      ArcDecisionDiagonal(radius, a.x, a.y);
    } else {
      ArcDecisionRight(radius, a.x, a.y);
    }
  }
}
