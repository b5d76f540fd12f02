/** Distance from a point box to the segment a player moved along, over the reals. */
module Geometry {

  /** A position in metres. */
  datatype Point = Point(x: real, y: real)

  function Times(x: real, y: real): real {
    x * y
  }

  function SquaredDistance(p: Point, q: Point): real {
    var dx, dy := p.x - q.x, p.y - q.y;
    Times(dx, dx) + Times(dy, dy)
  }

  /** The point of the move between two positions at time `t`. */
  function Along(from: Point, to: Point, t: real): Point {
    Point(from.x + t * (to.x - from.x), from.y + t * (to.y - from.y))
  }

  function Dot(box: Point, from: Point, to: Point): real {
    Times(box.x - from.x, to.x - from.x) + Times(box.y - from.y, to.y - from.y)
  }

  /** Where the box projects onto the line of the move; -1 for a move of zero length. */
  function Projection(box: Point, from: Point, to: Point): real {
    var dot := Dot(box, from, to);
    var lenSq := SquaredDistance(to, from);
    if lenSq != 0.0 then dot / lenSq else -1.0
  }

  /** The point that `PointBoxDistance` measures to. */
  function Nearest(box: Point, from: Point, to: Point): Point {
    var param := Projection(box, from, to);
    if param < 0.0 then from
    else if param > 1.0 then to
    else Point(from.x + param * (to.x - from.x), from.y + param * (to.y - from.y))
  }

  /** The square of `PointBoxDistance`. */
  function SegmentDistanceSquared(box: Point, from: Point, to: Point): real {
    SquaredDistance(box, Nearest(box, from, to))
  }

  // ----- arithmetic

  lemma {:induction false} MulSign(x: real, y: real)
    requires (x >= 0.0 && y >= 0.0) || (x <= 0.0 && y <= 0.0)
    ensures x * y >= 0.0
  {
  }

  lemma {:induction false} TimesPositive(x: real, y: real)
    requires x > 0.0 && y > 0.0
    ensures Times(x, y) > 0.0
  {
  }

  lemma {:induction false} SquarePositive(x: real)
    requires x != 0.0
    ensures Times(x, x) > 0.0
  {
    if x > 0.0 {
      TimesPositive(x, x);
    } else {
      TimesPositive(-x, -x);
      assert Times(-x, -x) == Times(x, x);
    }
  }

  lemma {:induction false} PositiveIsNonzero(x: real)
    requires x > 0.0
    ensures x != 0.0
  {
  }

  lemma {:induction false} DivideTimes(x: real, y: real)
    requires y != 0.0
    ensures x == x / y * y
  {
  }

  lemma {:induction false} SquareSign(x: real)
    ensures Times(x, x) >= 0.0
    ensures Times(x, x) == 0.0 <==> x == 0.0
  {
    if x != 0.0 {
      SquarePositive(x);
      PositiveIsNonzero(Times(x, x));
    }
  }

  /** Between two times a parabola with its vertex at `param` differs by this product. */
  lemma {:induction false} QuadraticDifference(k: real, dot: real, len: real, param: real, s: real, t: real)
    requires dot == param * len
    ensures
      (k - 2.0 * (t * dot) + t * t * len) - (k - 2.0 * (s * dot) + s * s * len)
      == len * ((t - s) * (t + s - 2.0 * param))
  {
  }

  /** A parabola that opens upwards is least, on [0, 1], at its clamped vertex. */
  lemma {:induction false} ClampedVertexIsLeast(k: real, dot: real, len: real, param: real, s: real, t: real)
    requires len > 0.0 && dot == param * len && 0.0 <= t <= 1.0
    requires s == if param < 0.0 then 0.0 else if param > 1.0 then 1.0 else param
    ensures k - 2.0 * (s * dot) + s * s * len <= k - 2.0 * (t * dot) + t * t * len
  {
    QuadraticDifference(k, dot, len, param, s, t);
    MulSign(t - s, t + s - 2.0 * param);
    MulSign(len, (t - s) * (t + s - 2.0 * param));
  }

  // ----- the segment

  lemma {:induction false} SquaredDistanceSign(p: Point, q: Point)
    ensures SquaredDistance(p, q) >= 0.0
    ensures SquaredDistance(p, q) == 0.0 <==> p == q
  {
    hide Times;
    SquareSign(p.x - q.x);
    SquareSign(p.y - q.y);
  }

  /** One coordinate of the way from the move at time `t` to the box. */
  function Offset(a: real, d: real, t: real): real {
    a - t * d
  }

  function Quadratic(t: real, a: real, b: real, c: real): real {
    a - 2.0 * (t * b) + t * t * c
  }

  lemma {:induction false} OffsetSquared(a: real, d: real, t: real)
    ensures Times(Offset(a, d, t), Offset(a, d, t)) == Quadratic(t, Times(a, a), Times(a, d), Times(d, d))
  {
  }

  lemma {:induction false} QuadraticSum(t: real, a: real, b: real, c: real, x: real, y: real, z: real)
    ensures Quadratic(t, a, b, c) + Quadratic(t, x, y, z) == Quadratic(t, a + x, b + y, c + z)
  {
  }

  lemma {:induction false} AlongOffsets(box: Point, from: Point, to: Point, t: real)
    ensures
      var p := Along(from, to, t);
      box.x - p.x == Offset(box.x - from.x, to.x - from.x, t) && box.y - p.y == Offset(box.y - from.y, to.y - from.y, t)
  {
  }

  /** The squared distance along the move is a quadratic in the time. */
  lemma {:induction false} AlongQuadratic(box: Point, from: Point, to: Point, t: real)
    ensures SquaredDistance(box, Along(from, to, t))
      == Quadratic(t, SquaredDistance(box, from), Dot(box, from, to), SquaredDistance(to, from))
  {
    hide Times, Along, Offset, Quadratic;
    var ax, ay, dx, dy := box.x - from.x, box.y - from.y, to.x - from.x, to.y - from.y;
    AlongOffsets(box, from, to, t);
    OffsetSquared(ax, dx, t);
    OffsetSquared(ay, dy, t);
    QuadraticSum(t, Times(ax, ax), Times(ax, dx), Times(dx, dx), Times(ay, ay), Times(ay, dy), Times(dy, dy));
  }

  /** Time at which the move is nearest: the projection, clamped to [0, 1]. */
  function NearestTime(box: Point, from: Point, to: Point): (t: real)
    ensures 0.0 <= t <= 1.0
  {
    var param := Projection(box, from, to);
    if param < 0.0 then 0.0 else if param > 1.0 then 1.0 else param
  }

  lemma {:induction false} NearestAttained(box: Point, from: Point, to: Point)
    ensures Nearest(box, from, to) == Along(from, to, NearestTime(box, from, to))
  {
  }

  /** No point of the move is nearer to the box than the computed one. */
  lemma {:induction false} NearestIsLeast(box: Point, from: Point, to: Point, t: real)
    requires 0.0 <= t <= 1.0
    ensures SegmentDistanceSquared(box, from, to) <= SquaredDistance(box, Along(from, to, t))
  {
    hide SquaredDistance, Dot, Projection, Nearest;
    var s := NearestTime(box, from, to);
    NearestAttained(box, from, to);
    SquaredDistanceSign(to, from);
    if from == to {
      hide NearestTime;
      assert Along(from, to, t) == from == Along(from, to, s);
    } else {
      hide Along;
      ProjectionQuotient(box, from, to);
      AlongQuadratic(box, from, to, s);
      AlongQuadratic(box, from, to, t);
      ClampedVertexIsLeast(SquaredDistance(box, from), Dot(box, from, to), SquaredDistance(to, from),
                           Projection(box, from, to), s, t);
    }
  }

  lemma {:induction false} ProjectionQuotient(box: Point, from: Point, to: Point)
    requires from != to
    ensures Dot(box, from, to) == Projection(box, from, to) * SquaredDistance(to, from)
  {
    hide Dot, SquaredDistance;
    SquaredDistanceSign(to, from);
    DivideTimes(Dot(box, from, to), SquaredDistance(to, from));
  }

  /** The computed distance is below a bound exactly when some point of the move
      is nearer to the box than the bound. */
  lemma {:induction false} WithinReach(box: Point, from: Point, to: Point, bound: real)
    ensures
      SegmentDistanceSquared(box, from, to) < bound
      <==> exists t :: 0.0 <= t <= 1.0 && SquaredDistance(box, Along(from, to, t)) < bound
  {
    hide SquaredDistance, NearestTime, Along;
    NearestAttained(box, from, to);
    var s := NearestTime(box, from, to);
    if SegmentDistanceSquared(box, from, to) < bound {
      assert SquaredDistance(box, Along(from, to, s)) < bound;
    }
    if t :| 0.0 <= t <= 1.0 && SquaredDistance(box, Along(from, to, t)) < bound {
      NearestIsLeast(box, from, to, t);
    }
  }
}
