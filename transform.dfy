/**
 * Scale selection and the point transform: every point is moved so that the
 * box centre lands on the origin, scaled uniformly, and optionally mirrored
 * in y.
 */
module Transform {
  import opened Geometry
  import opened BoundingBox

  /**
   * The scale of lines 118-121 of svg2gds.py: `desired / width` when a
   * desired width is given and the box has positive width, and `1.0`
   * otherwise, so no division by zero can occur.
   */
  function ScaleFactor(desired: Option<real>, width: real): real {
    if desired.Some? && width > 0.0 then desired.value / width else 1.0
  }

  /**
   * The chosen scale turns the box width into the desired width, and is
   * positive when the desired width is; without a desired width, or for a
   * box of width zero, it is `1.0`.
   */
  lemma ScaleFactorMeans(desired: Option<real>, width: real)
    ensures var s := ScaleFactor(desired, width);
      && (desired.Some? && width > 0.0 ==> s * width == desired.value)
      && (desired.Some? && width > 0.0 && desired.value > 0.0 ==> s > 0.0)
      && (!(desired.Some? && width > 0.0) ==> s == 1.0)
  {
    if desired.Some? && width > 0.0 {
      var s := desired.value / width;
      assert s * width == desired.value;
    }
  }

  /** `((x - cx) * s, (y - cy) * s)`, with y negated when `flipY` is set. */
  function TransformPoint(p: Point, cx: real, cy: real, s: real, flipY: bool): Point {
    var ty := (p.y - cy) * s;
    Point((p.x - cx) * s, if flipY then -ty else ty)
  }

  /** Every point of every polygon transformed, in the original order. */
  function TransformAll(polys: seq<seq<Point>>, cx: real, cy: real, s: real, flipY: bool): seq<seq<Point>> {
    seq(|polys|, k requires 0 <= k < |polys| =>
      seq(|polys[k]|, i requires 0 <= i < |polys[k]| => TransformPoint(polys[k][i], cx, cy, s, flipY)))
  }

  /** The loop of lines 128-137: one `transformed` list per polygon, built point by point. */
  method TransformPolygons(polys: seq<seq<Point>>, cx: real, cy: real, s: real, flipY: bool)
    returns (out: seq<seq<Point>>)
    ensures out == TransformAll(polys, cx, cy, s, flipY)
  {
    out := [];
    for k := 0 to |polys|
      invariant |out| == k
      invariant forall j :: 0 <= j < k ==> |out[j]| == |polys[j]|
      invariant forall j, i :: 0 <= j < k && 0 <= i < |polys[j]| ==>
        out[j][i] == TransformPoint(polys[j][i], cx, cy, s, flipY)
    {
      var transformed: seq<Point> := [];
      for i := 0 to |polys[k]|
        invariant |transformed| == i
        invariant forall j :: 0 <= j < i ==> transformed[j] == TransformPoint(polys[k][j], cx, cy, s, flipY)
      {
        var p := polys[k][i];
        var tx := (p.x - cx) * s;
        var ty := (p.y - cy) * s;
        if flipY {
          ty := -ty;
        }
        transformed := transformed + [Point(tx, ty)];
      }
      out := out + [transformed];
    }
    TransformAllIs(polys, out, cx, cy, s, flipY);
  }

  /** The polygons the loop builds are those of `TransformAll`. */
  lemma TransformAllIs(polys: seq<seq<Point>>, out: seq<seq<Point>>, cx: real, cy: real, s: real, flipY: bool)
    requires |out| == |polys|
    requires forall k :: 0 <= k < |polys| ==> |out[k]| == |polys[k]|
    requires forall k, i :: 0 <= k < |polys| && 0 <= i < |polys[k]| ==>
      out[k][i] == TransformPoint(polys[k][i], cx, cy, s, flipY)
    ensures out == TransformAll(polys, cx, cy, s, flipY)
  {
    var t: seq<seq<Point>> := TransformAll(polys, cx, cy, s, flipY);
    forall k | 0 <= k < |polys|
      ensures out[k] == t[k]
    {
    }
  }

  /** Point `i` of polygon `k` of the transformed drawing, coordinate by coordinate. */
  lemma TransformAllAt(polys: seq<seq<Point>>, cx: real, cy: real, s: real, flipY: bool, k: int, i: int)
    requires 0 <= k < |polys| && 0 <= i < |polys[k]|
    ensures var t := TransformAll(polys, cx, cy, s, flipY);
      && |t| == |polys| && |t[k]| == |polys[k]|
      && t[k][i].x == (polys[k][i].x - cx) * s
      && t[k][i].y == (if flipY then -((polys[k][i].y - cy) * s) else (polys[k][i].y - cy) * s)
  {
    assert TransformAll(polys, cx, cy, s, flipY)[k][i] == TransformPoint(polys[k][i], cx, cy, s, flipY);
  }

  /** The image of a point with coordinates `(x, y)`, written in terms of `x` and `y`. */
  lemma ImageOf(polys: seq<seq<Point>>, cx: real, cy: real, s: real, flipY: bool, k: int, i: int, x: real, y: real)
    requires 0 <= k < |polys| && 0 <= i < |polys[k]| && polys[k][i] == Point(x, y)
    ensures var t := TransformAll(polys, cx, cy, s, flipY);
      && |t| == |polys| && |t[k]| == |polys[k]|
      && t[k][i].x == (x - cx) * s
      && t[k][i].y == (if flipY then -((y - cy) * s) else (y - cy) * s)
  {
    TransformAllAt(polys, cx, cy, s, flipY, k, i);
    ScaleEqual(polys[k][i].x - cx, x - cx, s);
    ScaleEqual(polys[k][i].y - cy, y - cy, s);
  }

  /**
   * Half the extent of the range `[m, M]` once scaled by `s` about its
   * midpoint `c`: the distance from the origin of the image of `M`.
   */
  function HalfSpan(M: real, c: real, s: real): real {
    Abs((M - c) * s)
  }

  /** The scaled range is `|s|` times as wide as the original. */
  lemma SpanScales(m: real, M: real, c: real, s: real)
    requires c == 0.5 * (m + M) && m <= M
    ensures 2.0 * HalfSpan(M, c, s) == Abs(s) * (M - m)
  {
    var d := M - m;
    assert M - c == 0.5 * d;
    ScaleEqual(M - c, 0.5 * d, s);
    ScaleBetween(0.0, 0.5 * d, 0.5 * d, s);
    if s >= 0.0 {
      assert Abs(s) == s;
    } else {
      assert Abs(s) == -s;
    }
  }

  /** Scaling about the midpoint `c` of `[m, M]` sends the two ends to opposite points. */
  lemma EndsOpposite(m: real, M: real, c: real, s: real)
    requires c == 0.5 * (m + M)
    ensures (m - c) * s == -((M - c) * s)
  {
    ScaleEqual(m - c, -(M - c), s);
    NegateFactor(M - c, s);
  }

  /** Scaling about the midpoint `c` of `[m, M]` keeps every value of `[m, M]` within `HalfSpan` of the origin. */
  lemma MidpointWithin(m: real, M: real, c: real, s: real, v: real)
    requires c == 0.5 * (m + M) && m <= v <= M
    ensures -HalfSpan(M, c, s) <= (v - c) * s <= HalfSpan(M, c, s)
  {
    ScaledWithin(v - c, M - c, s);
  }

  /** A value within `d` of the origin stays within `|d * s|` of it once multiplied by `s`. */
  lemma ScaledWithin(u: real, d: real, s: real)
    requires -d <= u <= d
    ensures -Abs(d * s) <= u * s <= Abs(d * s)
  {
    if s >= 0.0 {
      MulNonneg(d - u, s);
      MulNonneg(d + u, s);
      assert (d - u) * s == d * s - u * s;
      assert (d + u) * s == d * s + u * s;
    } else {
      MulNonneg(d - u, -s);
      MulNonneg(d + u, -s);
      assert (d - u) * (-s) == u * s - d * s;
      assert (d + u) * (-s) == -(d * s) - u * s;
    }
  }

  lemma MulNonneg(a: real, b: real)
    requires a >= 0.0 && b >= 0.0
    ensures a * b >= 0.0
  {
  }

  /** Multiplying `lo <= x <= hi` by `s` keeps the order when `s >= 0` and reverses it when `s < 0`. */
  lemma ScaleBetween(lo: real, x: real, hi: real, s: real)
    requires lo <= x <= hi
    ensures s >= 0.0 ==> lo * s <= x * s <= hi * s
    ensures s < 0.0 ==> hi * s <= x * s <= lo * s
  {
    if s >= 0.0 {
      assert (x - lo) * s >= 0.0 && (hi - x) * s >= 0.0;
    } else {
      assert (x - lo) * s <= 0.0 && (hi - x) * s <= 0.0;
    }
  }

  /** Equal factors give equal products. */
  lemma ScaleEqual(a: real, b: real, s: real)
    requires a == b
    ensures a * s == b * s
  {
  }

  /** `(-a) * b == -(a * b)`. */
  lemma NegateFactor(a: real, b: real)
    ensures (-a) * b == -(a * b)
  {
  }

  /** Every point in box `b`, transformed about its centre, lies within `HalfSpan` of the origin on each axis. */
  lemma TransformedWithin(polys: seq<seq<Point>>, b: Box, cx: real, cy: real, s: real, flipY: bool)
    requires cx == 0.5 * (b.xmin + b.xmax) && cy == 0.5 * (b.ymin + b.ymax)
    requires forall k, i :: 0 <= k < |polys| && 0 <= i < |polys[k]| ==>
      b.xmin <= polys[k][i].x <= b.xmax && b.ymin <= polys[k][i].y <= b.ymax
    ensures var t := TransformAll(polys, cx, cy, s, flipY);
      var hw, hh := HalfSpan(b.xmax, cx, s), HalfSpan(b.ymax, cy, s);
      forall k, i :: 0 <= k < |t| && 0 <= i < |t[k]| ==>
        -hw <= t[k][i].x <= hw && -hh <= t[k][i].y <= hh
  {
    var t: seq<seq<Point>> := TransformAll(polys, cx, cy, s, flipY);
    forall k, i | 0 <= k < |t| && 0 <= i < |t[k]|
      ensures -HalfSpan(b.xmax, cx, s) <= t[k][i].x <= HalfSpan(b.xmax, cx, s)
      ensures -HalfSpan(b.ymax, cy, s) <= t[k][i].y <= HalfSpan(b.ymax, cy, s)
    {
      assert t[k][i] == TransformPoint(polys[k][i], cx, cy, s, flipY);
      PointWithin(polys[k][i], b, cx, cy, s, flipY);
    }
  }

  /** One point of box `b`, transformed about its centre, lies within `HalfSpan` of the origin on each axis. */
  lemma PointWithin(p: Point, b: Box, cx: real, cy: real, s: real, flipY: bool)
    requires cx == 0.5 * (b.xmin + b.xmax) && cy == 0.5 * (b.ymin + b.ymax)
    requires b.xmin <= p.x <= b.xmax && b.ymin <= p.y <= b.ymax
    ensures var q := TransformPoint(p, cx, cy, s, flipY);
      && -HalfSpan(b.xmax, cx, s) <= q.x <= HalfSpan(b.xmax, cx, s)
      && -HalfSpan(b.ymax, cy, s) <= q.y <= HalfSpan(b.ymax, cy, s)
  {
    MidpointWithin(b.xmin, b.xmax, cx, s, p.x);
    MidpointWithin(b.ymin, b.ymax, cy, s, p.y);
  }

  /**
   * The images of the points that attain the x bounds of `b` reach the two
   * vertical edges `x = -/+ HalfSpan`.
   */
  lemma TransformedReachesX(polys: seq<seq<Point>>, b: Box, cx: real, cy: real, s: real, flipY: bool)
    requires cx == 0.5 * (b.xmin + b.xmax) && b.xmin <= b.xmax
    requires exists k, i :: 0 <= k < |polys| && 0 <= i < |polys[k]| && polys[k][i].x == b.xmin
    requires exists k, i :: 0 <= k < |polys| && 0 <= i < |polys[k]| && polys[k][i].x == b.xmax
    ensures var t, hw := TransformAll(polys, cx, cy, s, flipY), HalfSpan(b.xmax, cx, s);
      && (exists k, i :: 0 <= k < |t| && 0 <= i < |t[k]| && t[k][i].x == -hw)
      && (exists k, i :: 0 <= k < |t| && 0 <= i < |t[k]| && t[k][i].x == hw)
  {
    var t: seq<seq<Point>> := TransformAll(polys, cx, cy, s, flipY);
    var k0, i0 :| 0 <= k0 < |polys| && 0 <= i0 < |polys[k0]| && polys[k0][i0].x == b.xmin;
    var k1, i1 :| 0 <= k1 < |polys| && 0 <= i1 < |polys[k1]| && polys[k1][i1].x == b.xmax;
    EndsOpposite(b.xmin, b.xmax, cx, s);
    ImageOf(polys, cx, cy, s, flipY, k0, i0, b.xmin, polys[k0][i0].y);
    ImageOf(polys, cx, cy, s, flipY, k1, i1, b.xmax, polys[k1][i1].y);
    if (b.xmax - cx) * s >= 0.0 {
      assert t[k0][i0].x == -HalfSpan(b.xmax, cx, s) && t[k1][i1].x == HalfSpan(b.xmax, cx, s);
    } else {
      assert t[k1][i1].x == -HalfSpan(b.xmax, cx, s) && t[k0][i0].x == HalfSpan(b.xmax, cx, s);
    }
  }

  /**
   * The images of the points that attain the y bounds of `b` reach the two
   * horizontal edges `y = -/+ HalfSpan`; mirroring swaps which reaches which.
   */
  lemma TransformedReachesY(polys: seq<seq<Point>>, b: Box, cx: real, cy: real, s: real, flipY: bool)
    requires cy == 0.5 * (b.ymin + b.ymax) && b.ymin <= b.ymax
    requires exists k, i :: 0 <= k < |polys| && 0 <= i < |polys[k]| && polys[k][i].y == b.ymin
    requires exists k, i :: 0 <= k < |polys| && 0 <= i < |polys[k]| && polys[k][i].y == b.ymax
    ensures var t, hh := TransformAll(polys, cx, cy, s, flipY), HalfSpan(b.ymax, cy, s);
      && (exists k, i :: 0 <= k < |t| && 0 <= i < |t[k]| && t[k][i].y == -hh)
      && (exists k, i :: 0 <= k < |t| && 0 <= i < |t[k]| && t[k][i].y == hh)
  {
    var t: seq<seq<Point>> := TransformAll(polys, cx, cy, s, flipY);
    var k0, i0 :| 0 <= k0 < |polys| && 0 <= i0 < |polys[k0]| && polys[k0][i0].y == b.ymin;
    var k1, i1 :| 0 <= k1 < |polys| && 0 <= i1 < |polys[k1]| && polys[k1][i1].y == b.ymax;
    EndsOpposite(b.ymin, b.ymax, cy, s);
    ImageOf(polys, cx, cy, s, flipY, k0, i0, polys[k0][i0].x, b.ymin);
    ImageOf(polys, cx, cy, s, flipY, k1, i1, polys[k1][i1].x, b.ymax);
    if ((b.ymax - cy) * s >= 0.0) == flipY {
      assert t[k1][i1].y == -HalfSpan(b.ymax, cy, s) && t[k0][i0].y == HalfSpan(b.ymax, cy, s);
    } else {
      assert t[k0][i0].y == -HalfSpan(b.ymax, cy, s) && t[k1][i1].y == HalfSpan(b.ymax, cy, s);
    }
  }

  /** Transforming keeps the number of polygons and of points in each, so every polygon stays non-empty. */
  lemma TransformedNonEmpty(polys: seq<seq<Point>>, cx: real, cy: real, s: real, flipY: bool)
    requires AllNonEmpty(polys)
    ensures var t := TransformAll(polys, cx, cy, s, flipY);
      |t| == |polys| && (forall k :: 0 <= k < |t| ==> |t[k]| == |polys[k]|) && AllNonEmpty(t)
  {
  }

  /**
   * Transforming about the centre `(cx, cy)` of the box: the new box is
   * centred on the origin, and its half-width and half-height are the
   * distances of the images of the old box's upper ends from the origin.
   */
  lemma CentredBox(polys: seq<seq<Point>>, cx: real, cy: real, s: real, flipY: bool)
    requires |polys| > 0 && AllNonEmpty(polys)
    requires cx == 0.5 * (BoundingBoxOf(polys).xmin + BoundingBoxOf(polys).xmax)
    requires cy == 0.5 * (BoundingBoxOf(polys).ymin + BoundingBoxOf(polys).ymax)
    ensures var t := TransformAll(polys, cx, cy, s, flipY);
      |t| == |polys| && AllNonEmpty(t)
    ensures var b, t := BoundingBoxOf(polys), TransformAll(polys, cx, cy, s, flipY);
      var hw, hh := HalfSpan(b.xmax, cx, s), HalfSpan(b.ymax, cy, s);
      BoundingBoxOf(t) == Box(-hw, hw, -hh, hh)
  {
    var b := BoundingBoxOf(polys);
    var t: seq<seq<Point>> := TransformAll(polys, cx, cy, s, flipY);
    var hw, hh := HalfSpan(b.xmax, cx, s), HalfSpan(b.ymax, cy, s);
    TransformedNonEmpty(polys, cx, cy, s, flipY);
    BoundingBoxCorrect(polys);
    TransformedWithin(polys, b, cx, cy, s, flipY);
    TransformedReachesX(polys, b, cx, cy, s, flipY);
    TransformedReachesY(polys, b, cx, cy, s, flipY);
    BoxIs(t, Box(-hw, hw, -hh, hh));
  }

  /** Box `ob` is centred on the origin and `|s|` times as wide and as tall as box `b`. */
  predicate CentredScaledBy(b: Box, ob: Box, s: real) {
    && ob.xmin == -ob.xmax && ob.ymin == -ob.ymax
    && ob.xmax - ob.xmin == Abs(s) * (b.xmax - b.xmin)
    && ob.ymax - ob.ymin == Abs(s) * (b.ymax - b.ymin)
  }

  /**
   * The box of the transformed drawing is `|s|` times as wide and as tall as
   * the original box, and centred on the origin.
   */
  lemma ScaledBox(polys: seq<seq<Point>>, cx: real, cy: real, s: real, flipY: bool)
    requires |polys| > 0 && AllNonEmpty(polys)
    requires cx == 0.5 * (BoundingBoxOf(polys).xmin + BoundingBoxOf(polys).xmax)
    requires cy == 0.5 * (BoundingBoxOf(polys).ymin + BoundingBoxOf(polys).ymax)
    ensures var t := TransformAll(polys, cx, cy, s, flipY);
      && |t| == |polys| && AllNonEmpty(t)
      && CentredScaledBy(BoundingBoxOf(polys), BoundingBoxOf(t), s)
  {
    var b := BoundingBoxOf(polys);
    BoundingBoxCorrect(polys);
    CentredBox(polys, cx, cy, s, flipY);
    assert b.xmin <= polys[0][0].x <= b.xmax && b.ymin <= polys[0][0].y <= b.ymax;
    CentredBoxScaled(b, cx, cy, s);
  }

  /** The box `[-hw, hw] x [-hh, hh]` of the half-spans about the centre of `b` is `b` centred and scaled by `|s|`. */
  lemma CentredBoxScaled(b: Box, cx: real, cy: real, s: real)
    requires b.xmin <= b.xmax && b.ymin <= b.ymax
    requires cx == 0.5 * (b.xmin + b.xmax) && cy == 0.5 * (b.ymin + b.ymax)
    ensures var hw, hh := HalfSpan(b.xmax, cx, s), HalfSpan(b.ymax, cy, s);
      CentredScaledBy(b, Box(-hw, hw, -hh, hh), s)
  {
    SpanScales(b.xmin, b.xmax, cx, s);
    SpanScales(b.ymin, b.ymax, cy, s);
  }

  /**
   * With a positive desired width and a box of positive width, the drawing
   * transformed about the centre of its box is exactly the desired width
   * wide, centred on x = 0.
   */
  lemma ScaledToDesiredWidth(polys: seq<seq<Point>>, cx: real, cy: real, desired: real, flipY: bool)
    requires |polys| > 0 && AllNonEmpty(polys)
    requires cx == 0.5 * (BoundingBoxOf(polys).xmin + BoundingBoxOf(polys).xmax)
    requires cy == 0.5 * (BoundingBoxOf(polys).ymin + BoundingBoxOf(polys).ymax)
    requires desired > 0.0 && BoundingBoxOf(polys).xmax - BoundingBoxOf(polys).xmin > 0.0
    ensures var b := BoundingBoxOf(polys);
      var t := TransformAll(polys, cx, cy, ScaleFactor(Some(desired), b.xmax - b.xmin), flipY);
      |t| == |polys| && AllNonEmpty(t)
      && BoundingBoxOf(t).xmax - BoundingBoxOf(t).xmin == desired
      && BoundingBoxOf(t).xmin == -BoundingBoxOf(t).xmax
  {
    var b := BoundingBoxOf(polys);
    var s := ScaleFactor(Some(desired), b.xmax - b.xmin);
    ScaleFactorMeans(Some(desired), b.xmax - b.xmin);
    ScaledBox(polys, cx, cy, s, flipY);
    assert Abs(s) == s;
  }
}
