/**
 * Points, curve segments and the outcomes shared by every stage of the
 * svg2gds geometry core.
 *
 * A point is the pair (x, y) that the source keeps either as a complex number
 * (x = real part, y = imaginary part) or as a tuple; coordinates are reals
 * here, so no floating-point rounding is modelled.
 */
module Geometry {

  datatype Point = Point(x: real, y: real)

  /** Coordinate-wise difference `a - b` (complex subtraction in the source). */
  function Sub(a: Point, b: Point): Point {
    Point(a.x - b.x, a.y - b.y)
  }

  /** The z-component of the 2D cross product of `u` and `v`. */
  function Cross(u: Point, v: Point): real {
    u.x * v.y - u.y * v.x
  }

  function Sq(a: real): real {
    a * a
  }

  /** Squared Euclidean length: `abs(v)` squared for a complex `v`. */
  function Norm2(v: Point): real {
    Sq(v.x) + Sq(v.y)
  }

  function Abs(v: real): real {
    if v < 0.0 then -v else v
  }

  /** The point a fraction `t` of the way from `a` to `b`. */
  function Lerp(a: Point, b: Point, t: real): Point {
    Point(a.x + t * (b.x - a.x), a.y + t * (b.y - a.y))
  }

  /** Every point list holds at least one point. */
  predicate AllNonEmpty(lists: seq<seq<Point>>) {
    forall k :: 0 <= k < |lists| ==> |lists[k]| > 0
  }

  /**
   * A primitive curve segment as the upstream parser delivers it. Lines and
   * Bezier curves carry their control points; an elliptical arc is evaluated
   * with trigonometry by the parsing library, so its evaluation is left
   * uninterpreted as a function of the parameter.
   */
  datatype Segment =
    | Line(start: Point, end: Point)
    | QuadraticBezier(start: Point, control: Point, end: Point)
    | CubicBezier(start: Point, control1: Point, control2: Point, end: Point)
    | Arc(at: real -> Point)

  /** `seg.point(t)`: the segment evaluated at parameter `t` (de Casteljau for the Bezier kinds). */
  function PointAt(seg: Segment, t: real): Point {
    match seg
    case Line(a, b) => Lerp(a, b, t)
    case QuadraticBezier(a, c, b) => Lerp(Lerp(a, c, t), Lerp(c, b, t), t)
    case CubicBezier(a, c1, c2, b) =>
      var q0, q1, q2 := Lerp(a, c1, t), Lerp(c1, c2, t), Lerp(c2, b, t);
      Lerp(Lerp(q0, q1, t), Lerp(q1, q2, t), t)
    case Arc(at) => at(t)
  }

  /** A line segment starts at its start point and ends at its end point. */
  lemma LineEndpoints(a: Point, b: Point)
    ensures PointAt(Line(a, b), 0.0) == a && PointAt(Line(a, b), 1.0) == b
  {
  }

  /**
   * The bisection test compares `|cross| / len` with a tolerance. For a
   * chord of positive length `len` this is the same as comparing squares,
   * provided the tolerance is not negative: a negative tolerance accepts
   * nothing, since the left-hand side is never negative.
   */
  lemma ChordTestSquaredForm(cross: real, len: real, err: real)
    requires len > 0.0
    ensures Abs(cross) / len <= err <==> (err >= 0.0 && Sq(cross) <= Sq(err) * Sq(len))
  {
    var a := Abs(cross);
    assert Sq(a) == Sq(cross);
    assert Sq(err) * Sq(len) == Sq(err * len);
    assert Abs(cross) / len <= err <==> a <= err * len;
    if err >= 0.0 {
      SquareMonotone(a, err * len);
    } else {
      assert err * len < 0.0;
    }
  }

  /**
   * The same comparison when the squared length `n = len * len` may be zero:
   * a zero-length chord is accepted outright, before any division.
   */
  lemma SquaredChordTest(cross: real, n: real, len: real, err: real)
    requires len >= 0.0 && Sq(len) == n
    ensures (n == 0.0 || (err >= 0.0 && Sq(cross) <= Sq(err) * n)) <==> (len == 0.0 || Abs(cross) / len <= err)
    ensures n == 0.0 <==> len == 0.0
  {
    SquarePositive(len);
    if len > 0.0 {
      ChordTestSquaredForm(cross, len, err);
    }
  }

  /** A vector has squared length zero exactly when it is the zero vector (`abs(v) == 0`). */
  lemma Norm2ZeroIff(v: Point)
    ensures Norm2(v) == 0.0 <==> v == Point(0.0, 0.0)
  {
    SquarePositive(v.x);
    SquarePositive(v.y);
  }

  lemma DivideBySelf(n: real)
    requires n != 0.0
    ensures n / n == 1.0 && 0.0 / n == 0.0
  {
  }

  lemma MulPositive(a: real, b: real)
    requires a > 0.0 && b > 0.0
    ensures a * b > 0.0
  {
  }

  lemma SquareStrict(a: real, b: real)
    requires 0.0 <= a < b
    ensures Sq(a) < Sq(b)
  {
    MulPositive(b - a, b + a);
    assert (b - a) * (b + a) == b * b - a * a;
  }

  lemma SquareMonotone(a: real, b: real)
    requires 0.0 <= a && 0.0 <= b
    ensures a <= b <==> Sq(a) <= Sq(b)
  {
    if a < b {
      SquareStrict(a, b);
    } else if b < a {
      SquareStrict(b, a);
    }
  }

  lemma SquarePositive(a: real)
    ensures Sq(a) >= 0.0
    ensures a != 0.0 ==> Sq(a) > 0.0
  {
    assert Sq(0.0) == 0.0;
    if a > 0.0 {
      SquareStrict(0.0, a);
    } else if a < 0.0 {
      SquareStrict(0.0, -a);
      assert Sq(-a) == Sq(a);
    }
  }

  datatype Option<T> = None | Some(value: T)

  /** The exceptions the core can raise. */
  datatype Error =
    | DivisionByZero   // `i / steps` with `steps == 0`
    | RecursionLimit   // adaptive bisection deeper than the depth bound
    | UnknownMethod    // a method other than "fixed" or "adaptive"
    | TypeError        // subscripting a complex number, as `pts[-1][0]` does

  datatype Result<T> = Ok(value: T) | Err(error: Error)
}
