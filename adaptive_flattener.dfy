/**
 * The adaptive flattener: recursive bisection of a segment's parameter
 * interval until the curve's parametric midpoint lies within the tolerance
 * of the chord joining the interval's endpoints.
 *
 * The recursion of svg2gds.py has no depth cap. Here every call carries a depth
 * bound: a branch that would bisect deeper than the bound ends the whole
 * flattening with `Err(RecursionLimit)`, and every property below is stated
 * for results that are `Ok`. The lemma `SubdivideDepthMonotone` shows that a
 * larger bound never changes such a result.
 */
module AdaptiveFlattener {
  import opened Geometry

  /** `0.5 * (t0 + t1)`, the parameter at which an interval is split. */
  function Midpoint(t0: real, t1: real): real {
    0.5 * (t0 + t1)
  }

  /**
   * The stopping test of one bisection step on `[t0, t1]`: the chord from
   * `point(t0)` to `point(t1)` has length zero, or the perpendicular
   * distance `|cross(p2 - p0, p1 - p0)| / |p2 - p0|` of the midpoint sample
   * `p1` from it is at most `err`, written without the square root (see
   * `ChordAcceptedMeans`).
   */
  predicate ChordAccepted(curve: real -> Point, t0: real, t1: real, err: real) {
    var p0 := curve(t0);
    var p1 := curve(Midpoint(t0, t1));
    var p2 := curve(t1);
    var chord := Sub(p2, p0);
    Norm2(chord) == 0.0 || (err >= 0.0 && Sq(Cross(chord, Sub(p1, p0))) <= Sq(err) * Norm2(chord))
  }

  /** `recursive_subdivide(seg, t0, t1, err)`, allowed `depth` more levels of bisection. */
  function Subdivide(curve: real -> Point, t0: real, t1: real, err: real, depth: nat): (r: Result<seq<Point>>)
    ensures r.Ok? ==> |r.value| >= 2
    ensures r.Ok? ==> r.value[0] == curve(t0) && r.value[|r.value| - 1] == curve(t1)
    ensures r.Err? ==> r.error == RecursionLimit && !ChordAccepted(curve, t0, t1, err)
    decreases depth
  {
    if ChordAccepted(curve, t0, t1, err) then
      Ok([curve(t0), curve(t1)])
    else if depth == 0 then
      Err(RecursionLimit)
    else
      var tm := Midpoint(t0, t1);
      var left := Subdivide(curve, t0, tm, err, depth - 1);
      var right := Subdivide(curve, tm, t1, err, depth - 1);
      if left.Err? then left
      else if right.Err? then right
      else Ok(left.value[..|left.value| - 1] + right.value)
  }

  /** A segment seen as the function `t => seg.point(t)` that the bisection samples. */
  function Curve(seg: Segment): real -> Point {
    t => PointAt(seg, t)
  }

  /** `adaptive_approximate_segment(seg, max_error)`: bisection of the whole interval `[0, 1]`. */
  function AdaptiveSegment(seg: Segment, maxError: real, depth: nat): (r: Result<seq<Point>>)
    ensures r.Ok? ==> |r.value| >= 2
    ensures r.Ok? ==> r.value[0] == PointAt(seg, 0.0) && r.value[|r.value| - 1] == PointAt(seg, 1.0)
    ensures r.Err? ==> r.error == RecursionLimit
  {
    Subdivide(Curve(seg), 0.0, 1.0, maxError, depth)
  }

  /**
   * The squared test is the source's test: for a chord of length `len > 0`
   * it accepts exactly when `|cross| / len <= err`, and a chord has length
   * zero exactly when its endpoints coincide.
   */
  lemma ChordAcceptedMeans(curve: real -> Point, t0: real, t1: real, err: real, len: real)
    requires len >= 0.0 && Sq(len) == Norm2(Sub(curve(t1), curve(t0)))
    ensures var p0, p1, p2 := curve(t0), curve(Midpoint(t0, t1)), curve(t1);
      ChordAccepted(curve, t0, t1, err)
      <==> (len == 0.0 || Abs(Cross(Sub(p2, p0), Sub(p1, p0))) / len <= err)
    ensures len == 0.0 <==> curve(t0) == curve(t1)
  {
    var p0, p1, p2 := curve(t0), curve(Midpoint(t0, t1)), curve(t1);
    var chord := Sub(p2, p0);
    SquaredChordTest(Cross(chord, Sub(p1, p0)), Norm2(chord), len, err);
    Norm2ZeroIff(chord);
    assert chord == Point(0.0, 0.0) <==> p0 == p2;
  }

  /**
   * The two shapes of a result: exactly `[point(t0), point(t1)]` when the
   * chord is accepted, and otherwise the left half's points without its
   * last one, followed by the right half's, so that the shared midpoint
   * `point(tm)` appears once and the length is `|left| + |right| - 1`.
   */
  lemma SubdivideShape(curve: real -> Point, t0: real, t1: real, err: real, depth: nat)
    requires Subdivide(curve, t0, t1, err, depth).Ok?
    ensures var ps := Subdivide(curve, t0, t1, err, depth).value;
      ChordAccepted(curve, t0, t1, err) <==> ps == [curve(t0), curve(t1)]
    ensures var ps := Subdivide(curve, t0, t1, err, depth).value;
      var tm := Midpoint(t0, t1);
      !ChordAccepted(curve, t0, t1, err) ==>
        && depth > 0
        && Subdivide(curve, t0, tm, err, depth - 1).Ok?
        && Subdivide(curve, tm, t1, err, depth - 1).Ok?
        && var left, right := Subdivide(curve, t0, tm, err, depth - 1).value, Subdivide(curve, tm, t1, err, depth - 1).value;
           && ps == left[..|left| - 1] + right
           && |ps| == |left| + |right| - 1
           && |ps| >= 3
           && ps[|left| - 1] == curve(tm)
  {
  }

  function Pow2(d: nat): (r: nat)
    ensures r >= 1
  {
    if d == 0 then 1 else 2 * Pow2(d - 1)
  }

  /** The fraction `m / 2^d`. */
  function Dyadic(m: nat, d: nat): real {
    (m as real) / (Pow2(d) as real)
  }

  /** The parameter a fraction `m / 2^d` of the way through `[t0, t1]`. */
  function DyadicParameter(t0: real, t1: real, m: nat, d: nat): real {
    t0 + (t1 - t0) * Dyadic(m, d)
  }

  lemma DyadicHalf(m: nat, d: nat)
    ensures Dyadic(m, d + 1) == 0.5 * Dyadic(m, d)
    ensures Dyadic(Pow2(d) + m, d + 1) == 0.5 + 0.5 * Dyadic(m, d)
  {
    var p := Pow2(d) as real;
    assert Pow2(d + 1) as real == 2.0 * p;
    HalveFraction(m as real, p);
    HalveFraction(p + m as real, p);
    assert (Pow2(d) + m) as real == p + m as real;
    assert p / p == 1.0;
    assert (p + m as real) / p == p / p + (m as real) / p;
  }

  lemma HalveFraction(a: real, p: real)
    requires p > 0.0
    ensures a / (2.0 * p) == 0.5 * (a / p)
  {
  }

  /** A dyadic point of the left half is the dyadic point one level finer of the whole interval. */
  lemma LeftHalfParameter(t0: real, t1: real, m: nat, d: nat)
    ensures DyadicParameter(t0, Midpoint(t0, t1), m, d) == DyadicParameter(t0, t1, m, d + 1)
  {
    DyadicHalf(m, d);
    var f := Dyadic(m, d);
    assert (Midpoint(t0, t1) - t0) * f == (t1 - t0) * (0.5 * f);
  }

  /** A dyadic point of the right half lies `2^d` finer steps into the whole interval. */
  lemma RightHalfParameter(t0: real, t1: real, m: nat, d: nat)
    ensures DyadicParameter(Midpoint(t0, t1), t1, m, d) == DyadicParameter(t0, t1, Pow2(d) + m, d + 1)
  {
    DyadicHalf(m, d);
    var f := Dyadic(m, d);
    assert (t1 - Midpoint(t0, t1)) * f == (t1 - t0) * (0.5 * f);
  }

  /** Point `j` of `ps` is the curve evaluated at parameter `ts[j]`. */
  predicate SampledAt(curve: real -> Point, ps: seq<Point>, ts: seq<real>) {
    |ps| == |ts| && forall j :: 0 <= j < |ts| ==> ps[j] == curve(ts[j])
  }

  predicate StrictlyIncreasing(ts: seq<real>) {
    forall j :: 0 <= j < |ts| - 1 ==> ts[j] < ts[j + 1]
  }

  /** Every consecutive pair of parameters spans an interval whose chord the stopping test accepts. */
  predicate AcceptedChords(curve: real -> Point, ts: seq<real>, err: real) {
    forall j :: 0 <= j < |ts| - 1 ==> ChordAccepted(curve, ts[j], ts[j + 1], err)
  }

  /** Parameter `j` is `t0 + (t1 - t0) * ms[j] / 2^ds[j]`, within `[t0, t1]`, with `ds[j] <= depth`. */
  predicate DyadicIn(t0: real, t1: real, depth: nat, ts: seq<real>, ms: seq<nat>, ds: seq<nat>) {
    && |ms| == |ts| && |ds| == |ts|
    && forall j :: 0 <= j < |ts| ==>
         ms[j] <= Pow2(ds[j]) && ds[j] <= depth && ts[j] == DyadicParameter(t0, t1, ms[j], ds[j])
  }

  lemma GlueSampled(curve: real -> Point, left: seq<Point>, tl: seq<real>, right: seq<Point>, tr: seq<real>)
    requires |tl| >= 1 && SampledAt(curve, left, tl) && SampledAt(curve, right, tr)
    ensures SampledAt(curve, left[..|left| - 1] + right, tl[..|tl| - 1] + tr)
  {
    var n := |tl| - 1;
    var ps, ts := left[..n] + right, tl[..n] + tr;
    forall j | 0 <= j < |ts|
      ensures ps[j] == curve(ts[j])
    {
      if j >= n {
        assert ps[j] == right[j - n] && ts[j] == tr[j - n];
      }
    }
  }

  lemma GlueIncreasing(tl: seq<real>, tr: seq<real>)
    requires |tl| >= 1 && |tr| >= 1 && tl[|tl| - 1] == tr[0]
    requires StrictlyIncreasing(tl) && StrictlyIncreasing(tr)
    ensures StrictlyIncreasing(tl[..|tl| - 1] + tr)
  {
    var n := |tl| - 1;
    var ts := tl[..n] + tr;
    forall j | 0 <= j < |ts| - 1
      ensures ts[j] < ts[j + 1]
    {
      if j < n - 1 {
        assert ts[j] == tl[j] && ts[j + 1] == tl[j + 1];
      } else if j == n - 1 {
        assert ts[j] == tl[n - 1] && ts[j + 1] == tr[0];
      } else {
        assert ts[j] == tr[j - n] && ts[j + 1] == tr[j - n + 1];
      }
    }
  }

  lemma GlueAccepted(curve: real -> Point, tl: seq<real>, tr: seq<real>, err: real)
    requires |tl| >= 1 && |tr| >= 1 && tl[|tl| - 1] == tr[0]
    requires AcceptedChords(curve, tl, err) && AcceptedChords(curve, tr, err)
    ensures AcceptedChords(curve, tl[..|tl| - 1] + tr, err)
  {
    var n := |tl| - 1;
    var ts := tl[..n] + tr;
    forall j | 0 <= j < |ts| - 1
      ensures ChordAccepted(curve, ts[j], ts[j + 1], err)
    {
      if j < n - 1 {
        assert ts[j] == tl[j] && ts[j + 1] == tl[j + 1];
      } else if j == n - 1 {
        assert ts[j] == tl[n - 1] && ts[j + 1] == tr[0];
      } else {
        assert ts[j] == tr[j - n] && ts[j + 1] == tr[j - n + 1];
      }
    }
  }

  lemma GlueDyadic(t0: real, t1: real, depth: nat,
                   tl: seq<real>, ml: seq<nat>, dl: seq<nat>,
                   tr: seq<real>, mr: seq<nat>, dr: seq<nat>)
    returns (ms: seq<nat>, ds: seq<nat>)
    requires depth > 0 && |tl| >= 1
    requires DyadicIn(t0, Midpoint(t0, t1), depth - 1, tl, ml, dl)
    requires DyadicIn(Midpoint(t0, t1), t1, depth - 1, tr, mr, dr)
    ensures DyadicIn(t0, t1, depth, tl[..|tl| - 1] + tr, ms, ds)
  {
    var n := |tl| - 1;
    var ts := tl[..n] + tr;
    ms := ml[..n] + seq(|tr|, j requires 0 <= j < |tr| => Pow2(dr[j]) + mr[j]);
    ds := seq(n, j requires 0 <= j < n => dl[j] + 1) + seq(|tr|, j requires 0 <= j < |tr| => dr[j] + 1);
    forall j | 0 <= j < |ts|
      ensures ms[j] <= Pow2(ds[j]) && ds[j] <= depth && ts[j] == DyadicParameter(t0, t1, ms[j], ds[j])
    {
      if j < n {
        LeftHalfParameter(t0, t1, ml[j], dl[j]);
        assert ts[j] == tl[j] && ms[j] == ml[j] && ds[j] == dl[j] + 1;
      } else {
        var i := j - n;
        RightHalfParameter(t0, t1, mr[i], dr[i]);
        assert ts[j] == tr[i] && ms[j] == Pow2(dr[i]) + mr[i] && ds[j] == dr[i] + 1;
      }
    }
  }

  /**
   * `ts` are the parameters behind the points `ps` found for `[t0, t1]`:
   * point `j` is the curve evaluated at `ts[j]`; the parameters run strictly
   * upwards from `t0` to `t1`, so no parameter (in particular no shared
   * midpoint) is sampled twice; each is the dyadic point
   * `t0 + (t1 - t0) * ms[j] / 2^ds[j]` with `ds[j]` at most `depth`; and
   * every consecutive pair is an interval whose chord the stopping test
   * accepts.
   */
  predicate SamplesOf(curve: real -> Point, ps: seq<Point>, t0: real, t1: real, err: real, depth: nat,
                      ts: seq<real>, ms: seq<nat>, ds: seq<nat>) {
    && SampledAt(curve, ps, ts)
    && |ts| >= 2 && ts[0] == t0 && ts[|ts| - 1] == t1
    && StrictlyIncreasing(ts)
    && AcceptedChords(curve, ts, err)
    && DyadicIn(t0, t1, depth, ts, ms, ds)
  }

  /**
   * Every result of the bisection of `[t0, t1]` with `t0 < t1` has
   * parameters behind it as `SamplesOf` describes.
   */
  lemma {:induction false} SubdivideSamples(curve: real -> Point, t0: real, t1: real, err: real, depth: nat)
    returns (ts: seq<real>, ms: seq<nat>, ds: seq<nat>)
    requires t0 < t1
    requires Subdivide(curve, t0, t1, err, depth).Ok?
    ensures SamplesOf(curve, Subdivide(curve, t0, t1, err, depth).value, t0, t1, err, depth, ts, ms, ds)
    decreases depth
  {
    if ChordAccepted(curve, t0, t1, err) {
      ts, ms, ds := [t0, t1], [0, 1], [0, 0];
      assert Dyadic(0, 0) == 0.0 && Dyadic(1, 0) == 1.0;
    } else {
      var tm := Midpoint(t0, t1);
      var left := Subdivide(curve, t0, tm, err, depth - 1).value;
      var right := Subdivide(curve, tm, t1, err, depth - 1).value;
      BisectionStep(curve, t0, t1, err, depth);
      var tl, ml, dl := SubdivideSamples(curve, t0, tm, err, depth - 1);
      var tr, mr, dr := SubdivideSamples(curve, tm, t1, err, depth - 1);
      ts, ms, ds := GlueSamples(curve, t0, t1, err, depth, left, tl, ml, dl, right, tr, mr, dr);
    }
  }

  /** The inductive step of `SubdivideSamples`: the two halves' parameters, glued at the midpoint. */
  lemma GlueSamples(curve: real -> Point, t0: real, t1: real, err: real, depth: nat,
                    left: seq<Point>, tl: seq<real>, ml: seq<nat>, dl: seq<nat>,
                    right: seq<Point>, tr: seq<real>, mr: seq<nat>, dr: seq<nat>)
    returns (ts: seq<real>, ms: seq<nat>, ds: seq<nat>)
    requires depth > 0
    requires SamplesOf(curve, left, t0, Midpoint(t0, t1), err, depth - 1, tl, ml, dl)
    requires SamplesOf(curve, right, Midpoint(t0, t1), t1, err, depth - 1, tr, mr, dr)
    ensures SamplesOf(curve, left[..|left| - 1] + right, t0, t1, err, depth, ts, ms, ds)
  {
    ts := tl[..|tl| - 1] + tr;
    GlueSampled(curve, left, tl, right, tr);
    GlueIncreasing(tl, tr);
    GlueAccepted(curve, tl, tr, err);
    ms, ds := GlueDyadic(t0, t1, depth, tl, ml, dl, tr, mr, dr);
  }

  /** Once a depth bound suffices, every larger bound gives the same result. */
  lemma {:induction false} SubdivideDepthMonotone(curve: real -> Point, t0: real, t1: real, err: real, depth: nat, more: nat)
    requires Subdivide(curve, t0, t1, err, depth).Ok?
    requires depth <= more
    ensures Subdivide(curve, t0, t1, err, more) == Subdivide(curve, t0, t1, err, depth)
    decreases depth
  {
    if !ChordAccepted(curve, t0, t1, err) {
      var tm := Midpoint(t0, t1);
      SubdivideDepthMonotone(curve, t0, tm, err, depth - 1, more - 1);
      SubdivideDepthMonotone(curve, tm, t1, err, depth - 1, more - 1);
      BisectionStep(curve, t0, t1, err, depth);
      BisectionStep(curve, t0, t1, err, more);
    }
  }

  /** An interval whose chord is rejected is split at its midpoint and the two halves' results combined. */
  lemma BisectionStep(curve: real -> Point, t0: real, t1: real, err: real, depth: nat)
    requires !ChordAccepted(curve, t0, t1, err) && depth > 0
    ensures var tm := Midpoint(t0, t1);
      var left, right := Subdivide(curve, t0, tm, err, depth - 1), Subdivide(curve, tm, t1, err, depth - 1);
      Subdivide(curve, t0, t1, err, depth)
      == if left.Err? then left else if right.Err? then right else Ok(left.value[..|left.value| - 1] + right.value)
  {
  }

  lemma MulMonotone(a: real, b: real, c: real)
    requires a <= b && c >= 0.0
    ensures a * c <= b * c
  {
  }

  /** A chord accepted under a tolerance is accepted under every larger tolerance. */
  lemma AcceptedUnderLargerTolerance(curve: real -> Point, t0: real, t1: real, err: real, larger: real)
    requires err <= larger
    requires ChordAccepted(curve, t0, t1, err)
    ensures ChordAccepted(curve, t0, t1, larger)
  {
    var p0, p1, p2 := curve(t0), curve(Midpoint(t0, t1)), curve(t1);
    var chord := Sub(p2, p0);
    if Norm2(chord) != 0.0 {
      SquarePositive(chord.x);
      SquarePositive(chord.y);
      SquareMonotone(err, larger);
      MulMonotone(Sq(err), Sq(larger), Norm2(chord));
    }
  }

  /**
   * Raising the tolerance never adds points: a result under `err` implies
   * a result under any `larger` tolerance, with at most as many points.
   */
  lemma {:induction false} SubdivideToleranceMonotone(curve: real -> Point, t0: real, t1: real, err: real, larger: real, depth: nat)
    requires err <= larger
    requires Subdivide(curve, t0, t1, err, depth).Ok?
    ensures Subdivide(curve, t0, t1, larger, depth).Ok?
    ensures |Subdivide(curve, t0, t1, larger, depth).value| <= |Subdivide(curve, t0, t1, err, depth).value|
    decreases depth
  {
    if ChordAccepted(curve, t0, t1, err) {
      AcceptedUnderLargerTolerance(curve, t0, t1, err, larger);
    } else if !ChordAccepted(curve, t0, t1, larger) {
      var tm := Midpoint(t0, t1);
      SubdivideToleranceMonotone(curve, t0, tm, err, larger, depth - 1);
      SubdivideToleranceMonotone(curve, tm, t1, err, larger, depth - 1);
    }
  }

  /** The midpoint of a line lies on every chord of it, so a line is never bisected. */
  lemma LineIsNotSubdivided(a: Point, b: Point, maxError: real, depth: nat)
    requires maxError >= 0.0
    ensures AdaptiveSegment(Line(a, b), maxError, depth) == Ok([a, b])
  {
    var curve := Curve(Line(a, b));
    var u := Sub(b, a);
    assert curve(0.0) == a && curve(1.0) == b;
    assert curve(Midpoint(0.0, 1.0)) == Point(a.x + 0.5 * u.x, a.y + 0.5 * u.y);
    LineChordAccepted(a, u, maxError);
    assert ChordAccepted(curve, 0.0, 1.0, maxError);
  }

  lemma LineChordAccepted(a: Point, u: Point, maxError: real)
    requires maxError >= 0.0
    ensures var p0, p1, p2 := a, Point(a.x + 0.5 * u.x, a.y + 0.5 * u.y), Point(a.x + u.x, a.y + u.y);
      var chord := Sub(p2, p0);
      Norm2(chord) == 0.0 || Sq(Cross(chord, Sub(p1, p0))) <= Sq(maxError) * Norm2(chord)
  {
    var p1, p2 := Point(a.x + 0.5 * u.x, a.y + 0.5 * u.y), Point(a.x + u.x, a.y + u.y);
    assert Sub(p2, a) == u;
    assert Sub(p1, a) == Point(0.5 * u.x, 0.5 * u.y);
    assert Cross(u, Point(0.5 * u.x, 0.5 * u.y)) == 0.0;
    assert Sq(0.0) == 0.0;
    SquarePositive(maxError);
    SquarePositive(u.x);
    SquarePositive(u.y);
    MulMonotone(0.0, Sq(maxError), Norm2(u));
  }
}
