/**
 * The fixed-step flattener: every segment of a path is sampled at the
 * parameters `i / steps` for `i` in `range(steps + 1)`, and all samples are
 * concatenated in order, without removing the point that adjacent segments
 * share.
 */
module FixedFlattener {
  import opened Geometry

  /** The number of values `range(n)` produces. */
  function RangeLength(n: int): nat {
    if n > 0 then n else 0
  }

  /** Sample `i` of a segment: `seg.point(i / steps)` with true division. */
  function Sample(seg: Segment, steps: int, i: int): Point
    requires steps != 0
  {
    PointAt(seg, (i as real) / (steps as real))
  }

  /** The samples of one segment, in the order the inner loop appends them. */
  function SegmentSamples(seg: Segment, steps: int): seq<Point>
    requires steps != 0
  {
    seq(RangeLength(steps + 1), i => Sample(seg, steps, i))
  }

  /**
   * The points the fixed flattener collects for `path`. A path without
   * segments needs no division, so it is defined for every step count.
   */
  function FixedPoints(path: seq<Segment>, steps: int): seq<Point>
    requires steps != 0 || |path| == 0
  {
    if |path| == 0 then []
    else FixedPoints(path[..|path| - 1], steps) + SegmentSamples(path[|path| - 1], steps)
  }

  /**
   * What `approximate_path_fixed(path, steps)` returns or raises: with
   * `steps == 0` the first sample computes `0 / 0`, which raises before any
   * point is produced; a negative step count leaves every inner range empty.
   */
  function FixedFlatten(path: seq<Segment>, steps: int): (r: Result<seq<Point>>)
    ensures r.Err? ==> r.error == DivisionByZero && steps == 0
    ensures r.Ok? ==> |r.value| == |path| * RangeLength(steps + 1)
  {
    if steps == 0 && |path| > 0 then Err(DivisionByZero)
    else FixedPointsLength(path, steps); Ok(FixedPoints(path, steps))
  }

  /** The loop of `approximate_path_fixed`: one inner loop per segment, appending one sample per step. */
  method ApproximatePathFixed(path: seq<Segment>, steps: int) returns (r: Result<seq<Point>>)
    ensures r == FixedFlatten(path, steps)
  {
    var pts: seq<Point> := [];
    for k := 0 to |path|
      invariant steps == 0 ==> k == 0 && pts == []
      invariant steps != 0 ==> pts == FixedPoints(path[..k], steps)
    {
      var seg := path[k];
      for i := 0 to RangeLength(steps + 1)
        invariant steps == 0 ==> i == 0
        invariant steps != 0 ==> pts == FixedPoints(path[..k], steps) + SegmentSamples(seg, steps)[..i]
      {
        if steps == 0 {
          return Err(DivisionByZero);
        }
        var t := (i as real) / (steps as real);
        pts := pts + [PointAt(seg, t)];
      }
      assert path[..k + 1][..k] == path[..k];
    }
    assert path[..|path|] == path;
    return Ok(pts);
  }

  /** Every segment contributes exactly `steps + 1` points (none when `steps < 0`). */
  lemma {:induction false} FixedPointsLength(path: seq<Segment>, steps: int)
    requires steps != 0 || |path| == 0
    ensures |FixedPoints(path, steps)| == |path| * RangeLength(steps + 1)
  {
    if |path| > 0 {
      FixedPointsLength(path[..|path| - 1], steps);
      assert |path| * RangeLength(steps + 1)
          == (|path| - 1) * RangeLength(steps + 1) + RangeLength(steps + 1);
    }
  }

  /** Point `k * (steps + 1) + i` of the result is segment `k` evaluated at `i / steps`. */
  lemma {:induction false} FixedPointsAt(path: seq<Segment>, steps: int, k: int, i: int)
    requires steps > 0
    requires 0 <= k < |path| && 0 <= i <= steps
    ensures k * (steps + 1) + i < |FixedPoints(path, steps)|
    ensures FixedPoints(path, steps)[k * (steps + 1) + i] == PointAt(path[k], (i as real) / (steps as real))
  {
    var n := |path|;
    var m := steps + 1;
    var init := path[..n - 1];
    var front := FixedPoints(init, steps);
    var block := SegmentSamples(path[n - 1], steps);
    assert FixedPoints(path, steps) == front + block;
    FixedPointsLength(init, steps);
    assert |front| == (n - 1) * m && |block| == m;
    if k < n - 1 {
      assert init[k] == path[k];
      FixedPointsAt(init, steps, k, i);
      BlockBefore(k, i, m, n - 1);
    } else {
      assert block[i] == Sample(path[n - 1], steps, i);
    }
  }

  /** Position `i` of block `k` of width `m` comes before block `n` when `k < n`. */
  lemma BlockBefore(k: int, i: int, m: int, n: int)
    requires 0 <= k < n && 0 <= i < m
    ensures k * m + i < n * m
  {
    assert (k + 1) * m <= n * m;
  }

  /**
   * With at least one step, each segment's block of samples begins with the
   * segment's start (`t = 0`) and ends with its end (`t = 1`).
   */
  lemma SegmentEndpointsSampled(path: seq<Segment>, steps: int, k: int)
    requires steps > 0 && 0 <= k < |path|
    ensures k * (steps + 1) + steps < |FixedPoints(path, steps)|
    ensures FixedPoints(path, steps)[k * (steps + 1)] == PointAt(path[k], 0.0)
    ensures FixedPoints(path, steps)[k * (steps + 1) + steps] == PointAt(path[k], 1.0)
  {
    FixedPointsAt(path, steps, k, 0);
    FixedPointsAt(path, steps, k, steps);
    DivideBySelf(steps as real);
  }

  /** A single line from (0,0) to (10,0) with one step flattens to its two endpoints. */
  lemma OneStepLine()
    ensures FixedFlatten([Line(Point(0.0, 0.0), Point(10.0, 0.0))], 1)
         == Ok([Point(0.0, 0.0), Point(10.0, 0.0)])
  {
    var path := [Line(Point(0.0, 0.0), Point(10.0, 0.0))];
    assert path[..0] == [];
    var s := SegmentSamples(path[0], 1);
    assert |s| == 2;
    assert s[0] == Sample(path[0], 1, 0) == PointAt(path[0], 0.0);
    assert s[1] == Sample(path[0], 1, 1) == PointAt(path[0], 1.0);
    DivideBySelf(1.0);
    LineEndpoints(Point(0.0, 0.0), Point(10.0, 0.0));
    assert s == [Point(0.0, 0.0), Point(10.0, 0.0)];
    assert FixedPoints(path[..0], 1) == [];
    assert FixedPoints(path, 1) == FixedPoints(path[..0], 1) + s;
    assert FixedPoints(path, 1) == s;
    assert FixedFlatten(path, 1) == Ok(s);
  }
}
