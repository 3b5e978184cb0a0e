/**
 * The path assembler of the adaptive method. The intended behaviour: the
 * point lists of a path's segments are concatenated into one polygon, and
 * the first point of a segment is dropped when it lies within `1e-12` in both
 * coordinates of the last point collected so far (`AdaptiveFlatten`). As
 * written, the join test subscripts a complex number and raises `TypeError`
 * from the second segment on (`AdaptiveFlattenAsWritten`).
 */
module PathAssembler {
  import opened Geometry
  import opened AdaptiveFlattener

  /** The absolute per-coordinate tolerance `1e-12` of the join test. */
  const JoinTolerance: real := 0.000000000001

  function Last(ps: seq<Point>): Point
    requires |ps| > 0
  {
    ps[|ps| - 1]
  }

  /** Both coordinates differ by strictly less than the join tolerance. */
  predicate NearlyEqual(p: Point, q: Point) {
    Abs(p.x - q.x) < JoinTolerance && Abs(p.y - q.y) < JoinTolerance
  }

  /** One step of the loop: append `next` to `pts`, eliding its first point when it repeats the join. */
  function Join(pts: seq<Point>, next: seq<Point>): seq<Point>
    requires |pts| > 0 ==> |next| > 0
  {
    if |pts| == 0 then next
    else if NearlyEqual(Last(pts), next[0]) then pts + next[1..]
    else pts + next
  }

  /** Every list holds at least two points, as every adaptive flattening does. */
  predicate AllSampled(lists: seq<seq<Point>>) {
    forall k :: 0 <= k < |lists| ==> |lists[k]| >= 2
  }

  /** The polygon assembled from per-segment point lists, folded left to right. */
  function Assemble(lists: seq<seq<Point>>): seq<Point>
    requires AllNonEmpty(lists)
  {
    if |lists| == 0 then []
    else Join(Assemble(lists[..|lists| - 1]), lists[|lists| - 1])
  }

  /** Whether the join before list `k` is elided: its first point repeats the previous list's last. */
  predicate JoinElided(lists: seq<seq<Point>>, k: int)
    requires AllNonEmpty(lists) && 0 < k < |lists|
  {
    NearlyEqual(Last(lists[k - 1]), lists[k][0])
  }

  /** The number of joins the assembler elides. */
  function ElidedJoins(lists: seq<seq<Point>>): nat
    requires AllNonEmpty(lists)
  {
    if |lists| <= 1 then 0
    else ElidedJoins(lists[..|lists| - 1]) + (if JoinElided(lists, |lists| - 1) then 1 else 0)
  }

  function TotalLength(lists: seq<seq<Point>>): nat {
    if |lists| == 0 then 0 else TotalLength(lists[..|lists| - 1]) + |lists[|lists| - 1]|
  }

  /**
   * The point lists of all segments of a path, or the error of the first
   * segment whose bisection exceeds the depth bound.
   */
  function SegmentPointLists(path: seq<Segment>, maxError: real, depth: nat): (r: Result<seq<seq<Point>>>)
    ensures r.Ok? <==> forall k :: 0 <= k < |path| ==> AdaptiveSegment(path[k], maxError, depth).Ok?
    ensures r.Ok? ==> |r.value| == |path|
    ensures r.Ok? ==> forall k :: 0 <= k < |path| ==> AdaptiveSegment(path[k], maxError, depth) == Ok(r.value[k])
    ensures r.Err? ==> r.error == RecursionLimit
  {
    if |path| == 0 then Ok([])
    else
      var init := path[..|path| - 1];
      var front := SegmentPointLists(init, maxError, depth);
      var last := AdaptiveSegment(path[|path| - 1], maxError, depth);
      assert forall k :: 0 <= k < |path| - 1 ==> path[k] == init[k];
      if front.Err? then front
      else if last.Err? then Err(last.error)
      else Ok(front.value + [last.value])
  }

  /**
   * The polygon `approximate_path_adaptive(path, max_error)` evidently means
   * to build, once the points collected so far are `(x, y)` pairs: the
   * segments' point lists folded left to right with `Join`, or the first
   * segment's bisection error.
   */
  function AdaptiveFlatten(path: seq<Segment>, maxError: real, depth: nat): (r: Result<seq<Point>>)
    ensures r.Ok? <==> forall k :: 0 <= k < |path| ==> AdaptiveSegment(path[k], maxError, depth).Ok?
    ensures r.Err? ==> r.error == RecursionLimit
    ensures r.Ok? && |path| > 0 ==> |r.value| >= |path| + 1
  {
    match SegmentPointLists(path, maxError, depth)
    case Err(e) => Err(e)
    case Ok(lists) =>
      if |lists| > 0 then AssembleShape(lists); Ok(Assemble(lists))
      else Ok(Assemble(lists))
  }

  /**
   * What `approximate_path_adaptive(path, max_error)` does as written. The
   * points of a segment come back from the bisection as complex numbers, and
   * those of the first segment are stored in `pts` unchanged; for the second
   * segment the join test reads `pts[-1][0]`, subscripting a complex number,
   * which raises `TypeError`. So a path of one segment gives that segment's
   * points, and a path of two or more segments fails: with the first or the
   * second segment's bisection error, or else with `TypeError`.
   */
  function AdaptiveFlattenAsWritten(path: seq<Segment>, maxError: real, depth: nat): (r: Result<seq<Point>>)
    ensures |path| <= 1 ==> r == AdaptiveFlatten(path, maxError, depth)
    ensures |path| >= 2 ==> r.Err?
    ensures r.Err? ==>
      (r.error == TypeError <==>
        |path| >= 2 && AdaptiveSegment(path[0], maxError, depth).Ok? && AdaptiveSegment(path[1], maxError, depth).Ok?)
  {
    if |path| == 0 then Ok([])
    else
      var first := AdaptiveSegment(path[0], maxError, depth);
      if first.Err? then
        if |path| == 1 then OneSegmentFlatten(path, maxError, depth); Err(first.error)
        else Err(first.error)
      else if |path| == 1 then OneSegmentFlatten(path, maxError, depth); Ok(first.value)
      else
        var second := AdaptiveSegment(path[1], maxError, depth);
        if second.Err? then Err(second.error) else Err(TypeError)
  }

  /** A path of one segment is flattened to that segment's points. */
  lemma OneSegmentFlatten(path: seq<Segment>, maxError: real, depth: nat)
    requires |path| == 1
    ensures AdaptiveFlatten(path, maxError, depth) == AdaptiveSegment(path[0], maxError, depth)
  {
    assert path[..0] == [];
    var seg := AdaptiveSegment(path[0], maxError, depth);
    if seg.Ok? {
      var lists := [seg.value];
      assert SegmentPointLists(path, maxError, depth) == Ok([] + [seg.value]);
      assert lists[..0] == [];
      assert Assemble(lists) == Join([], seg.value);
    }
  }

  /**
   * The loop of `approximate_path_adaptive` as written: the first segment's
   * points are stored, and the join test for the second segment raises.
   */
  method ApproximatePathAdaptive(path: seq<Segment>, maxError: real, depth: nat) returns (r: Result<seq<Point>>)
    ensures r == AdaptiveFlattenAsWritten(path, maxError, depth)
  {
    var pts: seq<Point> := [];
    for i := 0 to |path|
      invariant i <= 1
      invariant i == 0 ==> pts == []
      invariant i == 1 ==> AdaptiveSegment(path[0], maxError, depth) == Ok(pts)
    {
      var segPoints := AdaptiveSegment(path[i], maxError, depth);
      if segPoints.Err? {
        return Err(segPoints.error);
      }
      if |pts| == 0 {
        pts := pts + segPoints.value;
        assert pts == segPoints.value;
      } else {
        // `pts[-1]` is a complex number, and subscripting it raises
        return Err(TypeError);
      }
    }
    return Ok(pts);
  }

  /**
   * The same loop as evidently intended, with `pts` holding `(x, y)` pairs:
   * it extends `pts` segment by segment, looking back at `pts[-1]`.
   */
  method ApproximatePathAdaptiveCorrected(path: seq<Segment>, maxError: real, depth: nat) returns (r: Result<seq<Point>>)
    ensures r == AdaptiveFlatten(path, maxError, depth)
  {
    var pts: seq<Point> := [];
    ghost var lists: seq<seq<Point>> := [];
    for i := 0 to |path|
      invariant SegmentPointLists(path[..i], maxError, depth) == Ok(lists)
      invariant AllNonEmpty(lists) && pts == Assemble(lists)
    {
      var segPoints := AdaptiveSegment(path[i], maxError, depth);
      PointListsStep(path, i, maxError, depth);
      if segPoints.Err? {
        FirstErrorIsFinal(path, i, maxError, depth);
        return Err(segPoints.error);
      }
      var sp := segPoints.value;
      JoinAppend(lists, sp);
      pts := ExtendPoints(pts, sp);
      lists := lists + [sp];
    }
    assert path[..|path|] == path;
    return Ok(pts);
  }

  /** The two lines from (0, 0) to (1, 0) and from (1, 0) to (2, 0). */
  function TwoLines(): seq<Segment> {
    [Line(Point(0.0, 0.0), Point(1.0, 0.0)), Line(Point(1.0, 0.0), Point(2.0, 0.0))]
  }

  /** As written, flattening the two lines with the adaptive method raises `TypeError`. */
  lemma TwoLinesRaise(depth: nat)
    ensures AdaptiveFlattenAsWritten(TwoLines(), 0.01, depth) == Err(TypeError)
  {
    var a, b, c := Point(0.0, 0.0), Point(1.0, 0.0), Point(2.0, 0.0);
    LineIsNotSubdivided(a, b, 0.01, depth);
    LineIsNotSubdivided(b, c, 0.01, depth);
  }

  /** The intended flattening of the two lines is the three points, with the shared one once. */
  lemma TwoLinesJoined(depth: nat)
    ensures AdaptiveFlatten(TwoLines(), 0.01, depth) == Ok([Point(0.0, 0.0), Point(1.0, 0.0), Point(2.0, 0.0)])
  {
    LinesJoined(Point(0.0, 0.0), Point(1.0, 0.0), Point(2.0, 0.0), 0.01, depth);
  }

  /** Two lines meeting at `b` are flattened, as intended, to their three endpoints with `b` once. */
  lemma LinesJoined(a: Point, b: Point, c: Point, maxError: real, depth: nat)
    requires maxError >= 0.0
    ensures AdaptiveFlatten([Line(a, b), Line(b, c)], maxError, depth) == Ok([a, b, c])
  {
    LineIsNotSubdivided(a, b, maxError, depth);
    LineIsNotSubdivided(b, c, maxError, depth);
    TwoSegmentFlatten([Line(a, b), Line(b, c)], maxError, depth, [a, b], [b, c]);
    SharedEndpointOnce([a, b], [b, c]);
    assert [a, b] + [b, c][1..] == [a, b, c];
  }

  /** A path of two segments whose bisections give `l0` and `l1` is flattened to the fold of the two lists. */
  lemma TwoSegmentFlatten(path: seq<Segment>, maxError: real, depth: nat, l0: seq<Point>, l1: seq<Point>)
    requires |path| == 2
    requires AdaptiveSegment(path[0], maxError, depth) == Ok(l0)
    requires AdaptiveSegment(path[1], maxError, depth) == Ok(l1)
    ensures AdaptiveFlatten(path, maxError, depth) == Ok(Assemble([l0, l1]))
  {
    assert path[..1][..0] == [] && path[..1] == [path[0]];
    assert [] + [l0] == [l0];
    assert SegmentPointLists(path[..1], maxError, depth) == Ok([l0]);
    assert [l0] + [l1] == [l0, l1];
    assert SegmentPointLists(path, maxError, depth) == Ok([l0, l1]);
  }

  /** The body of the corrected loop for one segment's points `sp`: skip `sp[0]` when it repeats `pts[-1]`. */
  method ExtendPoints(pts: seq<Point>, sp: seq<Point>) returns (r: seq<Point>)
    requires |sp| > 0
    ensures r == Join(pts, sp)
  {
    if |pts| == 0 {
      r := pts + sp;
    } else if Abs(pts[|pts| - 1].x - sp[0].x) < JoinTolerance && Abs(pts[|pts| - 1].y - sp[0].y) < JoinTolerance {
      r := pts + sp[1..];
    } else {
      r := pts + sp;
    }
  }

  /** The point lists of one more segment: those of the segments before it, then its own, unless it fails. */
  lemma PointListsStep(path: seq<Segment>, i: int, maxError: real, depth: nat)
    requires 0 <= i < |path| && SegmentPointLists(path[..i], maxError, depth).Ok?
    ensures var seg := AdaptiveSegment(path[i], maxError, depth);
      SegmentPointLists(path[..i + 1], maxError, depth)
      == if seg.Err? then Err(seg.error) else Ok(SegmentPointLists(path[..i], maxError, depth).value + [seg.value])
  {
    assert path[..i + 1][..i] == path[..i];
  }

  /** A segment whose bisection fails makes the whole path fail with the same error. */
  lemma FirstErrorIsFinal(path: seq<Segment>, i: int, maxError: real, depth: nat)
    requires 0 <= i < |path| && AdaptiveSegment(path[i], maxError, depth).Err?
    ensures SegmentPointLists(path, maxError, depth) == Err(AdaptiveSegment(path[i], maxError, depth).error)
  {
  }

  /** Folding one more list into the polygon is one `Join`. */
  lemma JoinAppend(lists: seq<seq<Point>>, next: seq<Point>)
    requires AllNonEmpty(lists) && |next| > 0
    ensures AllNonEmpty(lists + [next])
    ensures Assemble(lists + [next]) == Join(Assemble(lists), next)
  {
    assert (lists + [next])[..|lists|] == lists;
  }

  /**
   * Appending list `k` to the polygon of the lists before it: its first
   * point is dropped exactly when the join is elided, and all of it is
   * appended otherwise; the first list is appended whole.
   */
  lemma AssembleStep(lists: seq<seq<Point>>, k: int)
    requires AllSampled(lists) && 0 <= k < |lists|
    ensures AllNonEmpty(lists[..k]) && AllNonEmpty(lists[..k + 1])
    ensures Assemble(lists[..k + 1]) ==
      if k == 0 then lists[0]
      else if JoinElided(lists, k) then Assemble(lists[..k]) + lists[k][1..]
      else Assemble(lists[..k]) + lists[k]
  {
    var pre := lists[..k + 1];
    assert pre[..k] == lists[..k];
    if k > 0 {
      AssembleShape(lists[..k]);
    }
  }

  /**
   * With every list holding at least two points, the polygon starts with the
   * first list's first point and ends with the last list's last point, and
   * its length is the total length minus the number of elided joins; so it
   * is non-empty, indeed has at least `|lists| + 1` points, as soon as there
   * is one list.
   */
  lemma {:induction false} AssembleShape(lists: seq<seq<Point>>)
    requires AllSampled(lists) && |lists| > 0
    ensures |Assemble(lists)| == TotalLength(lists) - ElidedJoins(lists)
    ensures |Assemble(lists)| >= |lists| + 1
    ensures Assemble(lists)[0] == lists[0][0]
    ensures Last(Assemble(lists)) == Last(lists[|lists| - 1])
  {
    var n := |lists|;
    if n == 1 {
      assert lists[..0] == [];
    } else {
      var init := lists[..n - 1];
      assert forall k :: 0 <= k < n - 1 ==> init[k] == lists[k];
      AssembleShape(init);
      assert init[..n - 2] == lists[..n - 2];
      assert ElidedJoins(lists) == ElidedJoins(init) + (if JoinElided(lists, n - 1) then 1 else 0);
      assert Last(init[n - 2]) == Last(lists[n - 2]);
    }
  }

  /** The polygon of the first `k` lists is a prefix of the whole polygon. */
  lemma {:induction false} AssemblePrefix(lists: seq<seq<Point>>, k: int)
    requires AllNonEmpty(lists) && 0 <= k <= |lists|
    ensures AllNonEmpty(lists[..k])
    ensures |Assemble(lists[..k])| <= |Assemble(lists)|
    ensures Assemble(lists[..k]) == Assemble(lists)[..|Assemble(lists[..k])|]
    decreases |lists| - k
  {
    if k < |lists| {
      var n := |lists|;
      var init := lists[..n - 1];
      assert init[..k] == lists[..k];
      AssemblePrefix(init, k);
    } else {
      assert lists[..k] == lists;
    }
  }

  /** Two lists that share an endpoint exactly are joined with that point once. */
  lemma SharedEndpointOnce(a: seq<Point>, b: seq<Point>)
    requires |a| >= 2 && |b| >= 2 && Last(a) == b[0]
    ensures Assemble([a, b]) == a + b[1..]
    ensures |Assemble([a, b])| == |a| + |b| - 1
  {
    assert [a, b][..1] == [a];
    assert [a][..0] == [];
    assert Assemble([a]) == a;
    assert Abs(Last(a).x - b[0].x) == 0.0 && Abs(Last(a).y - b[0].y) == 0.0;
    assert NearlyEqual(Last(a), b[0]);
  }

  /** The flattened path, when every segment's bisection fits the depth bound. */
  lemma AdaptiveFlattenShape(path: seq<Segment>, maxError: real, depth: nat)
    requires AdaptiveFlatten(path, maxError, depth).Ok? && |path| > 0
    ensures |AdaptiveFlatten(path, maxError, depth).value| >= |path| + 1
    ensures AdaptiveFlatten(path, maxError, depth).value[0] == PointAt(path[0], 0.0)
    ensures Last(AdaptiveFlatten(path, maxError, depth).value) == PointAt(path[|path| - 1], 1.0)
  {
    var lists := SegmentPointLists(path, maxError, depth).value;
    assert AllSampled(lists);
    AssembleShape(lists);
  }
}
