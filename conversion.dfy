/**
 * `convert_svg_string_to_gds` once the SVG text has been parsed into paths:
 * every path is flattened with the chosen method, point lists that come out
 * empty are dropped, and the remaining polygons are moved so that the centre
 * of their bounding box is the origin, scaled, optionally mirrored in y, and
 * handed to the GDSII writer as layer-0 polygons of a single cell.
 */
module Conversion {
  import opened Geometry
  import opened FixedFlattener
  import opened AdaptiveFlattener
  import opened PathAssembler
  import opened BoundingBox
  import opened Transform

  /**
   * The keyword arguments of the conversion: `method` (named `approximation`
   * here, as `method` is a keyword), `steps`, `max_error`, `desired_width_um`
   * (`None` for no scaling) and `flip_y`.
   */
  datatype Options = Options(approximation: string, steps: int, maxError: real, desiredWidth: Option<real>, flipY: bool)

  /** The name given to the GDSII library. */
  const LibraryName: string := "MY_SVG_CONVERT"

  /** The name of the one cell that receives every polygon. */
  const CellName: string := "SVG_CELL"

  /** A polygon as added to the cell: its points and its layer. */
  datatype GdsPolygon = GdsPolygon(points: seq<Point>, layer: nat)

  /**
   * What a conversion that raises nothing produces: either nothing at all,
   * because no path yielded a point, or one library holding one cell with
   * the transformed polygons, which is then written to the output file.
   */
  datatype Outcome =
    | NoGeometry
    | Written(library: string, cell: string, polygons: seq<GdsPolygon>)

  /** The keyword defaults of `convert_svg_string_to_gds`: fixed sampling with 1000 steps, tolerance 0.01, no scaling, y mirrored. */
  const DefaultOptions: Options := Options("fixed", 1000, 0.01, None, true)

  /**
   * The point list of one path under the chosen method, as svg2gds.py
   * computes it; `depth` bounds the adaptive bisection. Any other method
   * name raises.
   */
  function PathPolygon(path: seq<Segment>, opts: Options, depth: nat): (r: Result<seq<Point>>)
    ensures r.Ok? && opts.approximation == "fixed" ==> |r.value| == |path| * RangeLength(opts.steps + 1)
    ensures r.Ok? && opts.approximation == "adaptive" ==> |path| <= 1 && (|path| == 1 ==> |r.value| >= 2)
    ensures r.Err? ==> (r.error == UnknownMethod <==> opts.approximation != "fixed" && opts.approximation != "adaptive")
  {
    if opts.approximation == "fixed" then FixedFlatten(path, opts.steps)
    else if opts.approximation == "adaptive" then AdaptiveFlattenAsWritten(path, opts.maxError, depth)
    else Err(UnknownMethod)
  }

  /** The point list of one path with the adaptive joins as intended (see `ApproximatePathAdaptiveCorrected`). */
  function IntendedPathPolygon(path: seq<Segment>, opts: Options, depth: nat): (r: Result<seq<Point>>)
    ensures opts.approximation != "adaptive" || |path| <= 1 ==> r == PathPolygon(path, opts, depth)
    ensures r.Ok? && opts.approximation == "adaptive" && |path| > 0 ==> |r.value| >= |path| + 1
  {
    if opts.approximation == "fixed" then FixedFlatten(path, opts.steps)
    else if opts.approximation == "adaptive" then AdaptiveFlatten(path, opts.maxError, depth)
    else Err(UnknownMethod)
  }

  /**
   * Flattening one path fails exactly when the method is unknown, when the
   * fixed method meets a segment with zero steps, or when the adaptive
   * method meets a path of two or more segments or a segment whose
   * bisection exceeds the depth bound. An adaptive path fails with
   * `TypeError` exactly when it has two or more segments and the first
   * two are bisected within the bound.
   */
  lemma PathPolygonFails(path: seq<Segment>, opts: Options, depth: nat)
    ensures PathPolygon(path, opts, depth).Err? <==>
      || (opts.approximation != "fixed" && opts.approximation != "adaptive")
      || (opts.approximation == "fixed" && opts.steps == 0 && |path| > 0)
      || (opts.approximation == "adaptive" && |path| >= 2)
      || (opts.approximation == "adaptive" && exists k :: 0 <= k < |path| && AdaptiveSegment(path[k], opts.maxError, depth).Err?)
    ensures PathPolygon(path, opts, depth).Err? && opts.approximation == "fixed" ==> PathPolygon(path, opts, depth).error == DivisionByZero
    ensures var r := PathPolygon(path, opts, depth);
      r.Err? && opts.approximation == "adaptive" ==>
        && (r.error == RecursionLimit || r.error == TypeError)
        && (r.error == TypeError <==>
              |path| >= 2 && AdaptiveSegment(path[0], opts.maxError, depth).Ok? && AdaptiveSegment(path[1], opts.maxError, depth).Ok?)
  {
    if opts.approximation == "adaptive" && |path| == 1 {
      var r := AdaptiveFlatten(path, opts.maxError, depth);
      assert r.Ok? <==> forall k :: 0 <= k < |path| ==> AdaptiveSegment(path[k], opts.maxError, depth).Ok?;
    }
  }

  /**
   * With the intended joins, flattening one path fails exactly when the
   * method is unknown, when the fixed method meets a segment with zero
   * steps, or when the adaptive method meets a segment whose bisection
   * exceeds the depth bound.
   */
  lemma IntendedPathPolygonFails(path: seq<Segment>, opts: Options, depth: nat)
    ensures IntendedPathPolygon(path, opts, depth).Err? <==>
      || (opts.approximation != "fixed" && opts.approximation != "adaptive")
      || (opts.approximation == "fixed" && opts.steps == 0 && |path| > 0)
      || (opts.approximation == "adaptive" && exists k :: 0 <= k < |path| && AdaptiveSegment(path[k], opts.maxError, depth).Err?)
    ensures IntendedPathPolygon(path, opts, depth).Err? && opts.approximation == "adaptive" ==> IntendedPathPolygon(path, opts, depth).error == RecursionLimit
  {
  }

  /** The point lists (or errors) of all paths, in order. */
  function Flattened(paths: seq<seq<Segment>>, opts: Options, depth: nat): seq<Result<seq<Point>>> {
    seq(|paths|, k requires 0 <= k < |paths| => PathPolygon(paths[k], opts, depth))
  }

  /** The same with the intended adaptive joins. */
  function IntendedFlattened(paths: seq<seq<Segment>>, opts: Options, depth: nat): seq<Result<seq<Point>>> {
    seq(|paths|, k requires 0 <= k < |paths| => IntendedPathPolygon(paths[k], opts, depth))
  }

  /**
   * The polygons kept by the loop of lines 91-101 of svg2gds.py from the
   * paths' point lists `results`, in order: the non-empty ones. The first
   * path that raises ends the loop with its error.
   */
  function KeptPolygons(results: seq<Result<seq<Point>>>): (r: Result<seq<seq<Point>>>)
    ensures r.Ok? <==> forall k :: 0 <= k < |results| ==> results[k].Ok?
    ensures r.Ok? ==> AllNonEmpty(r.value) && |r.value| <= |results|
    ensures r.Ok? ==> (|r.value| == 0 <==> forall k :: 0 <= k < |results| ==> |results[k].value| == 0)
    ensures r.Err? ==>
      exists k :: && 0 <= k < |results|
                  && results[k] == Err(r.error)
                  && forall j :: 0 <= j < k ==> results[j].Ok?
  {
    if |results| == 0 then Ok([])
    else
      var n := |results|;
      var init := results[..n - 1];
      assert forall k :: 0 <= k < n - 1 ==> init[k] == results[k];
      var front := KeptPolygons(init);
      if front.Err? then front
      else
        var last := results[n - 1];
        if last.Err? then Err(last.error)
        else if |last.value| > 0 then Ok(front.value + [last.value])
        else front
  }

  /** The loop of lines 91-101: flatten every path with the chosen method and keep the non-empty results. */
  method CollectPolygons(paths: seq<seq<Segment>>, opts: Options, depth: nat) returns (r: Result<seq<seq<Point>>>)
    ensures r == KeptPolygons(Flattened(paths, opts, depth))
  {
    ghost var results := Flattened(paths, opts, depth);
    var all: seq<seq<Point>> := [];
    for k := 0 to |paths|
      invariant KeptPolygons(results[..k]) == Ok(all)
    {
      var polygon: Result<seq<Point>>;
      if opts.approximation == "fixed" {
        polygon := ApproximatePathFixed(paths[k], opts.steps);
      } else if opts.approximation == "adaptive" {
        polygon := ApproximatePathAdaptive(paths[k], opts.maxError, depth);
      } else {
        polygon := Err(UnknownMethod);
      }
      assert polygon == results[k];
      KeepOneMore(results, k);
      if polygon.Err? {
        FirstFailure(results, k);
        return Err(polygon.error);
      }
      if |polygon.value| > 0 {
        all := all + [polygon.value];
      }
    }
    assert results[..|paths|] == results;
    return Ok(all);
  }

  /** One more step of that loop, when the results before `k` were all kept. */
  lemma KeepOneMore(results: seq<Result<seq<Point>>>, k: int)
    requires 0 <= k < |results| && KeptPolygons(results[..k]).Ok?
    ensures var front, last := KeptPolygons(results[..k]).value, results[k];
      KeptPolygons(results[..k + 1])
      == if last.Err? then Err(last.error) else if |last.value| > 0 then Ok(front + [last.value]) else Ok(front)
  {
    assert results[..k + 1][..k] == results[..k];
  }

  /** When the results before `k` are all kept and result `k` is an error, the whole loop raises that error. */
  lemma FirstFailure(results: seq<Result<seq<Point>>>, k: int)
    requires 0 <= k < |results| && results[k].Err?
    requires KeptPolygons(results[..k]).Ok?
    ensures KeptPolygons(results) == Err(results[k].error)
  {
    var r := KeptPolygons(results);
    var pre := results[..k];
    assert forall j :: 0 <= j < k ==> pre[j] == results[j];
    if r.Err? {
      var i :| 0 <= i < |results| && results[i] == Err(r.error)
        && forall j :: 0 <= j < i ==> results[j].Ok?;
      assert i == k;
    }
  }

  /** The positions of the kept results: those that are `Ok` with at least one point, in increasing order. */
  function KeptIndices(results: seq<Result<seq<Point>>>): (ix: seq<nat>)
    ensures forall j :: 0 <= j < |ix| ==> ix[j] < |results|
  {
    if |results| == 0 then []
    else
      var n := |results|;
      var front := KeptIndices(results[..n - 1]);
      if results[n - 1].Ok? && |results[n - 1].value| > 0 then front + [n - 1] else front
  }

  /**
   * The kept positions rise strictly, and a position is kept exactly when
   * its result is `Ok` with at least one point.
   */
  lemma {:induction false} KeptIndicesMeans(results: seq<Result<seq<Point>>>)
    ensures var ix := KeptIndices(results);
      forall j1, j2 :: 0 <= j1 < j2 < |ix| ==> ix[j1] < ix[j2]
    ensures var ix := KeptIndices(results);
      forall k :: 0 <= k < |results| ==> (k in ix <==> results[k].Ok? && |results[k].value| > 0)
  {
    if |results| > 0 {
      var n := |results|;
      var init := results[..n - 1];
      KeptIndicesMeans(init);
      assert forall k :: 0 <= k < n - 1 ==> init[k] == results[k];
    }
  }

  /**
   * The kept polygons are the point lists of the kept positions, in order:
   * every non-empty result is kept, and nothing else.
   */
  lemma {:induction false} KeptInOrder(results: seq<Result<seq<Point>>>)
    requires KeptPolygons(results).Ok?
    ensures var kept, ix := KeptPolygons(results).value, KeptIndices(results);
      && |kept| == |ix|
      && forall j :: 0 <= j < |ix| ==> results[ix[j]].Ok? && kept[j] == results[ix[j]].value
  {
    if |results| > 0 {
      var n := |results|;
      var init := results[..n - 1];
      assert forall k :: 0 <= k < n - 1 ==> init[k] == results[k];
      KeptInOrder(init);
    }
  }

  /** The layer-0 polygons added to the cell, one per transformed point list (line 139). */
  function AsGds(polys: seq<seq<Point>>): seq<GdsPolygon> {
    seq(|polys|, k requires 0 <= k < |polys| => GdsPolygon(polys[k], 0))
  }

  /** The point lists of the polygons of a cell. */
  function Outlines(gds: seq<GdsPolygon>): seq<seq<Point>> {
    seq(|gds|, k requires 0 <= k < |gds| => gds[k].points)
  }

  lemma OutlinesOfGds(polys: seq<seq<Point>>)
    ensures Outlines(AsGds(polys)) == polys
    ensures forall k :: 0 <= k < |polys| ==> AsGds(polys)[k].layer == 0
  {
  }

  /** Centre of the box, scale factor and transform of lines 107-137 applied to the kept polygons. */
  function Placed(polys: seq<seq<Point>>, opts: Options): seq<seq<Point>>
    requires |polys| > 0 && AllNonEmpty(polys)
  {
    var b := BoundingBoxOf(polys);
    var cx, cy := 0.5 * (b.xmin + b.xmax), 0.5 * (b.ymin + b.ymax);
    TransformAll(polys, cx, cy, ScaleFactor(opts.desiredWidth, b.xmax - b.xmin), opts.flipY)
  }

  /** Lines 103-142 after the loop: return early without geometry, or write the placed polygons. */
  function Layout(kept: Result<seq<seq<Point>>>, opts: Options): Result<Outcome>
    requires kept.Ok? ==> AllNonEmpty(kept.value)
  {
    match kept
    case Err(e) => Err(e)
    case Ok(polys) =>
      if |polys| == 0 then Ok(NoGeometry)
      else Ok(Written(LibraryName, CellName, AsGds(Placed(polys, opts))))
  }

  /**
   * `convert_svg_string_to_gds(svg, out, method, steps, max_error,
   * desired_width_um, flip_y)` for the paths the parser found, up to the
   * write of the library: what it raises, or what it writes.
   */
  function Convert(paths: seq<seq<Segment>>, opts: Options, depth: nat): Result<Outcome> {
    Layout(KeptPolygons(Flattened(paths, opts, depth)), opts)
  }

  /** The conversion with the adaptive joins as intended. */
  function IntendedConvert(paths: seq<seq<Segment>>, opts: Options, depth: nat): Result<Outcome> {
    Layout(KeptPolygons(IntendedFlattened(paths, opts, depth)), opts)
  }

  /**
   * The conversion as written and as intended agree unless the adaptive
   * method meets a path of two or more segments.
   */
  lemma IntendedConvertAgrees(paths: seq<seq<Segment>>, opts: Options, depth: nat)
    requires opts.approximation != "adaptive" || forall k :: 0 <= k < |paths| ==> |paths[k]| <= 1
    ensures Convert(paths, opts, depth) == IntendedConvert(paths, opts, depth)
  {
    assert Flattened(paths, opts, depth) == IntendedFlattened(paths, opts, depth);
  }

  /**
   * With the adaptive method, the first path of two or more segments whose
   * first two segments are bisected within the bound makes the conversion
   * raise `TypeError`, when every path before it flattens.
   */
  lemma AdaptiveConversionRaises(paths: seq<seq<Segment>>, opts: Options, depth: nat, k: int)
    requires opts.approximation == "adaptive" && 0 <= k < |paths| && |paths[k]| >= 2
    requires AdaptiveSegment(paths[k][0], opts.maxError, depth).Ok? && AdaptiveSegment(paths[k][1], opts.maxError, depth).Ok?
    requires forall j :: 0 <= j < k ==> PathPolygon(paths[j], opts, depth).Ok?
    ensures Convert(paths, opts, depth) == Err(TypeError)
  {
    var results := Flattened(paths, opts, depth);
    assert results[k] == Err(TypeError);
    var pre := results[..k];
    assert forall j :: 0 <= j < k ==> pre[j] == results[j];
    FirstFailure(results, k);
  }

  /** The conversion, step by step as svg2gds.py performs it. */
  method ConvertSvgToGds(paths: seq<seq<Segment>>, opts: Options, depth: nat) returns (r: Result<Outcome>)
    ensures r == Convert(paths, opts, depth)
  {
    var kept := CollectPolygons(paths, opts, depth);
    r := PlacePolygons(kept, opts);
  }

  /** Lines 103-140: the early return, the bounding box, the scale factor and the transform loop. */
  method PlacePolygons(kept: Result<seq<seq<Point>>>, opts: Options) returns (r: Result<Outcome>)
    requires kept.Ok? ==> AllNonEmpty(kept.value)
    ensures r == Layout(kept, opts)
  {
    if kept.Err? {
      return Err(kept.error);
    }
    var polys := kept.value;
    if |polys| == 0 {
      return Ok(NoGeometry);
    }
    var b := BoundingBoxOf(polys);
    var width := b.xmax - b.xmin;
    var cx := 0.5 * (b.xmin + b.xmax);
    var cy := 0.5 * (b.ymin + b.ymax);
    var scale := ScaleFactor(opts.desiredWidth, width);
    var transformed := TransformPolygons(polys, cx, cy, scale, opts.flipY);
    assert transformed == Placed(polys, opts);
    return Ok(Written(LibraryName, CellName, AsGds(transformed)));
  }

  /**
   * An unknown method raises as soon as there is a path to flatten; with no
   * path at all the loop never dispatches, and there is no geometry.
   */
  lemma UnknownMethodRaises(paths: seq<seq<Segment>>, opts: Options, depth: nat)
    requires opts.approximation != "fixed" && opts.approximation != "adaptive"
    ensures Convert(paths, opts, depth) == if |paths| == 0 then Ok(NoGeometry) else Err(UnknownMethod)
  {
    var results := Flattened(paths, opts, depth);
    if |paths| > 0 {
      assert results[0] == Err(UnknownMethod);
      assert forall k :: 0 <= k < |paths| ==> results[k] == Err(UnknownMethod);
    }
  }

  /**
   * The conversion raises exactly when flattening some path raises, and the
   * error raised is that of the first such path.
   */
  lemma ConvertFails(paths: seq<seq<Segment>>, opts: Options, depth: nat)
    ensures Convert(paths, opts, depth).Err? <==> exists k :: 0 <= k < |paths| && PathPolygon(paths[k], opts, depth).Err?
    ensures Convert(paths, opts, depth).Err? ==>
      exists k :: && 0 <= k < |paths|
                  && PathPolygon(paths[k], opts, depth) == Err(Convert(paths, opts, depth).error)
                  && forall j :: 0 <= j < k ==> PathPolygon(paths[j], opts, depth).Ok?
  {
    var results := Flattened(paths, opts, depth);
    assert forall k :: 0 <= k < |paths| ==> results[k] == PathPolygon(paths[k], opts, depth);
  }

  /** The early return of lines 103-105: there is no geometry exactly when every path flattens to no point. */
  lemma NoGeometryWhenAllEmpty(paths: seq<seq<Segment>>, opts: Options, depth: nat)
    ensures Convert(paths, opts, depth) == Ok(NoGeometry) <==>
      forall k :: 0 <= k < |paths| ==> PathPolygon(paths[k], opts, depth).Ok? && |PathPolygon(paths[k], opts, depth).value| == 0
  {
    var results := Flattened(paths, opts, depth);
    assert forall k :: 0 <= k < |paths| ==> results[k] == PathPolygon(paths[k], opts, depth);
  }

  /**
   * What is written for non-empty kept polygons `polys`: a library named
   * `MY_SVG_CONVERT` holding one cell `SVG_CELL` with one layer-0 polygon
   * per kept point list, of the same length.
   */
  lemma WrittenCell(polys: seq<seq<Point>>, opts: Options)
    requires |polys| > 0 && AllNonEmpty(polys)
    ensures Layout(Ok(polys), opts).Ok? && Layout(Ok(polys), opts).value.Written?
    ensures var o := Layout(Ok(polys), opts).value;
      && o.library == LibraryName && o.cell == CellName
      && |o.polygons| == |polys|
      && forall k :: 0 <= k < |polys| ==> o.polygons[k].layer == 0 && |o.polygons[k].points| == |polys[k]|
  {
    var b := BoundingBoxOf(polys);
    var cx, cy := 0.5 * (b.xmin + b.xmax), 0.5 * (b.ymin + b.ymax);
    var s := ScaleFactor(opts.desiredWidth, b.xmax - b.xmin);
    var t := Placed(polys, opts);
    assert t == TransformAll(polys, cx, cy, s, opts.flipY);
    assert Layout(Ok(polys), opts) == Ok(Written(LibraryName, CellName, AsGds(t)));
    TransformedNonEmpty(polys, cx, cy, s, opts.flipY);
  }

  /**
   * The bounding box of the placed polygons is centred on the origin, and
   * it is `|s|` times as wide and as tall as the box of the kept polygons,
   * where `s` is the scale factor chosen for that box.
   */
  lemma PlacedBox(polys: seq<seq<Point>>, opts: Options)
    requires |polys| > 0 && AllNonEmpty(polys)
    ensures var t := Placed(polys, opts);
      && |t| == |polys| && AllNonEmpty(t)
      && var b := BoundingBoxOf(polys);
         CentredScaledBy(b, BoundingBoxOf(t), ScaleFactor(opts.desiredWidth, b.xmax - b.xmin))
  {
    var b := BoundingBoxOf(polys);
    var cx, cy := 0.5 * (b.xmin + b.xmax), 0.5 * (b.ymin + b.ymax);
    var s := ScaleFactor(opts.desiredWidth, b.xmax - b.xmin);
    var t: seq<seq<Point>> := TransformAll(polys, cx, cy, s, opts.flipY);
    assert Placed(polys, opts) == t;
    ScaledBox(polys, cx, cy, s, opts.flipY);
  }

  /** The polygons written to the cell are the placed polygons. */
  lemma WrittenOutlines(polys: seq<seq<Point>>, opts: Options)
    requires |polys| > 0 && AllNonEmpty(polys)
    ensures Layout(Ok(polys), opts).Ok? && Layout(Ok(polys), opts).value.Written?
    ensures Outlines(Layout(Ok(polys), opts).value.polygons) == Placed(polys, opts)
  {
    OutlinesOfGds(Placed(polys, opts));
  }

  /**
   * The bounding box of the written polygons is centred on the origin, and
   * it is `|s|` times as wide and as tall as the box of the kept polygons,
   * where `s` is the scale factor chosen for that box.
   */
  lemma WrittenBox(polys: seq<seq<Point>>, opts: Options)
    requires |polys| > 0 && AllNonEmpty(polys)
    ensures Layout(Ok(polys), opts).Ok? && Layout(Ok(polys), opts).value.Written?
    ensures var out := Outlines(Layout(Ok(polys), opts).value.polygons);
      && |out| > 0 && AllNonEmpty(out)
      && var b := BoundingBoxOf(polys);
         CentredScaledBy(b, BoundingBoxOf(out), ScaleFactor(opts.desiredWidth, b.xmax - b.xmin))
  {
    WrittenOutlines(polys, opts);
    PlacedBox(polys, opts);
  }

  /**
   * With a positive desired width `w` and kept polygons of positive width,
   * the written polygons span exactly `w`, from `-w/2` to `w/2`.
   */
  lemma WrittenWidthIsDesired(polys: seq<seq<Point>>, opts: Options, w: real)
    requires |polys| > 0 && AllNonEmpty(polys)
    requires opts.desiredWidth == Some(w) && w > 0.0
    requires BoundingBoxOf(polys).xmax - BoundingBoxOf(polys).xmin > 0.0
    ensures Layout(Ok(polys), opts).Ok? && Layout(Ok(polys), opts).value.Written?
    ensures var out := Outlines(Layout(Ok(polys), opts).value.polygons);
      && |out| > 0 && AllNonEmpty(out)
      && BoundingBoxOf(out).xmin == -0.5 * w && BoundingBoxOf(out).xmax == 0.5 * w
  {
    var b := BoundingBoxOf(polys);
    var cx, cy := 0.5 * (b.xmin + b.xmax), 0.5 * (b.ymin + b.ymax);
    var t := Placed(polys, opts);
    assert t == TransformAll(polys, cx, cy, ScaleFactor(Some(w), b.xmax - b.xmin), opts.flipY);
    assert Layout(Ok(polys), opts) == Ok(Written(LibraryName, CellName, AsGds(t)));
    OutlinesOfGds(t);
    ScaledToDesiredWidth(polys, cx, cy, w, opts.flipY);
  }

  /**
   * Without a desired width, or when every kept point has the same x, the
   * scale is 1: the polygons are only moved (and mirrored), and their box
   * keeps its size.
   */
  lemma WrittenUnscaled(polys: seq<seq<Point>>, opts: Options)
    requires |polys| > 0 && AllNonEmpty(polys)
    requires opts.desiredWidth == None || BoundingBoxOf(polys).xmax == BoundingBoxOf(polys).xmin
    ensures Layout(Ok(polys), opts).Ok? && Layout(Ok(polys), opts).value.Written?
    ensures var out := Outlines(Layout(Ok(polys), opts).value.polygons);
      && |out| > 0 && AllNonEmpty(out)
      && var b, ob := BoundingBoxOf(polys), BoundingBoxOf(out);
         ob.xmax - ob.xmin == b.xmax - b.xmin && ob.ymax - ob.ymin == b.ymax - b.ymin
  {
    WrittenBox(polys, opts);
    var b := BoundingBoxOf(polys);
    assert ScaleFactor(opts.desiredWidth, b.xmax - b.xmin) == 1.0;
  }

  /** A written conversion is the layout of the kept polygons, of which there is at least one. */
  lemma ConvertWritten(paths: seq<seq<Segment>>, opts: Options, depth: nat)
    requires Convert(paths, opts, depth).Ok? && Convert(paths, opts, depth).value.Written?
    ensures var kept := KeptPolygons(Flattened(paths, opts, depth));
      && kept.Ok? && |kept.value| > 0 && AllNonEmpty(kept.value)
      && Convert(paths, opts, depth) == Layout(Ok(kept.value), opts)
  {
  }

  /**
   * Every point of every non-empty result lies in the bounding box of the
   * kept polygons: keeping only the non-empty results drops no point.
   */
  lemma KeptBoxCovers(results: seq<Result<seq<Point>>>)
    requires KeptPolygons(results).Ok? && |KeptPolygons(results).value| > 0
    ensures var b := BoundingBoxOf(KeptPolygons(results).value);
      forall k, i :: 0 <= k < |results| && results[k].Ok? && 0 <= i < |results[k].value| ==>
        b.xmin <= results[k].value[i].x <= b.xmax && b.ymin <= results[k].value[i].y <= b.ymax
  {
    var kept := KeptPolygons(results).value;
    var ix := KeptIndices(results);
    KeptIndicesMeans(results);
    KeptInOrder(results);
    BoundingBoxCorrect(kept);
    var b := BoundingBoxOf(kept);
    forall k, i | 0 <= k < |results| && results[k].Ok? && 0 <= i < |results[k].value|
      ensures b.xmin <= results[k].value[i].x <= b.xmax && b.ymin <= results[k].value[i].y <= b.ymax
    {
      assert k in ix;
      var j :| 0 <= j < |ix| && ix[j] == k;
      assert kept[j] == results[k].value;
      assert kept[j][i] == results[k].value[i];
    }
  }

  /**
   * When the conversion writes a cell, every path flattened, and every point
   * of every path lies in the bounding box of the kept polygons, the box the
   * placement is centred and scaled from.
   */
  lemma BoxCoversEveryPath(paths: seq<seq<Segment>>, opts: Options, depth: nat)
    requires Convert(paths, opts, depth).Ok? && Convert(paths, opts, depth).value.Written?
    ensures forall k :: 0 <= k < |paths| ==> PathPolygon(paths[k], opts, depth).Ok?
    ensures var kept := KeptPolygons(Flattened(paths, opts, depth));
      && kept.Ok? && |kept.value| > 0 && AllNonEmpty(kept.value)
      && var b := BoundingBoxOf(kept.value);
         forall k, i :: 0 <= k < |paths| && PathPolygon(paths[k], opts, depth).Ok? && 0 <= i < |PathPolygon(paths[k], opts, depth).value| ==>
           b.xmin <= PathPolygon(paths[k], opts, depth).value[i].x <= b.xmax
           && b.ymin <= PathPolygon(paths[k], opts, depth).value[i].y <= b.ymax
  {
    var results := Flattened(paths, opts, depth);
    ConvertWritten(paths, opts, depth);
    KeptBoxCovers(results);
    assert forall k :: 0 <= k < |paths| ==> results[k] == PathPolygon(paths[k], opts, depth);
  }

  /**
   * A line from (0, 0) to (10, 0), flattened with one fixed step and scaled
   * to a width of 100 with y mirrored, is written as the single layer-0
   * polygon (-50, 0), (50, 0).
   */
  lemma LineConvertedExample()
    ensures Convert([[Line(Point(0.0, 0.0), Point(10.0, 0.0))]], Options("fixed", 1, 0.01, Some(100.0), true), 0)
         == Ok(Written(LibraryName, CellName, [GdsPolygon([Point(-50.0, 0.0), Point(50.0, 0.0)], 0)]))
  {
    var opts := Options("fixed", 1, 0.01, Some(100.0), true);
    var pts := [Point(0.0, 0.0), Point(10.0, 0.0)];
    ExampleKept(opts, pts);
    ExamplePlaced(opts, pts);
    var t := [[Point(-50.0, 0.0), Point(50.0, 0.0)]];
    assert AsGds(t) == [GdsPolygon([Point(-50.0, 0.0), Point(50.0, 0.0)], 0)];
  }

  lemma ExampleKept(opts: Options, pts: seq<Point>)
    requires opts == Options("fixed", 1, 0.01, Some(100.0), true)
    requires pts == [Point(0.0, 0.0), Point(10.0, 0.0)]
    ensures KeptPolygons(Flattened([[Line(Point(0.0, 0.0), Point(10.0, 0.0))]], opts, 0)) == Ok([pts])
  {
    var path := [Line(Point(0.0, 0.0), Point(10.0, 0.0))];
    OneStepLine();
    assert PathPolygon(path, opts, 0) == Ok(pts);
    var results := Flattened([path], opts, 0);
    assert results == [Ok(pts)];
    assert results[..0] == [];
    assert KeptPolygons(results[..0]) == Ok([]);
    assert KeptPolygons(results) == Ok([] + [pts]);
    assert [] + [pts] == [pts];
  }

  lemma ExamplePlaced(opts: Options, pts: seq<Point>)
    requires opts == Options("fixed", 1, 0.01, Some(100.0), true)
    requires pts == [Point(0.0, 0.0), Point(10.0, 0.0)]
    ensures AllNonEmpty([pts]) && Placed([pts], opts) == [[Point(-50.0, 0.0), Point(50.0, 0.0)]]
  {
    var polys: seq<seq<Point>> := [pts];
    assert polys[0][0].x == 0.0 && polys[0][1].x == 10.0;
    BoxIs(polys, Box(0.0, 10.0, 0.0, 0.0));
    assert ScaleFactor(Some(100.0), 10.0) == 10.0;
    var t := Placed(polys, opts);
    assert t == TransformAll(polys, 5.0, 0.0, 10.0, true);
    TransformAllAt(polys, 5.0, 0.0, 10.0, true, 0, 0);
    TransformAllAt(polys, 5.0, 0.0, 10.0, true, 0, 1);
    assert t[0][0] == Point(-50.0, 0.0) && t[0][1] == Point(50.0, 0.0);
    assert t[0] == [Point(-50.0, 0.0), Point(50.0, 0.0)];
  }
}
