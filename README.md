# svg2gds geometry core in Dafny

This project models the geometry core of `svg2gds.py` and proves properties of the model. That core takes the curve segments an SVG parser has already produced and does the following:

- turns each path into a polygon, either by fixed-step sampling or by adaptive bisection;
- drops the paths that come out empty;
- moves the remaining polygons so that the centre of their bounding box is the origin;
- scales them to an optional target width and optionally mirrors them in y;
- hands them, as layer-0 polygons of the cell `SVG_CELL` in the library `MY_SVG_CONVERT`, to the GDSII writer.

Coordinates are mathematical reals. A segment is a line, a quadratic or cubic Bézier curve with its control points (evaluated by de Casteljau), or an arc whose evaluation is an uninterpreted function `real -> Point`.

Modules, in pipeline order:

| module | file | what it holds |
|---|---|---|
| `Geometry` | geometry.dfy | points, segments and `seg.point(t)`; the error kinds; the square-root-free form of the chord test |
| `FixedFlattener` | fixed_flattener.dfy | `approximate_path_fixed`: nested loops as a method, proved equal to `FixedFlatten` |
| `AdaptiveFlattener` | adaptive_flattener.dfy | `recursive_subdivide` as the recursive function `Subdivide`, and its properties |
| `PathAssembler` | path_assembler.dfy | `approximate_path_adaptive`: the look-back join loop as written, proved equal to `AdaptiveFlattenAsWritten`, and the loop with the join it evidently intends, proved equal to `AdaptiveFlatten` |
| `BoundingBox` | bounding_box.dfy | `min`/`max` over every point of every kept polygon |
| `Transform` | transform.dfy | the scale choice, the point transform loop as a method, and the centring and scaling of the box |
| `Conversion` | conversion.dfy | `convert_svg_string_to_gds` after parsing: dispatch on the method, the filter, the early return and the written cell |

### How the model differs from the code

- **Outcomes.** A run either raises, which the model writes as `Err(e)`, or ends in one of two ways:
  - `Ok(NoGeometry)`: the early return;
  - `Ok(Written(library, cell, polygons))`: the content handed to `write_gds`.
- **The adaptive recursion.** In the code it has no depth cap (svg2gds.py:40-57), so the model gives it a bound `depth`. A branch that would bisect deeper than the bound fails with `Err(RecursionLimit)`. `SubdivideDepthMonotone` proves that a result, once a bound is enough to obtain it, is the same under every larger bound.
- **The chord test.** It is stated without the square root, as `cross² <= err² · len²` guarded by `err >= 0`. `ChordAcceptedMeans` proves this is the code's test `len == 0 or |cross| / len <= err`, including for a negative `err`.

### What the code does not check (the model follows the code)

- **Step count.** The code does not validate `steps`:
  - `steps == 0` raises `ZeroDivisionError` at `i / steps` on the first segment, which the model writes as `Err(DivisionByZero)`. A path without segments still gives `[]`.
  - A negative `steps` makes `range(steps + 1)` empty, so the path flattens to no points and is then dropped.
- **Tolerance.** The code does not validate `max_error` either. A negative tolerance accepts only chords of length zero. A zero tolerance accepts a chord only when the midpoint sample is collinear with it, or when the chord has length zero.
- **Unknown method.** The error is raised inside the per-path loop (svg2gds.py:92-98). With no paths there is no error, and the result is the no-geometry return (`UnknownMethodRaises`).
- **Placement.** The code always re-centres the box on the origin, so scaling to the original width with `flip_y = false` keeps the box's width and height but not its position (`WrittenUnscaled`, `WrittenBox`).
- **Adaptive joins.** `seg_points` holds complex numbers (svg2gds.py:40-59), and `pts.extend(seg_points)` puts them in `pts`. From the second segment on, `pts[-1][0]` subscripts a complex number and raises `TypeError` (svg2gds.py:73). So, as written, the adaptive method converts only paths of at most one segment. `AdaptiveFlattenAsWritten`, `ApproximatePathAdaptive`, `PathPolygon` and `Convert` model that behaviour. `AdaptiveFlatten`, `ApproximatePathAdaptiveCorrected` and `IntendedConvert` model the join the code evidently intends, a comparison with the previous point's coordinates. `IntendedConvertAgrees` proves the two conversions are equal whenever no adaptive path has two or more segments. See "## Findings".

## Model

| member | source | states |
|---|---|---|
| Geometry.LineEndpoints | svg2gds.py:30 | a line evaluated at `t = 0` and `t = 1` gives its start and end points |
| Geometry.ChordTestSquaredForm | svg2gds.py:50-51 | for a chord of positive length, `abs(cross) / len <= err` holds iff `err >= 0` and `cross² <= err²·len²` |
| Geometry.SquaredChordTest | svg2gds.py:44-52 | the squared test with a zero-length shortcut is exactly the code's two-step test; a squared length is zero iff the length is |
| Geometry.Norm2ZeroIff | svg2gds.py:44-45 | a chord vector has squared length zero iff it is the zero vector |
| FixedFlattener.ApproximatePathFixed | svg2gds.py:21-32 | the nested loops return exactly `FixedFlatten`: every segment's samples in order, or the division-by-zero error when `steps == 0` and there is a segment |
| FixedFlattener.FixedFlatten | svg2gds.py:21-32 | the fixed flattening fails only when `steps == 0`, and then with the division-by-zero error; otherwise it has `len(path) * len(range(steps + 1))` points |
| FixedFlattener.FixedPointsLength | svg2gds.py:26-32 | the result has `len(path) * len(range(steps + 1))` points |
| FixedFlattener.FixedPointsAt | svg2gds.py:27-31 | point `k*(steps+1)+i` exists and is segment `k` evaluated at `i/steps` |
| FixedFlattener.SegmentEndpointsSampled | svg2gds.py:28-31 | each segment's block starts with its point at `t = 0` and ends with its point at `t = 1` |
| FixedFlattener.OneStepLine | svg2gds.py:21-32 | the line (0,0)–(10,0) with one step flattens to `[(0,0), (10,0)]` |
| AdaptiveFlattener.Subdivide | svg2gds.py:40-57 | a result has at least two points, starts at `point(t0)` and ends at `point(t1)`; it fails only through the depth bound, on a rejected chord |
| AdaptiveFlattener.AdaptiveSegment | svg2gds.py:34-59 | the flattening of a segment over `[0, 1]` starts at its start point, ends at its end point and has at least two points |
| AdaptiveFlattener.ChordAcceptedMeans | svg2gds.py:41-52 | the squared stopping test accepts iff the chord length is zero or the midpoint's distance `abs(cross)/len` is at most `err`; the length is zero iff the end samples coincide |
| AdaptiveFlattener.SubdivideShape | svg2gds.py:44-57 | an accepted chord gives exactly `[p0, p2]`; a rejected one gives `left[:-1] + right`, of length `len(left) + len(right) - 1`, with the midpoint once at index `len(left) - 1` |
| AdaptiveFlattener.SubdivideSamples | svg2gds.py:40-57 | every point is the curve at a parameter; the parameters rise strictly from `t0` to `t1` (no midpoint sampled twice), are dyadic points of `[t0, t1]` at depth at most the bound, and every consecutive pair is an accepted chord |
| AdaptiveFlattener.GlueSamples | svg2gds.py:54-57 | gluing the two halves' results at the midpoint keeps all of the above for the whole interval |
| AdaptiveFlattener.SubdivideDepthMonotone | svg2gds.py:40-57 | a result obtained under a depth bound is the same under every larger bound |
| AdaptiveFlattener.AcceptedUnderLargerTolerance | svg2gds.py:50-52 | a chord accepted under a tolerance is accepted under every larger one |
| AdaptiveFlattener.SubdivideToleranceMonotone | svg2gds.py:40-57 | raising the tolerance never makes the bisection fail and never adds points |
| AdaptiveFlattener.LineIsNotSubdivided | svg2gds.py:40-59 | with a non-negative tolerance a line is never bisected: its flattening is `[start, end]` |
| PathAssembler.SegmentPointLists | svg2gds.py:67-68 | the per-segment lists exist iff every segment's bisection succeeds; list `k` is segment `k`'s flattening; the only error is the depth bound's |
| PathAssembler.AdaptiveFlatten | svg2gds.py:61-77 | the intended flattening succeeds iff every segment's bisection succeeds, fails only with the depth bound's error, and gives a non-empty path at least `len(path) + 1` points |
| PathAssembler.AdaptiveFlattenAsWritten | svg2gds.py:61-77 | as written, a path of at most one segment gives the intended flattening; a path of two or more segments always fails, with `TypeError` exactly when the first two segments' bisections succeed |
| PathAssembler.OneSegmentFlatten | svg2gds.py:64-69 | a path of one segment flattens to that segment's own bisection result |
| PathAssembler.ApproximatePathAdaptive | svg2gds.py:61-77 | the loop as written returns exactly `AdaptiveFlattenAsWritten`: `[]` for no segment, the first segment's flattening for one, otherwise the first failing bisection's error or `TypeError` at the join test of the second segment |
| PathAssembler.ApproximatePathAdaptiveCorrected | svg2gds.py:61-77 | the loop with the join test on coordinate pairs returns exactly `AdaptiveFlatten`: the intended fold of `Join` over the segment point lists, or the first segment's error |
| PathAssembler.ExtendPoints | svg2gds.py:69-76 | one body of the corrected loop is one `Join`: the whole list while `pts` is empty, then `seg_points[1:]` when both coordinates are within `1e-12` of the last point, otherwise the whole list |
| PathAssembler.FirstErrorIsFinal | svg2gds.py:67-68 | a segment whose bisection fails makes the whole path fail with its error |
| PathAssembler.AssembleStep | svg2gds.py:69-76 | in the intended fold, list `k` is appended whole when `k = 0` or its join is not elided, and without its first point exactly when it is |
| PathAssembler.AssembleShape | svg2gds.py:66-77 | the intended fold has total length minus elided joins points, at least `len(lists) + 1` of them, and starts and ends with the first list's first and the last list's last point |
| PathAssembler.AssemblePrefix | svg2gds.py:66-77 | the intended fold of the first `k` lists is a prefix of the fold of all of them |
| PathAssembler.SharedEndpointOnce | svg2gds.py:72-74 | with the intended join, two lists sharing an endpoint exactly are joined with that point once, giving `len(a) + len(b) - 1` points |
| PathAssembler.AdaptiveFlattenShape | svg2gds.py:61-77 | with the intended join, a flattened path of `n` segments has at least `n + 1` points and starts (ends) at the first (last) segment's start (end) |
| PathAssembler.TwoSegmentFlatten | svg2gds.py:66-76 | a two-segment path whose segments give `l0` and `l1` flattens, with the intended join, to the fold of `[l0, l1]` |
| PathAssembler.LinesJoined | svg2gds.py:66-76 | with the intended join and a non-negative tolerance, the lines `a`–`b` and `b`–`c` give `[a, b, c]`, the shared point once |
| PathAssembler.TwoLinesRaise | svg2gds.py:73 | as written, the path (0,0)–(1,0)–(2,0) of two lines, tolerance 0.01, raises `TypeError` under every depth bound |
| PathAssembler.TwoLinesJoined | svg2gds.py:66-76 | with the intended join, that same path gives `[(0,0), (1,0), (2,0)]` |
| BoundingBox.Min | svg2gds.py:110 | `min(xs)` is at most every element and is one of them |
| BoundingBox.Max | svg2gds.py:110 | `max(xs)` is at least every element and is one of them |
| BoundingBox.BoundingBoxOf | svg2gds.py:107-111 | the box of non-empty polygons is ordered: `xmin <= xmax` and `ymin <= ymax` |
| BoundingBox.BoundingBoxCorrect | svg2gds.py:107-111 | every point of every kept polygon lies in the box and each of the four bounds is attained by a point |
| BoundingBox.BoxIs | svg2gds.py:107-111 | conversely a box containing every point with all four bounds attained is the bounding box |
| Transform.ScaleFactorMeans | svg2gds.py:117-121 | the scale times the width is the desired width when one is given and the width is positive (and it is then positive for a positive target); otherwise it is `1.0` |
| Transform.TransformPolygons | svg2gds.py:127-137 | the loop returns exactly `TransformAll`: every point `((x-cx)*s, ±(y-cy)*s)`, polygons and points in their order |
| Transform.TransformAllAt | svg2gds.py:130-137 | polygon count and lengths are kept, and point `i` of polygon `k` is `((x-cx)*s, (y-cy)*s)`, y negated iff `flip_y` |
| Transform.TransformedNonEmpty | svg2gds.py:128-137 | the transform keeps the number of polygons and each polygon's length |
| Transform.CentredBox | svg2gds.py:112-137 | transforming about the box centre gives the box `[-hw, hw] × [-hh, hh]`, the half-spans of the scaled old box |
| Transform.ScaledBox | svg2gds.py:112-137 | the new box is centred on the origin and `abs(s)` times as wide and as tall |
| Transform.ScaledToDesiredWidth | svg2gds.py:112-137 | with a positive target and box width, the new box spans exactly the target width, from `-w/2` to `w/2` |
| Conversion.PathPolygonFails | svg2gds.py:92-98 | flattening a path as written fails iff the method is unknown, or `fixed` with zero steps and a segment, or `adaptive` with two or more segments or with a failing bisection; for `fixed` the error is division by zero, for `adaptive` it is `TypeError` exactly when there are two or more segments and the first two bisect successfully, and otherwise the depth bound's |
| Conversion.PathPolygon | svg2gds.py:92-98 | a `fixed` result has `len(path) * len(range(steps + 1))` points; an `adaptive` result exists only for a path of at most one segment, with at least two points for one segment; the error is the unknown-method one iff the method is neither |
| Conversion.IntendedPathPolygon | svg2gds.py:92-98 | with the intended joins, the flattening is the as-written one unless the method is `adaptive` and the path has two or more segments; an `adaptive` result has at least `len(path) + 1` points for a non-empty path |
| Conversion.IntendedPathPolygonFails | svg2gds.py:92-98 | with the intended joins, flattening a path fails iff the method is unknown, or `fixed` with zero steps and a segment, or `adaptive` with a failing bisection, whose error is then the depth bound's |
| Conversion.KeptPolygons | svg2gds.py:91-101 | the kept list exists iff no path raised; it holds only non-empty lists (no more than the paths); it is empty iff every path gave no point; otherwise the error is that of the first failing path |
| Conversion.CollectPolygons | svg2gds.py:91-101 | the loop dispatching on the method returns exactly `KeptPolygons` of the paths' flattenings |
| Conversion.FirstFailure | svg2gds.py:92-98 | the loop raises the error of the first failing path |
| Conversion.KeptIndicesMeans | svg2gds.py:100-101 | the kept positions rise strictly, and a path's position is kept iff its flattening succeeded with at least one point |
| Conversion.KeptInOrder | svg2gds.py:91-101 | there are as many kept polygons as kept positions, and kept polygon `j` is the flattening of the path at kept position `j` |
| Conversion.KeptBoxCovers | svg2gds.py:100-111 | every point of every successful flattening lies in the bounding box of the kept polygons |
| Conversion.OutlinesOfGds | svg2gds.py:139-140 | the cell's polygons carry the transformed point lists unchanged, all on layer 0 |
| Conversion.PlacePolygons | svg2gds.py:103-140 | returns exactly `Layout`: the error, the early return without geometry, or the written cell of transformed polygons |
| Conversion.ConvertSvgToGds | svg2gds.py:91-140 | the whole conversion returns exactly `Convert` |
| Conversion.UnknownMethodRaises | svg2gds.py:92-98 | an unknown method raises the unknown-method error as soon as there is a path, and gives no geometry when there is none |
| Conversion.ConvertFails | svg2gds.py:92-98 | the conversion raises iff some path's flattening raises, and then raises the first such path's error |
| Conversion.NoGeometryWhenAllEmpty | svg2gds.py:100-105 | the early return happens iff every path flattens, without error, to no point |
| Conversion.WrittenCell | svg2gds.py:124-140 | non-empty kept polygons produce the library `MY_SVG_CONVERT` with cell `SVG_CELL`, one layer-0 polygon per kept list, each of the same length |
| Conversion.PlacedBox | svg2gds.py:107-137 | the box of the placed polygons is centred on the origin and `abs(s)` times as wide and tall as the kept polygons' box |
| Conversion.WrittenOutlines | svg2gds.py:128-140 | the written polygons are the placed polygons |
| Conversion.WrittenBox | svg2gds.py:107-140 | the written polygons' box is centred on the origin and scaled by `abs(s)` in both axes |
| Conversion.WrittenWidthIsDesired | svg2gds.py:117-140 | with a positive target width and a box of positive width, the written polygons span exactly `[-w/2, w/2]` in x |
| Conversion.WrittenUnscaled | svg2gds.py:117-140 | without a target width, or for a box of zero width, the written box keeps its width and height |
| Conversion.ConvertWritten | svg2gds.py:100-140 | a written conversion had at least one kept, non-empty polygon and is the layout of those |
| Conversion.BoxCoversEveryPath | svg2gds.py:91-111 | when a cell is written, every path was flattened, and every point of every path's polygon lies in the box that the placement centres and scales |
| Conversion.IntendedConvertAgrees | svg2gds.py:91-140 | when the method is not `adaptive`, or no path has two or more segments, the conversion as written equals the one with the intended joins |
| Conversion.AdaptiveConversionRaises | svg2gds.py:91-98 | with `adaptive`, the first path of two or more segments whose first two segments bisect successfully, after paths that all flatten, makes the conversion raise `TypeError` (the error of line 73) |
| Conversion.LineConvertedExample | svg2gds.py:91-140 | the line (0,0)–(10,0), one fixed step, target width 100 and `flip_y` give the single layer-0 polygon `[(-50,0), (50,0)]` |

## Left out

- `flatten_svg_to_string` (svg2gds.py:12-19): a wrapper over the picosvg library; the model starts from parsed paths.
- `svg2paths2` parsing (svg2gds.py:89): a foreign library. The paths are the input `paths: seq<seq<Segment>>`.
- The evaluation of an elliptical arc (trigonometry inside the parsing library): `Arc` carries an uninterpreted function of the parameter.
- `gdstk.Library`, `new_cell`, `gdstk.Polygon`, `cell.add` and `write_gds` (svg2gds.py:124-125, 139-142): the model returns the library name, cell name and `(points, layer 0)` list that these receive, not the binary file.
- The two `print` calls (svg2gds.py:104, 143), `main` and its argument parsing (svg2gds.py:145-189): console and file I/O.
- IEEE floating point: coordinates, `i / steps`, the midpoint and the scale are exact reals, and `abs` of a complex number (a square root) is replaced by the squared chord test.
- `height` (svg2gds.py:113): computed and never used.
- The complex numbers of the code: the model has one point type. It keeps from the complex/pair distinction only its consequence, the `TypeError` of svg2gds.py:73. The conversion to pairs at svg2gds.py:77 is then the identity, because the adaptive method as written returns points only for paths of at most one segment.
- The default arguments of `convert_svg_string_to_gds` and the flatteners (`method="fixed"`, `steps=1000`, `max_error=0.01`, `desired_width_um=None`, `flip_y=True`; svg2gds.py:21, 34, 61, 79-81): Python's keyword defaults are not modelled. The model's operations take every option explicitly, and `Conversion.DefaultOptions` records the defaults.
- PathAssembler.AdaptiveFlatten: stated of the intended join on coordinate pairs. As written, a path of two or more segments raises `TypeError` at svg2gds.py:73, which is `AdaptiveFlattenAsWritten`.
- PathAssembler.ApproximatePathAdaptiveCorrected: likewise the intended loop, not the code as written.
- PathAssembler.ExtendPoints: a body of the intended loop. As written, the `else` branch raises `TypeError`.
- PathAssembler.AssembleStep: proved of the intended fold. As written, the code raises `TypeError` for two or more segments.
- PathAssembler.AssembleShape: proved of the intended fold. As written, the code raises `TypeError` for two or more segments.
- PathAssembler.AssemblePrefix: proved of the intended fold. As written, the code raises `TypeError` for two or more segments.
- PathAssembler.SharedEndpointOnce: proved of the intended join. As written, the code raises `TypeError` before any join.
- PathAssembler.AdaptiveFlattenShape: proved of the intended fold. As written, a path of two or more segments raises `TypeError`, and a path of one segment is covered by `OneSegmentFlatten` and `AdaptiveSegment`.
- The text of the `ValueError` (svg2gds.py:98): the model records only which error is raised.
- AdaptiveFlattener.Subdivide: carries a depth bound the code does not have; a result agrees with the code's when the code's recursion is at most that deep, and the Python `RecursionError` or non-termination of a deeper recursion is reported as `Err(RecursionLimit)` instead.
- BoundingBox.Min: Python's `min` is modelled as the least element, which is what it returns for reals; the order of comparisons is not modelled.
- BoundingBox.Max: likewise, as the greatest element.

## Findings

| source | as written | input that shows it | evidently intended | confidence | as-written member | corrected member |
|---|---|---|---|---|---|---|
| svg2gds.py:73 | The join test `pts[-1][0]` subscripts the last point of `pts`. That point came from `seg_points`, a list of complex numbers, so from the second segment on the test raises `TypeError`. | `method="adaptive"`, `max_error=0.01`, a path of the two lines (0,0)–(1,0) and (1,0)–(2,0) | compare the last point's real and imaginary parts, joining to `[(0,0), (1,0), (2,0)]` | not executed; high | PathAssembler.TwoLinesRaise | PathAssembler.ApproximatePathAdaptiveCorrected |

The conversion (`Conversion.Convert`) models the code as written. `Conversion.IntendedConvert` uses `PathAssembler.AdaptiveFlatten` instead. `Conversion.IntendedConvertAgrees` states when the two are equal, and `Conversion.AdaptiveConversionRaises` states when the written one raises. `PathAssembler.TwoLinesJoined`, `LinesJoined`, `AssembleShape` and `AssembleStep` prove the intended behaviour on the corrected fold.
