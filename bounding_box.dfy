/**
 * The bounding box of all kept polygons: minimum and maximum x and y over
 * every point of every polygon, computed once for the whole drawing.
 */
module BoundingBox {
  import opened Geometry

  datatype Box = Box(xmin: real, xmax: real, ymin: real, ymax: real)

  /** `[p for poly in polys for p in poly]`. */
  function Flatten(polys: seq<seq<Point>>): seq<Point> {
    if |polys| == 0 then [] else Flatten(polys[..|polys| - 1]) + polys[|polys| - 1]
  }

  /** The flattened list holds exactly the points of the polygons. */
  lemma {:induction false} FlattenMembers(polys: seq<seq<Point>>)
    ensures forall k, i :: 0 <= k < |polys| && 0 <= i < |polys[k]| ==> polys[k][i] in Flatten(polys)
    ensures forall p :: p in Flatten(polys) ==>
      exists k, i :: 0 <= k < |polys| && 0 <= i < |polys[k]| && polys[k][i] == p
  {
    if |polys| > 0 {
      var n := |polys|;
      var init := polys[..n - 1];
      FlattenMembers(init);
      assert forall k :: 0 <= k < n - 1 ==> init[k] == polys[k];
      forall p | p in Flatten(polys)
        ensures exists k, i :: 0 <= k < n && 0 <= i < |polys[k]| && polys[k][i] == p
      {
        if p !in Flatten(init) {
          var i :| 0 <= i < |polys[n - 1]| && polys[n - 1][i] == p;
        }
      }
    }
  }

  function Xs(pts: seq<Point>): (r: seq<real>)
    ensures |r| == |pts| && forall i {:trigger r[i]} :: 0 <= i < |pts| ==> r[i] == pts[i].x
  {
    seq(|pts|, i requires 0 <= i < |pts| => pts[i].x)
  }

  function Ys(pts: seq<Point>): (r: seq<real>)
    ensures |r| == |pts| && forall i {:trigger r[i]} :: 0 <= i < |pts| ==> r[i] == pts[i].y
  {
    seq(|pts|, i requires 0 <= i < |pts| => pts[i].y)
  }

  /** `m` is an element of `s` that no element undercuts. */
  predicate IsLeast(s: seq<real>, m: real) {
    (exists i :: 0 <= i < |s| && s[i] == m) && forall i :: 0 <= i < |s| ==> m <= s[i]
  }

  /** `m` is an element of `s` that no element exceeds. */
  predicate IsGreatest(s: seq<real>, m: real) {
    (exists i :: 0 <= i < |s| && s[i] == m) && forall i :: 0 <= i < |s| ==> s[i] <= m
  }

  /** Every non-empty list has a least element. */
  lemma {:induction false} LeastExists(s: seq<real>)
    requires |s| > 0
    ensures exists m :: IsLeast(s, m)
  {
    if |s| > 1 {
      var init := s[..|s| - 1];
      LeastExists(init);
      var m :| IsLeast(init, m);
      assert forall i :: 0 <= i < |s| - 1 ==> init[i] == s[i];
      if s[|s| - 1] < m {
        assert IsLeast(s, s[|s| - 1]);
      } else {
        var i :| 0 <= i < |init| && init[i] == m;
        assert s[i] == m;
        assert IsLeast(s, m);
      }
    } else {
      assert IsLeast(s, s[0]);
    }
  }

  /** Every non-empty list has a greatest element. */
  lemma {:induction false} GreatestExists(s: seq<real>)
    requires |s| > 0
    ensures exists m :: IsGreatest(s, m)
  {
    if |s| > 1 {
      var init := s[..|s| - 1];
      GreatestExists(init);
      var m :| IsGreatest(init, m);
      assert forall i :: 0 <= i < |s| - 1 ==> init[i] == s[i];
      if s[|s| - 1] > m {
        assert IsGreatest(s, s[|s| - 1]);
      } else {
        var i :| 0 <= i < |init| && init[i] == m;
        assert s[i] == m;
        assert IsGreatest(s, m);
      }
    } else {
      assert IsGreatest(s, s[0]);
    }
  }

  /**
   * Python's `min` of a non-empty list of numbers: the least element, which
   * is unique, so choosing it is deterministic.
   */
  function Min(s: seq<real>): (m: real)
    requires |s| > 0
    ensures forall i :: 0 <= i < |s| ==> m <= s[i]
    ensures exists i :: 0 <= i < |s| && s[i] == m
  {
    LeastExists(s);
    var m :| IsLeast(s, m);
    m
  }

  /** Python's `max` of a non-empty list of numbers: the greatest element. */
  function Max(s: seq<real>): (m: real)
    requires |s| > 0
    ensures forall i :: 0 <= i < |s| ==> s[i] <= m
    ensures exists i :: 0 <= i < |s| && s[i] == m
  {
    GreatestExists(s);
    var m :| IsGreatest(s, m);
    m
  }

  lemma FlattenNonEmpty(polys: seq<seq<Point>>)
    requires |polys| > 0 && AllNonEmpty(polys)
    ensures |Flatten(polys)| > 0
  {
    FlattenMembers(polys);
    assert polys[0][0] in Flatten(polys);
  }

  /** The box of lines 107-111 of svg2gds.py; `BoundingBoxCorrect` states what it is. */
  function BoundingBoxOf(polys: seq<seq<Point>>): (b: Box)
    requires |polys| > 0 && AllNonEmpty(polys)
    ensures b.xmin <= b.xmax && b.ymin <= b.ymax
  {
    FlattenNonEmpty(polys);
    var pts := Flatten(polys);
    assert Xs(pts)[0] == pts[0].x && Ys(pts)[0] == pts[0].y;
    Box(Min(Xs(pts)), Max(Xs(pts)), Min(Ys(pts)), Max(Ys(pts)))
  }

  /**
   * Every point of every polygon lies inside the box, and each of the four
   * bounds is attained by some point.
   */
  lemma BoundingBoxCorrect(polys: seq<seq<Point>>)
    requires |polys| > 0 && AllNonEmpty(polys)
    ensures var b := BoundingBoxOf(polys);
      forall k, i :: 0 <= k < |polys| && 0 <= i < |polys[k]| ==>
        b.xmin <= polys[k][i].x <= b.xmax && b.ymin <= polys[k][i].y <= b.ymax
    ensures var b := BoundingBoxOf(polys);
      && (exists k, i :: 0 <= k < |polys| && 0 <= i < |polys[k]| && polys[k][i].x == b.xmin)
      && (exists k, i :: 0 <= k < |polys| && 0 <= i < |polys[k]| && polys[k][i].x == b.xmax)
      && (exists k, i :: 0 <= k < |polys| && 0 <= i < |polys[k]| && polys[k][i].y == b.ymin)
      && (exists k, i :: 0 <= k < |polys| && 0 <= i < |polys[k]| && polys[k][i].y == b.ymax)
  {
    FlattenNonEmpty(polys);
    var pts := Flatten(polys);
    BoxContains(polys, pts, BoundingBoxOf(polys));
    BoxAttained(polys, pts, BoundingBoxOf(polys));
  }

  lemma BoxContains(polys: seq<seq<Point>>, pts: seq<Point>, b: Box)
    requires pts == Flatten(polys) && |pts| > 0
    requires b == Box(Min(Xs(pts)), Max(Xs(pts)), Min(Ys(pts)), Max(Ys(pts)))
    ensures forall k, i :: 0 <= k < |polys| && 0 <= i < |polys[k]| ==>
      b.xmin <= polys[k][i].x <= b.xmax && b.ymin <= polys[k][i].y <= b.ymax
  {
    FlattenMembers(polys);
    forall k, i | 0 <= k < |polys| && 0 <= i < |polys[k]|
      ensures b.xmin <= polys[k][i].x <= b.xmax && b.ymin <= polys[k][i].y <= b.ymax
    {
      var p := polys[k][i];
      assert p in pts;
      var j :| 0 <= j < |pts| && pts[j] == p;
      assert Xs(pts)[j] == p.x && Ys(pts)[j] == p.y;
    }
  }

  lemma BoxAttained(polys: seq<seq<Point>>, pts: seq<Point>, b: Box)
    requires pts == Flatten(polys) && |pts| > 0
    requires b == Box(Min(Xs(pts)), Max(Xs(pts)), Min(Ys(pts)), Max(Ys(pts)))
    ensures exists k, i :: 0 <= k < |polys| && 0 <= i < |polys[k]| && polys[k][i].x == b.xmin
    ensures exists k, i :: 0 <= k < |polys| && 0 <= i < |polys[k]| && polys[k][i].x == b.xmax
    ensures exists k, i :: 0 <= k < |polys| && 0 <= i < |polys[k]| && polys[k][i].y == b.ymin
    ensures exists k, i :: 0 <= k < |polys| && 0 <= i < |polys[k]| && polys[k][i].y == b.ymax
  {
    FlattenMembers(polys);
    var j0 :| 0 <= j0 < |pts| && Xs(pts)[j0] == b.xmin;
    var j1 :| 0 <= j1 < |pts| && Xs(pts)[j1] == b.xmax;
    var j2 :| 0 <= j2 < |pts| && Ys(pts)[j2] == b.ymin;
    var j3 :| 0 <= j3 < |pts| && Ys(pts)[j3] == b.ymax;
    assert pts[j0] in pts && pts[j1] in pts && pts[j2] in pts && pts[j3] in pts;
  }

  /**
   * Conversely, a box that holds every point and whose four bounds are each
   * attained by some point is the bounding box.
   */
  lemma BoxIs(polys: seq<seq<Point>>, b: Box)
    requires |polys| > 0 && AllNonEmpty(polys)
    requires forall k, i :: 0 <= k < |polys| && 0 <= i < |polys[k]| ==>
      b.xmin <= polys[k][i].x <= b.xmax && b.ymin <= polys[k][i].y <= b.ymax
    requires exists k, i :: 0 <= k < |polys| && 0 <= i < |polys[k]| && polys[k][i].x == b.xmin
    requires exists k, i :: 0 <= k < |polys| && 0 <= i < |polys[k]| && polys[k][i].x == b.xmax
    requires exists k, i :: 0 <= k < |polys| && 0 <= i < |polys[k]| && polys[k][i].y == b.ymin
    requires exists k, i :: 0 <= k < |polys| && 0 <= i < |polys[k]| && polys[k][i].y == b.ymax
    ensures BoundingBoxOf(polys) == b
  {
    var pts := Flatten(polys);
    FlattenNonEmpty(polys);
    FlattenMembers(polys);
    forall j | 0 <= j < |pts|
      ensures b.xmin <= Xs(pts)[j] <= b.xmax && b.ymin <= Ys(pts)[j] <= b.ymax
    {
      assert pts[j] in pts;
    }
    var j0 := IndexOf(polys, pts, b.xmin, true);
    var j1 := IndexOf(polys, pts, b.xmax, true);
    var j2 := IndexOf(polys, pts, b.ymin, false);
    var j3 := IndexOf(polys, pts, b.ymax, false);
    MinIs(Xs(pts), j0);
    MaxIs(Xs(pts), j1);
    MinIs(Ys(pts), j2);
    MaxIs(Ys(pts), j3);
  }

  /** A position in the flattened list of a point whose x (or y) coordinate is `v`. */
  lemma IndexOf(polys: seq<seq<Point>>, pts: seq<Point>, v: real, onX: bool) returns (j: int)
    requires pts == Flatten(polys)
    requires onX ==> exists k, i :: 0 <= k < |polys| && 0 <= i < |polys[k]| && polys[k][i].x == v
    requires !onX ==> exists k, i :: 0 <= k < |polys| && 0 <= i < |polys[k]| && polys[k][i].y == v
    ensures 0 <= j < |pts| && (if onX then Xs(pts)[j] else Ys(pts)[j]) == v
  {
    FlattenMembers(polys);
    var k, i :| 0 <= k < |polys| && 0 <= i < |polys[k]| && (if onX then polys[k][i].x else polys[k][i].y) == v;
    assert polys[k][i] in pts;
    j :| 0 <= j < |pts| && pts[j] == polys[k][i];
  }

  /** A value of the list that no element undercuts is its minimum. */
  lemma MinIs(s: seq<real>, j: int)
    requires 0 <= j < |s| && forall i :: 0 <= i < |s| ==> s[j] <= s[i]
    ensures Min(s) == s[j]
  {
  }

  /** A value of the list that no element exceeds is its maximum. */
  lemma MaxIs(s: seq<real>, j: int)
    requires 0 <= j < |s| && forall i :: 0 <= i < |s| ==> s[i] <= s[j]
    ensures Max(s) == s[j]
  {
  }
}
