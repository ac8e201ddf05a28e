/**
 * `DrawingBoxes.drawConvexHullForLargestSignificantEdgeConnectedComponent`
 * and `drawQuadrilateralOnEdgeFrame`: choose the largest significant
 * component, compute its convex hull, fit the quadrilateral corners and
 * draw both outlines. Each `Imgproc.line` call is recorded as a `Segment`;
 * the polygon OpenCV approximates from the hull is the parameter `approx`.
 */
module Drawing {
  import opened Base
  import opened Geometry
  import opened Components
  import opened CandidateSelection
  import opened ConvexHull
  import opened QuadrilateralFitter

  /** One line drawn on the edge frame, from `start` to `finish`. */
  datatype Segment = Segment(start: PixelCoordinate, finish: PixelCoordinate)

  /**
   * `segments` outlines the polygon `vertices`: one segment per vertex,
   * starting at it and ending where the next segment starts, the last one
   * returning to the first vertex.
   */
  predicate ClosedOutline(vertices: seq<PixelCoordinate>, segments: seq<Segment>) {
    && |segments| == |vertices|
    && (forall i :: 0 <= i < |segments| ==> segments[i].start == vertices[i])
    && (forall i :: 0 <= i < |segments| ==> segments[i].finish == segments[(i + 1) % |segments|].start)
  }

  /** A polygon has exactly one closed outline. */
  lemma ClosedOutlineUnique(vertices: seq<PixelCoordinate>, s1: seq<Segment>, s2: seq<Segment>)
    requires ClosedOutline(vertices, s1) && ClosedOutline(vertices, s2)
    ensures s1 == s2
  {
    forall i | 0 <= i < |s1|
      ensures s1[i] == s2[i]
    {
      var j := (i + 1) % |s1|;
      assert s1[i].finish == s1[j].start == vertices[j] == s2[j].start == s2[i].finish;
    }
  }

  /** The line loop over a point list: point `i` to point `(i + 1) % n`. */
  method DrawClosedOutline(vertices: seq<PixelCoordinate>) returns (segments: seq<Segment>)
    ensures ClosedOutline(vertices, segments)
  {
    var n := |vertices|;
    segments := [];
    var i := 0;
    while i < n
      invariant 0 <= i <= n
      invariant |segments| == i
      invariant forall k :: 0 <= k < i ==> segments[k] == Segment(vertices[k], vertices[(k + 1) % n])
    {
      segments := segments + [Segment(vertices[i], vertices[(i + 1) % n])];
      i := i + 1;
    }
  }

  /** Every slot of a corner array holds a corner. */
  predicate AllPresent(corners: seq<Option<PixelCoordinate>>) {
    forall i :: 0 <= i < |corners| ==> corners[i].Some?
  }

  /** The corners of an array with every slot filled. */
  function Present(corners: seq<Option<PixelCoordinate>>): (ps: seq<PixelCoordinate>)
    requires AllPresent(corners)
    ensures |ps| == |corners|
    ensures forall i :: 0 <= i < |ps| ==> corners[i] == Some(ps[i])
  {
    seq(|corners|, i requires 0 <= i < |corners| => corners[i].value)
  }

  /**
   * The console loop over the corner array: it reads both coordinates of
   * every entry, so the first `null` entry throws.
   */
  method PrintCorners(corners: seq<Option<PixelCoordinate>>) returns (r: Result<()>)
    ensures r.Ok? <==> AllPresent(corners)
    ensures r.Fail? ==> r.error == NullCornerDereference
  {
    var i := 0;
    while i < |corners|
      invariant 0 <= i <= |corners|
      invariant forall k :: 0 <= k < i ==> corners[k].Some?
    {
      if corners[i].None? {
        return Fail(NullCornerDereference);
      }
      i := i + 1;
    }
    return Ok(());
  }

  /**
   * `drawQuadrilateralOnEdgeFrame` as written: nothing is drawn unless there
   * are exactly four entries, and each side reads both of its corners, so a
   * `null` corner throws.
   */
  method DrawQuadrilateralAsWritten(corners: seq<Option<PixelCoordinate>>) returns (r: Result<seq<Segment>>)
    ensures |corners| != 4 ==> r == Ok([])
    ensures |corners| == 4 && !AllPresent(corners) ==> r == Fail(NullCornerDereference)
    ensures |corners| == 4 && AllPresent(corners) ==> r.Ok? && ClosedOutline(Present(corners), r.value)
  {
    if |corners| != 4 {
      return Ok([]);
    }
    var segments: seq<Segment> := [];
    var i := 0;
    while i < 4
      invariant 0 <= i <= 4
      invariant forall k :: 0 <= k < 4 && k <= i && (k < i || 0 < i) ==> corners[k].Some?
      invariant |segments| == i
      invariant forall k :: 0 <= k < i ==> segments[k] == Segment(corners[k].value, corners[(k + 1) % 4].value)
    {
      var first := corners[i];
      var second := corners[(i + 1) % 4];
      if first.None? || second.None? {
        assert !AllPresent(corners);
        return Fail(NullCornerDereference);
      }
      segments := segments + [Segment(first.value, second.value)];
      i := i + 1;
    }
    return Ok(segments);
  }

  /**
   * The drawing of the quadrilateral with the missing-corner case handled:
   * an array with a `null` slot draws nothing instead of throwing.
   */
  method DrawQuadrilateralChecked(corners: seq<Option<PixelCoordinate>>) returns (segments: seq<Segment>)
    ensures |corners| == 4 && AllPresent(corners) ==> ClosedOutline(Present(corners), segments)
    ensures !(|corners| == 4 && AllPresent(corners)) ==> segments == []
  {
    if |corners| != 4 {
      return [];
    }
    var i := 0;
    while i < 4
      invariant 0 <= i <= 4
      invariant forall k :: 0 <= k < i ==> corners[k].Some?
    {
      if corners[i].None? {
        return [];
      }
      i := i + 1;
    }
    segments := DrawClosedOutline(Present(corners));
  }

  /** As written, the diamond's ordered corners make the quadrilateral drawing throw. */
  method DrawDiamondAsWritten() returns (r: Result<seq<Segment>>)
    ensures r == Fail(NullCornerDereference)
  {
    DiamondLeavesTopLeftEmpty();
    var corners := OrderedCorners(Diamond());
    assert corners[0].None? && !AllPresent(corners);
    r := DrawQuadrilateralAsWritten(corners);
  }

  /** With the null check, the diamond's ordered corners draw nothing and do not throw. */
  method DrawDiamondChecked() returns (segments: seq<Segment>)
    ensures segments == []
  {
    DiamondLeavesTopLeftEmpty();
    var corners := OrderedCorners(Diamond());
    assert corners[0].None? && !AllPresent(corners);
    segments := DrawQuadrilateralChecked(corners);
  }

  /** How far the drawing got. */
  datatype Drawing =
    | NoSignificantComponent
    | HullTooSmall(selected: nat, hull: seq<PixelCoordinate>)
    | Drawn(selected: nat, hull: seq<PixelCoordinate>, corners: Option<seq<Option<PixelCoordinate>>>,
            quadrilateral: seq<Segment>, outline: seq<Segment>)

  /** What the fitter returns for a hull and the polygon approximated from it. */
  function FittedCorners(hull: seq<PixelCoordinate>, approx: seq<PixelCoordinate>): Option<seq<Option<PixelCoordinate>>> {
    if |hull| < 4 || |approx| != 4 then None else Some(OrderedCorners(approx))
  }

  /**
   * `drawConvexHullForLargestSignificantEdgeConnectedComponent` as written.
   * It stops when no component is significant or the hull has fewer than two
   * points; otherwise it prints and draws the fitted corners, when there are
   * any, and then draws the closed hull outline. A corner array with a `null`
   * slot throws while it is printed.
   */
  method DrawConvexHullForLargestSignificantComponent(
    components: seq<ComponentRecord>, threshold: int, approx: seq<PixelCoordinate>)
    returns (r: Result<Drawing>)
    ensures Largest(components, threshold).None? <==> r == Ok(NoSignificantComponent)
    ensures r.Ok? && !r.value.NoSignificantComponent? ==>
              Some(r.value.selected) == Largest(components, threshold)
    ensures r.Ok? && r.value.HullTooSmall? ==> |components[r.value.selected].pixels| == 1
    ensures r.Ok? && r.value.Drawn? ==>
              var d := r.value;
              && |components[d.selected].pixels| >= 2
              && |d.hull| >= 2
              && (forall p :: p in d.hull ==> p in components[d.selected].pixels)
              && ClosedOutline(d.hull, d.outline)
              && d.corners == FittedCorners(d.hull, approx)
              && (d.corners.Some? ==> AllPresent(d.corners.value)
                                      && ClosedOutline(Present(d.corners.value), d.quadrilateral))
              && (d.corners.None? ==> d.quadrilateral == [])
    ensures r.Fail? ==>
              && r.error == NullCornerDereference
              && |approx| == 4 && !AllPresent(OrderedCorners(approx))
    ensures |approx| == 4 && !AllPresent(OrderedCorners(approx)) ==>
              r.Fail? || !r.value.Drawn? || |r.value.hull| < 4
  {
    var selected := SelectLargestSignificantComponent(components, threshold);
    if selected.None? {
      return Ok(NoSignificantComponent);
    }
    var component := components[selected.value];
    var hull, chains := CalculateConvexHull(component.pixels);
    if |hull| < 2 {
      return Ok(HullTooSmall(selected.value, hull));
    }
    var corners := CalculateQuadrilateralCorners(hull, approx);
    var quadrilateral: seq<Segment> := [];
    if corners.Some? {
      var printed := PrintCorners(corners.value);
      if printed.Fail? {
        return Fail(printed.error);
      }
      var drawn := DrawQuadrilateralAsWritten(corners.value);
      quadrilateral := drawn.value;
    }
    var outline := DrawClosedOutline(hull);
    return Ok(Drawn(selected.value, hull, corners, quadrilateral, outline));
  }
}
