/**
 * `EdgeConnectedComponent`: a pixel counter, an axis-aligned bounding box and
 * the list of member pixels, grown one pixel at a time, with the integer
 * width, height and area getters and the two ratio getters.
 */
module Components {
  import opened Base
  import opened Geometry

  /** A Java `int` pixel coordinate. */
  predicate IntCoordinate(x: int, y: int) {
    IntMin <= x <= IntMax && IntMin <= y <= IntMax
  }

  predicate IntCoordinates(ps: seq<PixelCoordinate>) {
    forall i :: 0 <= i < |ps| ==> IntCoordinate(ps[i].x, ps[i].y)
  }

  /** Every pixel of `ps` lies inside the box. */
  predicate Encloses(ps: seq<PixelCoordinate>, minX: int, maxX: int, minY: int, maxY: int) {
    forall i :: 0 <= i < |ps| ==> minX <= ps[i].x <= maxX && minY <= ps[i].y <= maxY
  }

  /** The box encloses `ps` and each of its four sides touches a pixel of `ps`. */
  predicate TightBox(ps: seq<PixelCoordinate>, minX: int, maxX: int, minY: int, maxY: int) {
    && Encloses(ps, minX, maxX, minY, maxY)
    && (exists i :: 0 <= i < |ps| && ps[i].x == minX)
    && (exists i :: 0 <= i < |ps| && ps[i].x == maxX)
    && (exists i :: 0 <= i < |ps| && ps[i].y == minY)
    && (exists i :: 0 <= i < |ps| && ps[i].y == maxY)
  }

  /** The rational `num / den`, standing for a Java `double` quotient. */
  datatype Ratio = Ratio(num: int, den: int)

  /**
   * The values of a component's fields: what the extractor builds and what
   * the candidate filters and selectors read.
   */
  datatype ComponentRecord = ComponentRecord(
    pixelCount: int,
    minX: int, maxX: int, minY: int, maxY: int,
    pixels: seq<PixelCoordinate>)
  {
    /**
     * The shape every update keeps: the counter is the list length, an empty
     * component still holds the sentinel bounds, and a non-empty one holds
     * the tight box of its pixels.
     */
    predicate WellFormed() {
      && pixelCount == |pixels|
      && (pixelCount == 0 ==> minX == IntMax && maxX == IntMin && minY == IntMax && maxY == IntMin)
      && (pixelCount > 0 ==> TightBox(pixels, minX, maxX, minY, maxY))
    }

    /** `getComponentWidthInPixels`. */
    function Width(): (w: int)
      ensures pixelCount == 0 ==> w == 0
      ensures WellFormed() && pixelCount > 0 ==>
                w >= 1 && forall i :: 0 <= i < |pixels| ==> minX <= pixels[i].x < minX + w
    {
      if pixelCount == 0 then 0 else maxX - minX + 1
    }

    /** `getComponentHeightInPixels`. */
    function Height(): (h: int)
      ensures pixelCount == 0 ==> h == 0
      ensures WellFormed() && pixelCount > 0 ==>
                h >= 1 && forall i :: 0 <= i < |pixels| ==> minY <= pixels[i].y < minY + h
    {
      if pixelCount == 0 then 0 else maxY - minY + 1
    }

    /** `getComponentBoundingBoxAreaInPixels`. */
    function Area(): (a: int)
      ensures WellFormed() ==> a >= 0 && (a == 0 <==> pixelCount == 0)
    {
      Width() * Height()
    }

    /** `getComponentAspectRatioWidthDividedByHeight`: 0 for a zero height. */
    function AspectRatio(): (r: Ratio)
      ensures r.den != 0
      ensures Height() == 0 ==> r.num == 0
      ensures Height() != 0 ==> r.num * Height() == Width() * r.den
    {
      if Height() == 0 then Ratio(0, 1) else Ratio(Width(), Height())
    }

    /** `getComponentFillRatioWithinBoundingBox`: 0 for a non-positive area. */
    function FillRatio(): (r: Ratio)
      ensures r.den > 0
      ensures Area() <= 0 ==> r.num == 0
      ensures Area() > 0 ==> r.num * Area() == pixelCount * r.den
    {
      if Area() <= 0 then Ratio(0, 1) else Ratio(pixelCount, Area())
    }

    /** The fields after `updateWithPixel(x, y)`. */
    function WithPixel(x: int, y: int): ComponentRecord {
      ComponentRecord(
        pixelCount + 1,
        if x < minX then x else minX,
        if x > maxX then x else maxX,
        if y < minY then y else minY,
        if y > maxY then y else maxY,
        pixels + [PixelCoordinate(x, y)])
    }
  }

  /** The fields set by the constructor. */
  function EmptyRecord(): (c: ComponentRecord)
    ensures c.WellFormed() && c.pixels == []
  {
    ComponentRecord(0, IntMax, IntMin, IntMax, IntMin, [])
  }

  /**
   * One update keeps a record well formed: the count still equals the list
   * length and the box becomes the tight box of the longer list.
   */
  lemma WithPixelKeepsWellFormed(c: ComponentRecord, x: int, y: int)
    requires c.WellFormed() && IntCoordinate(x, y)
    ensures c.WithPixel(x, y).WellFormed()
    ensures c.WithPixel(x, y).pixelCount == c.pixelCount + 1
    ensures c.WithPixel(x, y).pixels == c.pixels + [PixelCoordinate(x, y)]
  {
    var d := c.WithPixel(x, y);
    var n := |c.pixels|;
    assert d.pixels[n] == PixelCoordinate(x, y);
    if c.pixelCount > 0 {
      assert forall i :: 0 <= i < n ==> d.pixels[i] == c.pixels[i];
      var i1 :| 0 <= i1 < n && c.pixels[i1].x == c.minX;
      var i2 :| 0 <= i2 < n && c.pixels[i2].x == c.maxX;
      var i3 :| 0 <= i3 < n && c.pixels[i3].y == c.minY;
      var i4 :| 0 <= i4 < n && c.pixels[i4].y == c.maxY;
      assert d.pixels[if x < c.minX then n else i1].x == d.minX;
      assert d.pixels[if x > c.maxX then n else i2].x == d.maxX;
      assert d.pixels[if y < c.minY then n else i3].y == d.minY;
      assert d.pixels[if y > c.maxY then n else i4].y == d.maxY;
    }
  }

  /** The record that the constructor followed by one update per pixel of `ps` leaves. */
  function Accumulate(ps: seq<PixelCoordinate>): ComponentRecord {
    if |ps| == 0 then EmptyRecord()
    else Accumulate(ps[..|ps| - 1]).WithPixel(ps[|ps| - 1].x, ps[|ps| - 1].y)
  }

  /** One more pixel at the end of the list is one more update. */
  lemma AccumulateAppend(ps: seq<PixelCoordinate>, p: PixelCoordinate)
    ensures Accumulate(ps + [p]) == Accumulate(ps).WithPixel(p.x, p.y)
  {
    assert (ps + [p])[..|ps|] == ps;
  }

  /**
   * Updating with the pixels of `ps` in order gives a well-formed record whose
   * list is `ps`: count `|ps|` and, for a non-empty `ps`, the tight box of `ps`.
   */
  lemma {:induction false} AccumulateIsTight(ps: seq<PixelCoordinate>)
    requires IntCoordinates(ps)
    ensures Accumulate(ps).WellFormed()
    ensures Accumulate(ps).pixels == ps && Accumulate(ps).pixelCount == |ps|
  {
    if |ps| > 0 {
      var init := ps[..|ps| - 1];
      AccumulateIsTight(init);
      WithPixelKeepsWellFormed(Accumulate(init), ps[|ps| - 1].x, ps[|ps| - 1].y);
      assert init + [ps[|ps| - 1]] == ps;
    }
  }

  /** `EdgeConnectedComponent`: the mutable object with the Java fields. */
  class EdgeConnectedComponent {
    const componentLabelValue: int
    var componentPixelCount: int
    var minimumXCoordinate: int
    var maximumXCoordinate: int
    var minimumYCoordinate: int
    var maximumYCoordinate: int
    var pixelCoordinateList: seq<PixelCoordinate>

    /** The current field values. */
    function Snapshot(): ComponentRecord
      reads this
    {
      ComponentRecord(
        componentPixelCount,
        minimumXCoordinate, maximumXCoordinate, minimumYCoordinate, maximumYCoordinate,
        pixelCoordinateList)
    }

    ghost predicate Valid()
      reads this
    {
      Snapshot().WellFormed() && IntCoordinates(pixelCoordinateList)
    }

    /** Count 0, sentinel bounds `Integer.MAX_VALUE`/`Integer.MIN_VALUE`, empty list. */
    constructor (labelValue: int)
      ensures Valid()
      ensures componentLabelValue == labelValue
      ensures Snapshot() == EmptyRecord()
    {
      componentLabelValue := labelValue;
      componentPixelCount := 0;
      minimumXCoordinate := IntMax;
      maximumXCoordinate := IntMin;
      minimumYCoordinate := IntMax;
      maximumYCoordinate := IntMin;
      pixelCoordinateList := [];
    }

    /**
     * `updateWithPixel`: one more pixel, the box widened to contain it and the
     * coordinate appended; the label is a constant and never changes.
     */
    method UpdateWithPixel(x: int, y: int)
      requires IntCoordinate(x, y)
      modifies this
      ensures Snapshot() == old(Snapshot()).WithPixel(x, y)
      ensures componentPixelCount == old(componentPixelCount) + 1
      ensures pixelCoordinateList == old(pixelCoordinateList) + [PixelCoordinate(x, y)]
      ensures old(Valid()) ==> Valid()
    {
      ghost var before := Snapshot();
      ghost var wasValid := Valid();
      componentPixelCount := componentPixelCount + 1;
      if x < minimumXCoordinate {
        minimumXCoordinate := x;
      }
      if x > maximumXCoordinate {
        maximumXCoordinate := x;
      }
      if y < minimumYCoordinate {
        minimumYCoordinate := y;
      }
      if y > maximumYCoordinate {
        maximumYCoordinate := y;
      }
      pixelCoordinateList := pixelCoordinateList + [PixelCoordinate(x, y)];
      assert Snapshot() == before.WithPixel(x, y);
      if wasValid {
        WithPixelKeepsWellFormed(before, x, y);
        assert IntCoordinates(pixelCoordinateList);
      }
    }
  }
}
