/**
 * `AprilTagEdgeDetector`: a 3x3 Sobel operator over a grayscale frame, an L1
 * gradient magnitude and a threshold that turns it into a 0/255 edge mask.
 * The detector owns reusable buffers that every call overwrites in place.
 */
module EdgeDetection {
  import opened Base
  import opened Geometry

  /** A single-channel 8-bit Mat: `cols` x `rows` bytes in row-major order. */
  datatype GrayFrame = GrayFrame(cols: nat, rows: nat, data: seq<JByte>) {
    predicate WellFormed() { |data| == cols * rows }
    /** `Mat.empty()`: the Mat holds no element. */
    predicate IsEmpty() { cols == 0 || rows == 0 }
  }

  /** Pixels whose whole 3x3 neighbourhood lies inside the frame. */
  predicate Interior(w: nat, h: nat, x: int, y: int) {
    1 <= x < w - 1 && 1 <= y < h - 1
  }

  /** The unsigned intensity of pixel (x, y). */
  function At(g: seq<JByte>, w: nat, h: nat, x: int, y: int): (v: int)
    requires |g| == w * h && 0 <= x < w && 0 <= y < h
    ensures 0 <= v < 256
  {
    Unsigned(g[Index(w, h, x, y)])
  }

  /** The horizontal Sobel response at (x, y); the border is never evaluated. */
  function GradientX(g: seq<JByte>, w: nat, h: nat, x: int, y: int): (gx: int)
    requires |g| == w * h && 0 <= x < w && 0 <= y < h
    ensures -1020 <= gx <= 1020
    ensures !Interior(w, h, x, y) ==> gx == 0
  {
    if Interior(w, h, x, y) then
      - At(g, w, h, x - 1, y - 1) + At(g, w, h, x + 1, y - 1)
      - 2 * At(g, w, h, x - 1, y) + 2 * At(g, w, h, x + 1, y)
      - At(g, w, h, x - 1, y + 1) + At(g, w, h, x + 1, y + 1)
    else 0
  }

  /** The vertical Sobel response at (x, y); the border is never evaluated. */
  function GradientY(g: seq<JByte>, w: nat, h: nat, x: int, y: int): (gy: int)
    requires |g| == w * h && 0 <= x < w && 0 <= y < h
    ensures -1020 <= gy <= 1020
    ensures !Interior(w, h, x, y) ==> gy == 0
  {
    if Interior(w, h, x, y) then
      At(g, w, h, x - 1, y - 1) + 2 * At(g, w, h, x, y - 1) + At(g, w, h, x + 1, y - 1)
      - At(g, w, h, x - 1, y + 1) - 2 * At(g, w, h, x, y + 1) - At(g, w, h, x + 1, y + 1)
    else 0
  }

  /** The L1 gradient magnitude `|Gx| + |Gy|`. */
  function Magnitude(g: seq<JByte>, w: nat, h: nat, x: int, y: int): (m: int)
    requires |g| == w * h && 0 <= x < w && 0 <= y < h
    ensures 0 <= m <= 2040
    ensures !Interior(w, h, x, y) ==> m == 0
  {
    Abs(GradientX(g, w, h, x, y)) + Abs(GradientY(g, w, h, x, y))
  }

  /** The mask byte: `(byte) 255` for an interior pixel at or above the threshold. */
  function EdgeValue(g: seq<JByte>, w: nat, h: nat, t: int, x: int, y: int): (e: JByte)
    requires |g| == w * h && 0 <= x < w && 0 <= y < h
  {
    if Interior(w, h, x, y) && Magnitude(g, w, h, x, y) >= t then ToJByte(255) else 0
  }

  /** Mask bytes are 0 or 255, and 255 exactly at interior pixels reaching the threshold. */
  lemma EdgeValueIsBinary(g: seq<JByte>, w: nat, h: nat, t: int, x: int, y: int)
    requires |g| == w * h && 0 <= x < w && 0 <= y < h
    ensures Unsigned(EdgeValue(g, w, h, t, x, y)) in {0, 255}
    ensures Unsigned(EdgeValue(g, w, h, t, x, y)) == 255 <==>
              Interior(w, h, x, y) && Magnitude(g, w, h, x, y) >= t
  {
    UnsignedToJByte(255);
  }

  class EdgeDetector {
    const width: nat
    const height: nat
    const threshold: int

    // The reusable buffers (`grayscaleByteArray`, `gradientXShortArray`, ...).
    const grayscale: array<JByte>
    const gradientX: array<JShort>
    const gradientY: array<JShort>
    const magnitude: array<int>
    const edgeMask: array<JByte>

    /** The contents of the output Mat `edgeBinaryFrameMatrix`. */
    var edgeFrame: seq<JByte>

    ghost predicate Valid()
      reads this
    {
      && grayscale.Length == width * height
      && gradientX.Length == width * height
      && gradientY.Length == width * height
      && magnitude.Length == width * height
      && edgeMask.Length == width * height
      && |edgeFrame| == width * height
      && grayscale != edgeMask
      && gradientX != gradientY
    }

    constructor (w: nat, h: nat, t: int)
      ensures Valid()
      ensures width == w && height == h && threshold == t
      ensures fresh(grayscale) && fresh(gradientX) && fresh(gradientY)
      ensures fresh(magnitude) && fresh(edgeMask)
    {
      width, height, threshold := w, h, t;
      grayscale := new JByte[w * h];
      gradientX := new JShort[w * h];
      gradientY := new JShort[w * h];
      magnitude := new int[w * h];
      edgeMask := new JByte[w * h];
      edgeFrame := seq(w * h, _ => 0);
    }

    /** All four outputs at (x, y) are what the frame `g` determines there. */
    ghost predicate Computed(g: seq<JByte>, x: int, y: int)
      requires Valid() && |g| == width * height && 0 <= x < width && 0 <= y < height
      reads this, gradientX, gradientY, magnitude, edgeMask
    {
      var i := Index(width, height, x, y);
      && gradientX[i] as int == GradientX(g, width, height, x, y)
      && gradientY[i] as int == GradientY(g, width, height, x, y)
      && magnitude[i] == Magnitude(g, width, height, x, y)
      && edgeMask[i] == EdgeValue(g, width, height, threshold, x, y)
    }

    /** All four outputs at (x, y) still hold the zero written by `Arrays.fill`. */
    ghost predicate Cleared(x: int, y: int)
      requires Valid() && 0 <= x < width && 0 <= y < height
      reads this, gradientX, gradientY, magnitude, edgeMask
    {
      var i := Index(width, height, x, y);
      gradientX[i] == 0 && gradientY[i] == 0 && magnitude[i] == 0 && edgeMask[i] == 0
    }

    /** The detector's buffers hold the result for frame `g`. */
    ghost predicate HoldsResultFor(g: seq<JByte>)
      requires Valid() && |g| == width * height
      reads this, gradientX, gradientY, magnitude, edgeMask
    {
      forall x, y :: 0 <= x < width && 0 <= y < height ==> Computed(g, x, y)
    }

    /** Row 0, row H-1, column 0 and column W-1 of every output buffer hold 0. */
    ghost predicate BorderIsZero()
      requires Valid()
      reads this, gradientX, gradientY, magnitude, edgeMask
    {
      forall x, y :: 0 <= x < width && 0 <= y < height && !Interior(width, height, x, y) ==>
        Cleared(x, y)
    }

    /** `getEdgeBinaryByteArray`: the mask buffer, shared by reference. */
    function GetEdgeBinaryByteArray(): (a: array<JByte>)
      ensures a == edgeMask
    {
      edgeMask
    }

    /** `getGradientMagnitudeIntegerArray`: the magnitude buffer, shared by reference. */
    function GetGradientMagnitudeIntegerArray(): (a: array<int>)
      ensures a == magnitude
    {
      magnitude
    }

    /**
     * `calculateEdgeBinaryFrameFromGrayscaleFrame`. An empty frame returns the
     * current output untouched; a frame of another size throws before any
     * buffer is written; otherwise every buffer is recomputed from the frame.
     */
    method CalculateEdgeBinaryFrameFromGrayscaleFrame(frame: GrayFrame) returns (r: Result<seq<JByte>>)
      requires Valid() && frame.WellFormed()
      modifies this, grayscale, gradientX, gradientY, magnitude, edgeMask
      ensures Valid()
      ensures frame.IsEmpty() ==>
                && r == Ok(old(edgeFrame)) && edgeFrame == old(edgeFrame)
                && unchanged(grayscale, gradientX, gradientY, magnitude, edgeMask)
      ensures !frame.IsEmpty() && (frame.cols != width || frame.rows != height) ==>
                && r == Fail(FrameSizeMismatch) && edgeFrame == old(edgeFrame)
                && unchanged(grayscale, gradientX, gradientY, magnitude, edgeMask)
      ensures !frame.IsEmpty() && frame.cols == width && frame.rows == height ==>
                && r == Ok(edgeFrame) && edgeFrame == edgeMask[..]
                && grayscale[..] == frame.data
                && HoldsResultFor(frame.data)
                && BorderIsZero()
    {
      if frame.IsEmpty() {
        return Ok(edgeFrame);
      }
      if frame.cols != width || frame.rows != height {
        return Fail(FrameSizeMismatch);
      }
      var g := frame.data;
      CopyAndClear(g);
      ApplySobel(g);
      ResultHasZeroBorder(g);
      edgeFrame := edgeMask[..];
      r := Ok(edgeFrame);
    }

    /** The frame is copied into the grayscale buffer and every output buffer is filled with 0. */
    method CopyAndClear(g: seq<JByte>)
      requires Valid() && |g| == width * height
      modifies grayscale, gradientX, gradientY, magnitude, edgeMask
      ensures grayscale[..] == g
      ensures forall px, py :: 0 <= px < width && 0 <= py < height ==> Cleared(px, py)
    {
      forall i | 0 <= i < grayscale.Length {
        grayscale[i] := g[i];
      }
      forall i | 0 <= i < gradientX.Length {
        gradientX[i] := 0;
      }
      forall i | 0 <= i < gradientY.Length {
        gradientY[i] := 0;
      }
      forall i | 0 <= i < magnitude.Length {
        magnitude[i] := 0;
      }
      forall i | 0 <= i < edgeMask.Length {
        edgeMask[i] := 0;
      }
      assert grayscale[..] == g;
    }

    /** The result for a frame is zero on the border, as the Sobel values are only computed inside. */
    lemma ResultHasZeroBorder(g: seq<JByte>)
      requires Valid() && |g| == width * height && HoldsResultFor(g)
      ensures BorderIsZero()
    {
      forall x, y | 0 <= x < width && 0 <= y < height && !Interior(width, height, x, y)
        ensures Cleared(x, y)
      {
        assert Computed(g, x, y);
      }
    }
    /** The nested y/x loops over the interior, starting from cleared buffers. */
    method ApplySobel(g: seq<JByte>)
      requires Valid() && |g| == width * height && grayscale[..] == g
      requires forall px, py :: 0 <= px < width && 0 <= py < height ==> Cleared(px, py)
      modifies gradientX, gradientY, magnitude, edgeMask
      ensures HoldsResultFor(g)
    {
      // Row 0 is border: cleared is already its result.
      forall px, py | 0 <= px < width && 0 <= py < height
        ensures if py < 1 then Computed(g, px, py) else Cleared(px, py)
      {
        if py < 1 {
          assert Cleared(px, py);
        }
      }
      var y := 1;
      while y < height - 1
        invariant 1 <= y && (height >= 2 ==> y <= height - 1)
        invariant forall px, py :: 0 <= px < width && 0 <= py < height ==>
                    if py < y then Computed(g, px, py) else Cleared(px, py)
      {
        ApplySobelToRow(g, y);
        y := y + 1;
      }
      // The rows not visited are border rows, where cleared is already the result.
      forall px, py | 0 <= px < width && 0 <= py < height
        ensures Computed(g, px, py)
      {
        if py >= y {
          assert Cleared(px, py);
        }
      }
    }

    /** One pass of the inner x loop over row `y`. */
    method ApplySobelToRow(g: seq<JByte>, y: int)
      requires Valid() && |g| == width * height && grayscale[..] == g
      requires 1 <= y < height - 1
      requires forall px, py :: 0 <= px < width && 0 <= py < height ==>
                 if py < y then Computed(g, px, py) else Cleared(px, py)
      modifies gradientX, gradientY, magnitude, edgeMask
      ensures forall px, py :: 0 <= px < width && 0 <= py < height ==>
                if py <= y then Computed(g, px, py) else Cleared(px, py)
    {
      var x := 1;
      while x < width - 1
        invariant 1 <= x && (width >= 2 ==> x <= width - 1)
        invariant forall px, py :: 0 <= px < width && 0 <= py < height ==>
                    if py < y || (py == y && px < x) then Computed(g, px, py) else Cleared(px, py)
      {
        ApplySobelAt(g, x, y);
        x := x + 1;
      }
      // The column left over is the right border, where cleared is already the result.
      forall px, py | 0 <= px < width && 0 <= py < height && py == y && px >= x
        ensures Computed(g, px, py)
      {
        assert Cleared(px, py);
      }
    }

    /** The eight neighbour reads of pixel (x, y) and its two Sobel responses. */
    method ReadGradients(g: seq<JByte>, x: int, y: int) returns (gx: int, gy: int)
      requires Valid() && |g| == width * height && grayscale[..] == g
      requires Interior(width, height, x, y)
      ensures gx == GradientX(g, width, height, x, y)
      ensures gy == GradientY(g, width, height, x, y)
    {
      var top := (y - 1) * width;
      var middle := y * width;
      var bottom := (y + 1) * width;
      assert middle + x == Index(width, height, x, y);
      assert top + x - 1 == Index(width, height, x - 1, y - 1);
      assert bottom + x + 1 == Index(width, height, x + 1, y + 1);
      var topLeft := Unsigned(grayscale[top + x - 1]);
      var topCenter := Unsigned(grayscale[top + x]);
      var topRight := Unsigned(grayscale[top + x + 1]);
      var middleLeft := Unsigned(grayscale[middle + x - 1]);
      var middleRight := Unsigned(grayscale[middle + x + 1]);
      var bottomLeft := Unsigned(grayscale[bottom + x - 1]);
      var bottomCenter := Unsigned(grayscale[bottom + x]);
      var bottomRight := Unsigned(grayscale[bottom + x + 1]);

      gx := - topLeft + topRight - 2 * middleLeft + 2 * middleRight - bottomLeft + bottomRight;
      gy := topLeft + 2 * topCenter + topRight - bottomLeft - 2 * bottomCenter - bottomRight;
    }

    /** The body of the inner loop: the Sobel responses, magnitude and mask byte of pixel (x, y). */
    method ApplySobelAt(g: seq<JByte>, x: int, y: int)
      requires Valid() && |g| == width * height && grayscale[..] == g
      requires Interior(width, height, x, y)
      modifies gradientX, gradientY, magnitude, edgeMask
      ensures Computed(g, x, y)
      ensures forall px, py :: 0 <= px < width && 0 <= py < height && (px != x || py != y) ==>
                && (old(Computed(g, px, py)) ==> Computed(g, px, py))
                && (old(Cleared(px, py)) ==> Cleared(px, py))
    {
      var gx, gy := ReadGradients(g, x, y);
      var i := Index(width, height, x, y);
      ToJShortExact(gx);
      ToJShortExact(gy);
      gradientX[i] := ToJShort(gx);
      gradientY[i] := ToJShort(gy);
      var m := Abs(gx) + Abs(gy);
      magnitude[i] := m;
      if m >= threshold {
        edgeMask[i] := ToJByte(255);
      } else {
        edgeMask[i] := 0;
      }
      forall px, py | 0 <= px < width && 0 <= py < height && (px != x || py != y)
        ensures old(Computed(g, px, py)) ==> Computed(g, px, py)
        ensures old(Cleared(px, py)) ==> Cleared(px, py)
      {
        assert Index(width, height, px, py) != i;
      }
    }
  }
}
