/**
 * `GrayScaleStatistics.calculateGrayscaleFrameStatistics`: minimum, maximum and
 * sum of the unsigned intensities of the first `width*height` bytes of a
 * grayscale buffer. The Java average is `sum / (width*height)` as a double;
 * the model returns the exact sum instead.
 */
module GrayscaleStatistics {
  import opened Base

  datatype GrayscaleFrameStatistics = GrayscaleFrameStatistics(minimum: int, maximum: int, sum: int)

  /** The total of the unsigned readings of `s`, accumulated left to right. */
  function UnsignedSum(s: seq<JByte>): (t: int)
    ensures 0 <= t <= 255 * |s|
  {
    if |s| == 0 then 0 else UnsignedSum(s[..|s| - 1]) + Unsigned(s[|s| - 1])
  }

  /** A sum of values between `lo` and `hi` lies between `lo*|s|` and `hi*|s|`. */
  lemma {:induction false} UnsignedSumBetween(s: seq<JByte>, lo: int, hi: int)
    requires forall i :: 0 <= i < |s| ==> lo <= Unsigned(s[i]) <= hi
    ensures lo * |s| <= UnsignedSum(s) <= hi * |s|
  {
    if |s| > 0 {
      var p := s[..|s| - 1];
      assert forall i :: 0 <= i < |p| ==> p[i] == s[i];
      UnsignedSumBetween(p, lo, hi);
      assert lo * |s| == lo * |p| + lo;
      assert hi * |s| == hi * |p| + hi;
    }
  }

  /**
   * `calculateGrayscaleFrameStatistics`. The minimum starts at 255 and the
   * maximum at 0, so an empty frame reports (255, 0).
   */
  method CalculateGrayscaleFrameStatistics(width: nat, height: nat, gray: array<JByte>)
    returns (s: GrayscaleFrameStatistics)
    requires width * height <= gray.Length
    ensures width * height == 0 ==> s.minimum == 255 && s.maximum == 0
    ensures forall i :: 0 <= i < width * height ==>
              s.minimum <= Unsigned(gray[i]) <= s.maximum
    ensures width * height > 0 ==>
              && (exists i :: 0 <= i < width * height && Unsigned(gray[i]) == s.minimum)
              && (exists i :: 0 <= i < width * height && Unsigned(gray[i]) == s.maximum)
    ensures s.sum == UnsignedSum(gray[..width * height])
    ensures s.minimum * (width * height) <= s.sum <= s.maximum * (width * height)
  {
    var n := width * height;
    var minimum, maximum, sum := 255, 0, 0;
    var i := 0;
    while i < n
      invariant 0 <= i <= n
      invariant i == 0 ==> minimum == 255 && maximum == 0
      invariant forall k :: 0 <= k < i ==> minimum <= Unsigned(gray[k]) <= maximum
      invariant i > 0 ==> exists k :: 0 <= k < i && Unsigned(gray[k]) == minimum
      invariant i > 0 ==> exists k :: 0 <= k < i && Unsigned(gray[k]) == maximum
      invariant sum == UnsignedSum(gray[..i])
    {
      var v := Unsigned(gray[i]);
      if v < minimum {
        minimum := v;
      }
      if v > maximum {
        maximum := v;
      }
      assert gray[..i + 1][..i] == gray[..i];
      sum := sum + v;
      i := i + 1;
    }
    assert gray[..n] == gray[..i];
    UnsignedSumBetween(gray[..n], minimum, maximum);
    s := GrayscaleFrameStatistics(minimum, maximum, sum);
  }
}
