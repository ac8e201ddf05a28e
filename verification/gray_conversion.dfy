/**
 * `GrayScaleConvertionUtils.convertBgrByteArrayToGrayscaleByteArray`: turns an
 * interleaved 3-bytes-per-pixel colour buffer into one luma byte per pixel with
 * the fixed-point weights 77, 150 and 29 (sum 256) and a shift by 8.
 */
module GrayConversion {
  import opened Base

  function Min3(a: int, b: int, c: int): int {
    if a <= b && a <= c then a else if b <= c then b else c
  }

  function Max3(a: int, b: int, c: int): int {
    if a >= b && a >= c then a else if b >= c then b else c
  }

  /**
   * The luma the loop stores for the bytes at offsets 3i, 3i+1 and 3i+2, as
   * written: offset 3i+1 weighted 77, offset 3i+2 weighted 150, offset 3i
   * weighted 29. `>> 8` of the non-negative sum is division by 256.
   */
  function GrayOfTriple(c0: JByte, c1: JByte, c2: JByte): (v: int)
    ensures 0 <= v < 256
    ensures Min3(Unsigned(c0), Unsigned(c1), Unsigned(c2)) <= v
    ensures v <= Max3(Unsigned(c0), Unsigned(c1), Unsigned(c2))
  {
    var s := 77 * Unsigned(c1) + 150 * Unsigned(c2) + 29 * Unsigned(c0);
    var lo := Min3(Unsigned(c0), Unsigned(c1), Unsigned(c2));
    var hi := Max3(Unsigned(c0), Unsigned(c1), Unsigned(c2));
    assert 256 * lo <= s <= 256 * hi;
    DivBetween(s, lo, hi);
    s / 256
  }

  lemma DivBetween(s: int, lo: int, hi: int)
    requires 256 * lo <= s <= 256 * hi
    ensures lo <= s / 256 <= hi
  {
  }

  /** The gray plane of the first `n` pixels of a 3-bytes-per-pixel buffer. */
  function GrayPlane(bgr: seq<JByte>, n: nat): (g: seq<JByte>)
    requires 3 * n <= |bgr|
    ensures |g| == n
    ensures forall i :: 0 <= i < n ==>
              Unsigned(g[i]) == GrayOfTriple(bgr[3 * i], bgr[3 * i + 1], bgr[3 * i + 2])
    ensures forall i :: 0 <= i < n ==>
              g[i] == ToJByte(GrayOfTriple(bgr[3 * i], bgr[3 * i + 1], bgr[3 * i + 2]))
  {
    var g := seq(n, i requires 0 <= i < n => ToJByte(GrayOfTriple(bgr[3 * i], bgr[3 * i + 1], bgr[3 * i + 2])));
    forall i | 0 <= i < n
      ensures Unsigned(g[i]) == GrayOfTriple(bgr[3 * i], bgr[3 * i + 1], bgr[3 * i + 2])
    {
      GrayByteReadsBack(bgr[3 * i], bgr[3 * i + 1], bgr[3 * i + 2]);
    }
    g
  }

  /** The stored gray byte reads back, unsigned, as the luma it was cast from. */
  lemma GrayByteReadsBack(c0: JByte, c1: JByte, c2: JByte)
    ensures Unsigned(ToJByte(GrayOfTriple(c0, c1, c2))) == GrayOfTriple(c0, c1, c2)
  {
    UnsignedToJByte(GrayOfTriple(c0, c1, c2));
  }

  /** A pixel whose three channels hold the same value keeps that value. */
  lemma GrayOfUniformPixel(c: JByte)
    ensures GrayOfTriple(c, c, c) == Unsigned(c)
  {
    var u := Unsigned(c);
    assert 77 * u + 150 * u + 29 * u == 256 * u;
  }

  /**
   * `convertBgrByteArrayToGrayscaleByteArray`: checks the output length, then
   * the input length, then writes `output[0 .. width*height)` and nothing else.
   */
  method ConvertBgrToGrayscale(input: array<JByte>, width: nat, height: nat, output: array<JByte>)
    returns (r: Result<()>)
    requires input != output
    modifies output
    ensures output.Length < width * height ==>
              r == Fail(OutputBufferTooSmall) && output[..] == old(output[..])
    ensures width * height <= output.Length && input.Length < 3 * (width * height) ==>
              r == Fail(InputBufferTooSmall) && output[..] == old(output[..])
    ensures width * height <= output.Length && 3 * (width * height) <= input.Length ==>
              && r == Ok(())
              && output[..] == GrayPlane(input[..], width * height) + old(output[width * height..])
  {
    var n := width * height;
    if output.Length < n {
      return Fail(OutputBufferTooSmall);
    }
    if input.Length < n * 3 {
      return Fail(InputBufferTooSmall);
    }
    ghost var plane := GrayPlane(input[..], n);
    var i := 0;
    while i < n
      invariant 0 <= i <= n
      invariant forall k :: 0 <= k < i ==> output[k] == plane[k]
      invariant forall k :: i <= k < output.Length ==> output[k] == old(output[k])
    {
      var base := i * 3;
      var c0 := input[base];
      var c1 := input[base + 1];
      var c2 := input[base + 2];
      var gray := (77 * Unsigned(c1) + 150 * Unsigned(c2) + 29 * Unsigned(c0)) / 256;
      assert gray == GrayOfTriple(c0, c1, c2);
      output[i] := ToJByte(gray);
      i := i + 1;
    }
    assert output[..] == plane + old(output[n..]);
    return Ok(());
  }

  // Saturated single-channel pixels in the BGR layout the callers pass in:
  // offset 0 is blue, offset 1 green, offset 2 red.

  /** As written, a saturated red pixel comes out brighter than a saturated green one. */
  lemma RedOutweighsGreenAsWritten()
    ensures GrayOfTriple(0, 0, ToJByte(255)) == 149
    ensures GrayOfTriple(0, ToJByte(255), 0) == 76
  {
    UnsignedToJByte(255);
  }

  /** ITU-R BT.601 luma in fixed point: red weighted 77, green 150, blue 29. */
  function Luma(blue: JByte, green: JByte, red: JByte): (v: int)
    ensures 0 <= v < 256
    ensures Min3(Unsigned(blue), Unsigned(green), Unsigned(red)) <= v
    ensures v <= Max3(Unsigned(blue), Unsigned(green), Unsigned(red))
  {
    var s := 77 * Unsigned(red) + 150 * Unsigned(green) + 29 * Unsigned(blue);
    var lo := Min3(Unsigned(blue), Unsigned(green), Unsigned(red));
    var hi := Max3(Unsigned(blue), Unsigned(green), Unsigned(red));
    assert 256 * lo <= s <= 256 * hi;
    DivBetween(s, lo, hi);
    s / 256
  }

  /** With the weights on their channels, green is brightest, then red, then blue. */
  lemma LumaOrdersPrimaries()
    ensures Luma(0, ToJByte(255), 0) == 149
    ensures Luma(0, 0, ToJByte(255)) == 76
    ensures Luma(ToJByte(255), 0, 0) == 28
  {
    UnsignedToJByte(255);
  }

  /** The loop as written computes `Luma` with the red and green bytes exchanged. */
  lemma GrayOfTripleSwapsRedAndGreen(c0: JByte, c1: JByte, c2: JByte)
    ensures GrayOfTriple(c0, c1, c2) == Luma(c0, c2, c1)
  {
  }
}
