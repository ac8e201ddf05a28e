/**
 * Java scalar types used by the pipeline and the small wrappers shared by
 * every module: signed bytes and shorts with their wrapping casts, the
 * 32-bit integer range, an option type standing for a nullable reference,
 * and the exceptions the core throws.
 */
module Base {

  /** Java `byte`: a signed 8-bit value. */
  newtype JByte = b: int | -128 <= b < 128

  /** Java `short`: a signed 16-bit value. */
  newtype JShort = s: int | -32768 <= s < 32768

  const IntMin: int := -0x8000_0000
  const IntMax: int := 0x7fff_ffff

  /** A value that may be absent; `None` stands for a Java `null`. */
  datatype Option<T> = None | Some(value: T)

  /** The exceptions the core can raise, one per cause. */
  datatype Error =
    | FrameSizeMismatch       // IllegalArgumentException: input Mat size (or type) differs from the configured one
    | OutputBufferTooSmall    // IllegalArgumentException: grayscale output array shorter than width*height
    | InputBufferTooSmall     // IllegalArgumentException: BGR input array shorter than 3*width*height
    | NullCornerDereference   // NullPointerException: a null entry of a quadrilateral corner array is read

  /** A call that either returns normally with a value or throws. */
  datatype Result<T> = Ok(value: T) | Fail(error: Error)

  /** `b & 0xFF`: the unsigned reading of a byte. */
  function Unsigned(b: JByte): (u: int)
    ensures 0 <= u < 256
    ensures b >= 0 ==> u == b as int
    ensures b < 0 ==> u == b as int + 256
  {
    if b < 0 then b as int + 256 else b as int
  }

  /** `(byte) v`: keeps the low 8 bits of `v` as a signed value. */
  function ToJByte(v: int): (b: JByte)
    ensures (b as int - v) % 256 == 0
  {
    ((v + 128) % 256 - 128) as JByte
  }

  /** `(short) v`: keeps the low 16 bits of `v` as a signed value. */
  function ToJShort(v: int): (s: JShort)
    ensures (s as int - v) % 65536 == 0
  {
    ((v + 32768) % 65536 - 32768) as JShort
  }

  /** The `int` result of a Java `int` operation whose exact value is `v`. */
  function Wrap32(v: int): (r: int)
    ensures IntMin <= r <= IntMax
    ensures (r - v) % 0x1_0000_0000 == 0
  {
    (v + 0x8000_0000) % 0x1_0000_0000 - 0x8000_0000
  }

  /** A byte cast of an unsigned value in 0..255 loses nothing. */
  lemma UnsignedToJByte(v: int)
    requires 0 <= v < 256
    ensures Unsigned(ToJByte(v)) == v
  {
    if v < 128 {
      assert (v + 128) % 256 == v + 128;
    } else {
      assert (v + 128) % 256 == v - 128;
    }
  }

  /** A short cast of a value in the short range loses nothing. */
  lemma ToJShortExact(v: int)
    requires -32768 <= v < 32768
    ensures ToJShort(v) as int == v
  {
    assert (v + 32768) % 65536 == v + 32768;
  }

  /** A value already in the `int` range is not changed by wrapping. */
  lemma Wrap32Exact(v: int)
    requires IntMin <= v <= IntMax
    ensures Wrap32(v) == v
  {
    assert (v + 0x8000_0000) % 0x1_0000_0000 == v + 0x8000_0000;
  }

  function Abs(v: int): (r: int)
    ensures r >= 0 && (r == v || r == -v)
  {
    if v < 0 then -v else v
  }
}
