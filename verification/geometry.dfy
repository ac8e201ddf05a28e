/**
 * Pixel coordinates and row-major addressing of a width x height frame.
 */
module Geometry {

  /** `PixelCoordinate`: an immutable (x, y) pair in frame space. */
  datatype PixelCoordinate = PixelCoordinate(x: int, y: int)

  predicate InFrame(w: nat, h: nat, p: PixelCoordinate) {
    0 <= p.x < w && 0 <= p.y < h
  }

  /** Two distinct pixels whose coordinates differ by at most one on each axis. */
  predicate Adjacent(p: PixelCoordinate, q: PixelCoordinate) {
    p != q && -1 <= q.x - p.x <= 1 && -1 <= q.y - p.y <= 1
  }

  /** The row-major offset `y * w + x` of an in-frame pixel. */
  function Index(w: nat, h: nat, x: int, y: int): (i: nat)
    requires 0 <= x < w && 0 <= y < h
    ensures i < w * h
    ensures y * w <= i < y * w + w
    ensures i / w == y && i % w == x
  {
    MulMonotone(y + 1, h, w);
    DivModUnique(w, x, y);
    y * w + x
  }

  /** `(y * w + x) / w == y` and `(y * w + x) % w == x` for a column `x` below `w`. */
  lemma DivModUnique(w: nat, x: int, y: int)
    requires 0 <= x < w && 0 <= y
    ensures (y * w + x) / w == y && (y * w + x) % w == x
  {
    var i := y * w + x;
    var q, r := i / w, i % w;
    assert i == q * w + r && 0 <= r < w;
    if q < y {
      MulMonotone(q + 1, y, w);
    } else if y < q {
      MulMonotone(y + 1, q, w);
    }
  }

  lemma MulMonotone(a: int, b: int, w: nat)
    requires a <= b
    ensures a * w <= b * w
  {
    assert b * w - a * w == (b - a) * w;
  }

  /** Distinct in-frame pixels have distinct offsets. */
  lemma IndexInjective(w: nat, h: nat, x1: int, y1: int, x2: int, y2: int)
    requires 0 <= x1 < w && 0 <= y1 < h && 0 <= x2 < w && 0 <= y2 < h
    requires Index(w, h, x1, y1) == Index(w, h, x2, y2)
    ensures x1 == x2 && y1 == y2
  {
    if y1 < y2 {
      MulMonotone(y1 + 1, y2, w);
    } else if y2 < y1 {
      MulMonotone(y2 + 1, y1, w);
    }
  }

  /** All of `IndexInjective` at once, for loops that update one pixel. */
  lemma IndexInjectiveAll(w: nat, h: nat)
    ensures forall x1, y1, x2, y2 ::
              (0 <= x1 < w && 0 <= y1 < h && 0 <= x2 < w && 0 <= y2 < h &&
               Index(w, h, x1, y1) == Index(w, h, x2, y2)) ==> x1 == x2 && y1 == y2
  {
    forall x1, y1, x2, y2 |
      0 <= x1 < w && 0 <= y1 < h && 0 <= x2 < w && 0 <= y2 < h &&
      Index(w, h, x1, y1) == Index(w, h, x2, y2)
      ensures x1 == x2 && y1 == y2
    {
      IndexInjective(w, h, x1, y1, x2, y2);
    }
  }

  /** Every offset below `w * h` is the offset of the in-frame pixel it decodes to. */
  lemma OffsetDecodes(w: nat, h: nat, i: int)
    requires 0 <= i < w * h
    ensures w > 0 && 0 <= i % w < w && 0 <= i / w < h
    ensures Index(w, h, i % w, i / w) == i
  {
    var q, r := i / w, i % w;
    assert i == q * w + r;
    if q >= h {
      MulMonotone(h, q, w);
      assert false;
    }
    if q < 0 {
      MulMonotone(q, -1, w);
      assert false;
    }
  }
}
