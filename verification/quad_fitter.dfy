/**
 * `AprilTagQuadrilateralFitter`: the size guards around the polygon
 * simplification and the quadrant-based ordering of four corners into the
 * slots top-left, top-right, bottom-right, bottom-left.
 */
module QuadrilateralFitter {
  import opened Base
  import opened Geometry

  const TopLeft := 0
  const TopRight := 1
  const BottomRight := 2
  const BottomLeft := 3

  /**
   * The slot a corner is classified into, against the centroid `(sx/4, sy/4)`:
   * "left" is `x < sx/4.0`, which is `4*x < sx` exactly, and "top" likewise,
   * so ties fall to the right and to the bottom.
   */
  function Slot(p: PixelCoordinate, sx: int, sy: int): (s: int)
    ensures 0 <= s < 4
    ensures s == TopLeft <==> 4 * p.x < sx && 4 * p.y < sy
    ensures s == TopRight <==> 4 * p.x >= sx && 4 * p.y < sy
    ensures s == BottomRight <==> 4 * p.x >= sx && 4 * p.y >= sy
    ensures s == BottomLeft <==> 4 * p.x < sx && 4 * p.y >= sy
  {
    var isLeft := 4 * p.x < sx;
    var isTop := 4 * p.y < sy;
    if isLeft && isTop then TopLeft
    else if !isLeft && isTop then TopRight
    else if !isLeft && !isTop then BottomRight
    else BottomLeft
  }

  /** The coordinate-wise sum of `ps`, accumulated left to right. */
  function Sums(ps: seq<PixelCoordinate>): PixelCoordinate {
    if |ps| == 0 then PixelCoordinate(0, 0)
    else
      var init := Sums(ps[..|ps| - 1]);
      PixelCoordinate(init.x + ps[|ps| - 1].x, init.y + ps[|ps| - 1].y)
  }

  lemma {:induction false} SumsAppend(ps: seq<PixelCoordinate>, qs: seq<PixelCoordinate>)
    ensures Sums(ps + qs).x == Sums(ps).x + Sums(qs).x
    ensures Sums(ps + qs).y == Sums(ps).y + Sums(qs).y
  {
    if |qs| == 0 {
      assert ps + qs == ps;
    } else {
      var q' := qs[..|qs| - 1];
      assert (ps + qs)[..|ps + qs| - 1] == ps + q';
      SumsAppend(ps, q');
    }
  }

  /** Reordering the corners does not change their sum. */
  lemma {:induction false} SumsOfPermutation(ps: seq<PixelCoordinate>, qs: seq<PixelCoordinate>)
    requires multiset(ps) == multiset(qs)
    ensures Sums(ps) == Sums(qs)
  {
    if |ps| == 0 {
      assert |qs| == |multiset(qs)| == 0;
    } else {
      var n := |ps|;
      var last := ps[n - 1];
      assert last in multiset(qs) by {
        assert last in multiset(ps);
      }
      var k :| 0 <= k < |qs| && qs[k] == last;
      var rest := qs[..k] + qs[k + 1..];
      RemoveBoth(ps, qs, k);
      SumsOfPermutation(ps[..n - 1], rest);
      SumsWithout(qs, k);
    }
  }

  /** Taking the last element of `ps` and an equal element of `qs` away keeps the multisets equal. */
  lemma RemoveBoth(ps: seq<PixelCoordinate>, qs: seq<PixelCoordinate>, k: int)
    requires multiset(ps) == multiset(qs) && |ps| > 0
    requires 0 <= k < |qs| && qs[k] == ps[|ps| - 1]
    ensures multiset(ps[..|ps| - 1]) == multiset(qs[..k] + qs[k + 1..])
  {
    var last := ps[|ps| - 1];
    assert ps == ps[..|ps| - 1] + [last];
    assert qs == qs[..k] + [last] + qs[k + 1..];
    assert multiset(ps[..|ps| - 1]) == multiset(ps) - multiset{last};
    assert multiset(qs[..k] + qs[k + 1..]) == multiset(qs) - multiset{last};
  }

  /** The sum with element `k` taken out, plus that element, is the whole sum. */
  lemma SumsWithout(qs: seq<PixelCoordinate>, k: int)
    requires 0 <= k < |qs|
    ensures Sums(qs).x == Sums(qs[..k] + qs[k + 1..]).x + qs[k].x
    ensures Sums(qs).y == Sums(qs[..k] + qs[k + 1..]).y + qs[k].y
  {
    SplitAt(qs, k);
    SumsAround(qs[..k], qs[k], qs[k + 1..]);
  }

  /** A sequence is what comes before position `k`, the element there, and what comes after. */
  lemma SplitAt(qs: seq<PixelCoordinate>, k: int)
    requires 0 <= k < |qs|
    ensures qs == qs[..k] + ([qs[k]] + qs[k + 1..])
  {
    assert qs[k..] == [qs[k]] + qs[k + 1..];
    assert qs == qs[..k] + qs[k..];
  }

  /** Taking `p` out from between `before` and `after` takes it out of the sum. */
  lemma SumsAround(before: seq<PixelCoordinate>, p: PixelCoordinate, after: seq<PixelCoordinate>)
    ensures Sums(before + ([p] + after)).x == Sums(before + after).x + p.x
    ensures Sums(before + ([p] + after)).y == Sums(before + after).y + p.y
  {
    assert before + ([p] + after) == (before + [p]) + after;
    SumsAppend(before + [p], after);
    SumsAppend(before, after);
    assert (before + [p])[..|before|] == before;
  }

  /** The sum of four corners, written out. */
  lemma SumsOfFour(ps: seq<PixelCoordinate>)
    requires |ps| == 4
    ensures Sums(ps) == PixelCoordinate(ps[0].x + ps[1].x + ps[2].x + ps[3].x,
                                        ps[0].y + ps[1].y + ps[2].y + ps[3].y)
  {
    assert Sums(ps[..1]) == PixelCoordinate(ps[0].x, ps[0].y) by {
      assert ps[..1][..0] == [];
    }
    assert Sums(ps[..2]) == PixelCoordinate(ps[0].x + ps[1].x, ps[0].y + ps[1].y) by {
      assert ps[..2][..1] == ps[..1];
    }
    assert Sums(ps[..3]) == PixelCoordinate(ps[0].x + ps[1].x + ps[2].x, ps[0].y + ps[1].y + ps[2].y) by {
      assert ps[..3][..2] == ps[..2];
    }
    assert ps[..4][..3] == ps[..3];
    assert ps[..4] == ps;
  }

  /** The last corner of `ps` that falls into slot `s`, if any: later corners overwrite earlier ones. */
  function LastInSlot(ps: seq<PixelCoordinate>, sx: int, sy: int, s: int): (r: Option<PixelCoordinate>)
    ensures r.Some? ==> Slot(r.value, sx, sy) == s
  {
    if |ps| == 0 then None
    else if Slot(ps[|ps| - 1], sx, sy) == s then Some(ps[|ps| - 1])
    else LastInSlot(ps[..|ps| - 1], sx, sy, s)
  }

  /**
   * The slot is empty exactly when no corner falls into it; otherwise it
   * holds a corner of `ps`, and every other corner of that slot comes before
   * an occurrence of the one it holds.
   */
  lemma {:induction false} LastInSlotIsLast(ps: seq<PixelCoordinate>, sx: int, sy: int, s: int)
    ensures LastInSlot(ps, sx, sy, s).None? <==> forall i :: 0 <= i < |ps| ==> Slot(ps[i], sx, sy) != s
    ensures LastInSlot(ps, sx, sy, s).Some? ==> LastInSlot(ps, sx, sy, s).value in ps
    ensures LastInSlot(ps, sx, sy, s).Some? ==> forall j :: 0 <= j < |ps| && ps[j] != LastInSlot(ps, sx, sy, s).value ==>
              Slot(ps[j], sx, sy) != s || exists i :: j < i < |ps| && ps[i] == LastInSlot(ps, sx, sy, s).value
  {
    if |ps| > 0 && Slot(ps[|ps| - 1], sx, sy) != s {
      var init := ps[..|ps| - 1];
      LastInSlotIsLast(init, sx, sy, s);
      assert forall i :: 0 <= i < |init| ==> init[i] == ps[i];
      var r := LastInSlot(ps, sx, sy, s);
      if r.Some? {
        var i :| 0 <= i < |init| && init[i] == r.value;
        assert ps[i] == r.value;
      }
    }
  }

  /** One more corner either takes the slot or leaves it as it was. */
  lemma LastInSlotAppend(ps: seq<PixelCoordinate>, p: PixelCoordinate, sx: int, sy: int, s: int)
    ensures LastInSlot(ps + [p], sx, sy, s) == if Slot(p, sx, sy) == s then Some(p) else LastInSlot(ps, sx, sy, s)
  {
    assert (ps + [p])[..|ps|] == ps;
  }

  /** The four slots filled from the four corners `ps`. */
  function OrderedCorners(ps: seq<PixelCoordinate>): (r: seq<Option<PixelCoordinate>>)
    requires |ps| == 4
    ensures |r| == 4
  {
    var sx, sy := Sums(ps).x, Sums(ps).y;
    [LastInSlot(ps, sx, sy, TopLeft), LastInSlot(ps, sx, sy, TopRight),
     LastInSlot(ps, sx, sy, BottomRight), LastInSlot(ps, sx, sy, BottomLeft)]
  }

  /**
   * `orderQuadrilateralCornersClockwise`: an array whose length is not 4 comes
   * back as it is; four corners are summed, classified one by one into four
   * slot variables (a later corner in a slot replacing an earlier one), and
   * the slots are returned in the order TL, TR, BR, BL. `None` is `null`.
   */
  method OrderQuadrilateralCornersClockwise(corners: seq<PixelCoordinate>)
    returns (ordered: seq<Option<PixelCoordinate>>)
    ensures |corners| != 4 ==>
              |ordered| == |corners| && forall i :: 0 <= i < |corners| ==> ordered[i] == Some(corners[i])
    ensures |corners| == 4 ==> ordered == OrderedCorners(corners)
  {
    if |corners| != 4 {
      return seq(|corners|, i requires 0 <= i < |corners| => Some(corners[i]));
    }
    var sumX, sumY := 0, 0;
    var k := 0;
    while k < 4
      invariant 0 <= k <= 4
      invariant sumX == Sums(corners[..k]).x && sumY == Sums(corners[..k]).y
    {
      assert corners[..k + 1][..k] == corners[..k];
      sumX := sumX + corners[k].x;
      sumY := sumY + corners[k].y;
      k := k + 1;
    }
    assert corners[..4] == corners;

    var topLeft: Option<PixelCoordinate> := None;
    var topRight: Option<PixelCoordinate> := None;
    var bottomRight: Option<PixelCoordinate> := None;
    var bottomLeft: Option<PixelCoordinate> := None;
    k := 0;
    while k < 4
      invariant 0 <= k <= 4
      invariant topLeft == LastInSlot(corners[..k], sumX, sumY, TopLeft)
      invariant topRight == LastInSlot(corners[..k], sumX, sumY, TopRight)
      invariant bottomRight == LastInSlot(corners[..k], sumX, sumY, BottomRight)
      invariant bottomLeft == LastInSlot(corners[..k], sumX, sumY, BottomLeft)
    {
      var p := corners[k];
      assert corners[..k + 1] == corners[..k] + [p];
      LastInSlotAppend(corners[..k], p, sumX, sumY, TopLeft);
      LastInSlotAppend(corners[..k], p, sumX, sumY, TopRight);
      LastInSlotAppend(corners[..k], p, sumX, sumY, BottomRight);
      LastInSlotAppend(corners[..k], p, sumX, sumY, BottomLeft);
      var isLeft := 4 * p.x < sumX;
      var isTop := 4 * p.y < sumY;
      if isLeft && isTop {
        topLeft := Some(p);
      } else if !isLeft && isTop {
        topRight := Some(p);
      } else if !isLeft && !isTop {
        bottomRight := Some(p);
      } else {
        bottomLeft := Some(p);
      }
      k := k + 1;
    }
    ordered := [topLeft, topRight, bottomRight, bottomLeft];
  }

  /**
   * Every filled slot holds one of the input corners, of that slot's
   * quadrant, and a slot is empty exactly when no corner falls into it.
   */
  lemma OrderedCornersComeFromInput(ps: seq<PixelCoordinate>, s: int)
    requires |ps| == 4 && 0 <= s < 4
    ensures OrderedCorners(ps)[s].Some? ==>
              OrderedCorners(ps)[s].value in ps &&
              Slot(OrderedCorners(ps)[s].value, Sums(ps).x, Sums(ps).y) == s
    ensures OrderedCorners(ps)[s].None? <==>
              forall i :: 0 <= i < 4 ==> Slot(ps[i], Sums(ps).x, Sums(ps).y) != s
  {
    assert OrderedCorners(ps)[s] == LastInSlot(ps, Sums(ps).x, Sums(ps).y, s);
    LastInSlotIsLast(ps, Sums(ps).x, Sums(ps).y, s);
  }

  /** A corner alone in its quadrant is the one its slot holds. */
  lemma LoneCornerFillsItsSlot(ps: seq<PixelCoordinate>, i: int)
    requires |ps| == 4 && 0 <= i < 4
    requires forall j :: 0 <= j < 4 && j != i ==>
               Slot(ps[j], Sums(ps).x, Sums(ps).y) != Slot(ps[i], Sums(ps).x, Sums(ps).y)
    ensures OrderedCorners(ps)[Slot(ps[i], Sums(ps).x, Sums(ps).y)] == Some(ps[i])
  {
    var sx, sy := Sums(ps).x, Sums(ps).y;
    var s := Slot(ps[i], sx, sy);
    assert OrderedCorners(ps)[s] == LastInSlot(ps, sx, sy, s);
    LastInSlotIsLast(ps, sx, sy, s);
  }

  /** The four corners of the axis-aligned square from (10,10) to (110,110), clockwise from top-left. */
  function Square(): seq<PixelCoordinate> {
    [PixelCoordinate(10, 10), PixelCoordinate(110, 10), PixelCoordinate(110, 110), PixelCoordinate(10, 110)]
  }

  /** A reordering of four distinct corners holds each of them exactly once. */
  lemma ReorderingOfFour(ps: seq<PixelCoordinate>, qs: seq<PixelCoordinate>)
    requires |qs| == 4 && forall i, j :: 0 <= i < j < 4 ==> qs[i] != qs[j]
    requires multiset(ps) == multiset(qs)
    ensures |ps| == 4
    ensures forall i :: 0 <= i < 4 ==> ps[i] in qs
    ensures forall i, j :: 0 <= i < j < 4 ==> ps[i] != ps[j]
    ensures forall j :: 0 <= j < 4 ==> qs[j] in ps
  {
    assert |ps| == |multiset(ps)| == |multiset(qs)| == 4;
    forall i | 0 <= i < 4
      ensures ps[i] in qs
    {
      assert ps[i] in multiset(ps);
    }
    forall j | 0 <= j < 4
      ensures qs[j] in ps
    {
      assert qs[j] in multiset(qs);
    }
    forall i, j | 0 <= i < j < 4
      ensures ps[i] != ps[j]
    {
      NoRepeatInReordering(ps, qs, i, j);
    }
  }

  lemma NoRepeatInReordering(ps: seq<PixelCoordinate>, qs: seq<PixelCoordinate>, i: int, j: int)
    requires |qs| == 4 && forall i, j :: 0 <= i < j < 4 ==> qs[i] != qs[j]
    requires multiset(ps) == multiset(qs) && |ps| == 4
    requires 0 <= i < j < 4
    ensures ps[i] != ps[j]
  {
    RepeatCountsTwice(ps, i, j);
    DistinctCountsOnce(qs, ps[j]);
  }

  lemma RepeatCountsTwice(ps: seq<PixelCoordinate>, i: int, j: int)
    requires 0 <= i < j < |ps|
    ensures ps[i] == ps[j] ==> multiset(ps)[ps[j]] >= 2
  {
    var v := ps[j];
    assert ps == ps[..j] + [v] + ps[j + 1..];
    assert ps[..j][i] == ps[i];
    assert multiset(ps)[v] == multiset(ps[..j])[v] + 1 + multiset(ps[j + 1..])[v];
  }

  lemma DistinctCountsOnce(qs: seq<PixelCoordinate>, v: PixelCoordinate)
    requires forall i, j :: 0 <= i < j < |qs| ==> qs[i] != qs[j]
    ensures multiset(qs)[v] <= 1
  {
    if v in qs {
      var k :| 0 <= k < |qs| && qs[k] == v;
      assert qs == qs[..k] + [v] + qs[k + 1..];
      assert v !in qs[..k] && v !in qs[k + 1..];
      assert multiset(qs)[v] == multiset(qs[..k])[v] + 1 + multiset(qs[k + 1..])[v];
    }
  }

  /** Each corner of the square lies in the slot of its own position. */
  lemma SquareSlots()
    ensures forall t :: 0 <= t < 4 ==> Slot(Square()[t], 240, 240) == t
  {
    var sq := Square();
    assert Slot(sq[0], 240, 240) == TopLeft;
    assert Slot(sq[1], 240, 240) == TopRight;
    assert Slot(sq[2], 240, 240) == BottomRight;
    assert Slot(sq[3], 240, 240) == BottomLeft;
  }

  /** In a reordering of the square, corner `s` of the square is alone in slot `s`. */
  lemma SquareCornerFillsItsSlot(ps: seq<PixelCoordinate>, s: int)
    requires |ps| == 4 && Sums(ps) == PixelCoordinate(240, 240) && 0 <= s < 4
    requires forall i :: 0 <= i < 4 ==> ps[i] in Square()
    requires forall i, j :: 0 <= i < j < 4 ==> ps[i] != ps[j]
    requires forall j :: 0 <= j < 4 ==> Square()[j] in ps
    ensures OrderedCorners(ps)[s] == Some(Square()[s])
  {
    var sq := Square();
    SquareSlots();
    var i :| 0 <= i < 4 && ps[i] == sq[s];
    forall j | 0 <= j < 4 && j != i
      ensures Slot(ps[j], 240, 240) != s
    {
      var t :| 0 <= t < 4 && sq[t] == ps[j];
    }
    LoneCornerFillsItsSlot(ps, i);
  }

  /**
   * The corners (10,10), (110,10), (110,110), (10,110), given in any order,
   * come out as top-left, top-right, bottom-right, bottom-left.
   */
  lemma AxisAlignedSquareInAnyOrder(ps: seq<PixelCoordinate>)
    requires multiset(ps) == multiset(Square())
    ensures |ps| == 4
    ensures OrderedCorners(ps) == [Some(Square()[0]), Some(Square()[1]), Some(Square()[2]), Some(Square()[3])]
  {
    var sq := Square();
    ReorderingOfFour(ps, sq);
    SumsOfPermutation(ps, sq);
    SumsOfFour(sq);
    assert Sums(ps) == PixelCoordinate(240, 240);
    SquareCornerFillsItsSlot(ps, 0);
    SquareCornerFillsItsSlot(ps, 1);
    SquareCornerFillsItsSlot(ps, 2);
    SquareCornerFillsItsSlot(ps, 3);
  }

  /** A square standing on a corner, its corners listed clockwise from the top. */
  function Diamond(): seq<PixelCoordinate> {
    [PixelCoordinate(50, 0), PixelCoordinate(100, 50), PixelCoordinate(50, 100), PixelCoordinate(0, 50)]
  }

  /**
   * A diamond has one corner on each centroid line: (50,0) ties on x and goes
   * to the right, (50,100) overwrites (100,50) in the bottom-right slot, and
   * the top-left slot stays empty.
   */
  lemma DiamondLeavesTopLeftEmpty()
    ensures OrderedCorners(Diamond()) ==
            [None, Some(PixelCoordinate(50, 0)), Some(PixelCoordinate(50, 100)), Some(PixelCoordinate(0, 50))]
  {
    var ps := Diamond();
    SumsOfFour(ps);
    LastInSlotIsLast(ps, 200, 200, TopLeft);
    assert LastInSlot(ps, 200, 200, TopLeft) == None;
    var first := [ps[0]];
    var firstTwo := first + [ps[1]];
    var firstThree := firstTwo + [ps[2]];
    assert ps == firstThree + [ps[3]];
    LastInSlotAppend(firstThree, ps[3], 200, 200, TopRight);
    LastInSlotAppend(firstTwo, ps[2], 200, 200, TopRight);
    LastInSlotAppend(first, ps[1], 200, 200, TopRight);
    LastInSlotAppend(firstThree, ps[3], 200, 200, BottomRight);
    LastInSlotAppend(firstTwo, ps[2], 200, 200, BottomRight);
    LastInSlotAppend(firstThree, ps[3], 200, 200, BottomLeft);
  }

  /**
   * `calculateQuadrilateralCornerArrayFromConvexHullPixelCoordinateList`. The
   * simplified polygon `approx` (the rounded output of OpenCV's polygon
   * approximation of the hull) is an input. Fewer than four hull points, or a
   * polygon that does not have exactly four vertices, give `null`.
   */
  method CalculateQuadrilateralCorners(hull: seq<PixelCoordinate>, approx: seq<PixelCoordinate>)
    returns (corners: Option<seq<Option<PixelCoordinate>>>)
    ensures |hull| < 4 ==> corners == None
    ensures |hull| >= 4 && |approx| != 4 ==> corners == None
    ensures |hull| >= 4 && |approx| == 4 ==> corners == Some(OrderedCorners(approx))
  {
    if |hull| < 4 {
      return None;
    }
    if |approx| != 4 {
      return None;
    }
    var ordered := OrderQuadrilateralCornersClockwise(approx);
    return Some(ordered);
  }
}
