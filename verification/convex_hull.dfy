/**
 * `AprilTagConvexHullCalculator`: Andrew's monotone chain. The points are
 * sorted by x and then y; a lower and an upper chain are grown point by point,
 * popping the last point while it does not make a strict left turn; the two
 * chains, each without its last point, are concatenated.
 */
module ConvexHull {
  import opened Base
  import opened Geometry
  import opened Components

  /** The comparator of the sort: by x, then by y. */
  predicate LexLe(p: PixelCoordinate, q: PixelCoordinate) {
    p.x < q.x || (p.x == q.x && p.y <= q.y)
  }

  predicate LexSorted(s: seq<PixelCoordinate>) {
    forall i, j :: 0 <= i < j < |s| ==> LexLe(s[i], s[j])
  }

  /** `p` inserted into the sorted `s` before the first element above it. */
  function InsertLex(p: PixelCoordinate, s: seq<PixelCoordinate>): (r: seq<PixelCoordinate>)
    requires LexSorted(s)
    ensures LexSorted(r)
    ensures multiset(r) == multiset(s) + multiset{p}
  {
    if |s| == 0 then [p]
    else if LexLe(p, s[0]) then [p] + s
    else
      var rest := InsertLex(p, s[1..]);
      assert s == [s[0]] + s[1..];
      LowerBoundOfInsert(s[0], p, s[1..], rest);
      ConsSorted(s[0], rest);
      [s[0]] + rest
  }

  /** A lower bound of `p` and of every element of `s` bounds any permutation of `s` plus `p`. */
  lemma LowerBoundOfInsert(a: PixelCoordinate, p: PixelCoordinate, s: seq<PixelCoordinate>, r: seq<PixelCoordinate>)
    requires multiset(r) == multiset(s) + multiset{p}
    requires LexLe(a, p) && forall j :: 0 <= j < |s| ==> LexLe(a, s[j])
    ensures forall k :: 0 <= k < |r| ==> LexLe(a, r[k])
  {
    forall k | 0 <= k < |r|
      ensures LexLe(a, r[k])
    {
      assert r[k] in multiset(r);
      if r[k] != p {
        assert r[k] in multiset(s);
        var j :| 0 <= j < |s| && s[j] == r[k];
      }
    }
  }

  /** A sorted sequence stays sorted behind an element no greater than any of it. */
  lemma ConsSorted(a: PixelCoordinate, s: seq<PixelCoordinate>)
    requires LexSorted(s) && forall k :: 0 <= k < |s| ==> LexLe(a, s[k])
    ensures LexSorted([a] + s)
  {
    forall i, j | 0 <= i < j < |[a] + s|
      ensures LexLe(([a] + s)[i], ([a] + s)[j])
    {
      if i > 0 {
        assert ([a] + s)[i] == s[i - 1];
      }
      assert ([a] + s)[j] == s[j - 1];
    }
  }

  /**
   * `Collections.sort` with the (x, y) comparator: the sorted permutation of
   * the input. Lexicographic order is total on coordinates, so this is the
   * only ordering the sort can produce.
   */
  function SortLex(s: seq<PixelCoordinate>): (r: seq<PixelCoordinate>)
    ensures LexSorted(r)
    ensures multiset(r) == multiset(s)
    ensures |r| == |s|
  {
    if |s| == 0 then []
    else
      assert s == [s[0]] + s[1..];
      InsertLex(s[0], SortLex(s[1..]))
  }

  /** The exact orientation of `(o, a, b)`: positive for a counter-clockwise turn. */
  function Cross(o: PixelCoordinate, a: PixelCoordinate, b: PixelCoordinate): int {
    (a.x - o.x) * (b.y - o.y) - (a.y - o.y) * (b.x - o.x)
  }

  /**
   * `calculateCrossProductValue`: each difference is an `int` subtraction
   * (which wraps) widened to `long`; the products and their difference are
   * `long` arithmetic, which never leaves the `long` range for `int` factors.
   */
  function CrossProductValue(o: PixelCoordinate, a: PixelCoordinate, b: PixelCoordinate): (v: int)
    ensures -0x8000_0000_0000_0000 <= v < 0x8000_0000_0000_0000
  {
    var ax := Wrap32(a.x - o.x);
    var ay := Wrap32(a.y - o.y);
    var bx := Wrap32(b.x - o.x);
    var bY := Wrap32(b.y - o.y);
    ProductBounds(ax, bY);
    ProductBounds(ay, bx);
    ax * bY - ay * bx
  }

  /** The product of two `int` values lies in `(-2^62, 2^62]`. */
  lemma ProductBounds(a: int, b: int)
    requires IntMin <= a <= IntMax && IntMin <= b <= IntMax
    ensures -0x4000_0000_0000_0000 < a * b <= 0x4000_0000_0000_0000
  {
    var m := 0x8000_0000;
    if a >= 0 && b >= 0 {
      MulLe(a, m - 1, b);
      MulLe(b, m, m - 1);
      assert a * b <= (m - 1) * b <= (m - 1) * m;
    } else if a < 0 && b < 0 {
      MulLe(-a, m, -b);
      MulLe(-b, m, m);
      assert a * b == (-a) * (-b) <= m * (-b) <= m * m;
    } else if a < 0 {
      MulLe(-a, m, b);
      MulLe(b, m - 1, m);
      assert -(a * b) == (-a) * b <= m * b <= m * (m - 1);
    } else {
      MulLe(a, m - 1, -b);
      MulLe(-b, m, m - 1);
      assert -(a * b) == a * (-b) <= (m - 1) * (-b) <= (m - 1) * m;
    }
  }

  lemma MulLe(a: int, b: int, c: int)
    requires 0 <= a <= b && 0 <= c
    ensures a * c <= b * c
  {
    assert b * c - a * c == (b - a) * c;
  }

  /**
   * When the coordinate differences fit in an `int`, as they do for pixels of
   * any frame, the computed value is the exact orientation.
   */
  lemma CrossProductExact(o: PixelCoordinate, a: PixelCoordinate, b: PixelCoordinate)
    requires IntMin <= a.x - o.x <= IntMax && IntMin <= a.y - o.y <= IntMax
    requires IntMin <= b.x - o.x <= IntMax && IntMin <= b.y - o.y <= IntMax
    ensures CrossProductValue(o, a, b) == Cross(o, a, b)
  {
    Wrap32Exact(a.x - o.x);
    Wrap32Exact(a.y - o.y);
    Wrap32Exact(b.x - o.x);
    Wrap32Exact(b.y - o.y);
  }

  /** Every three consecutive points of `chain` make a strict left turn. */
  predicate StrictlyConvexChain(chain: seq<PixelCoordinate>) {
    forall i :: 0 <= i < |chain| - 2 ==> CrossProductValue(chain[i], chain[i + 1], chain[i + 2]) > 0
  }

  /** Coordinates that are non-negative `int`s, as pixel coordinates of a frame are. */
  predicate NonNegativeInts(ps: seq<PixelCoordinate>) {
    forall i :: 0 <= i < |ps| ==> 0 <= ps[i].x <= IntMax && 0 <= ps[i].y <= IntMax
  }

  /** On pixel coordinates, a chain that passes the computed test turns strictly left exactly. */
  lemma ExactLeftTurns(chain: seq<PixelCoordinate>)
    requires StrictlyConvexChain(chain) && NonNegativeInts(chain)
    ensures forall i :: 0 <= i < |chain| - 2 ==> Cross(chain[i], chain[i + 1], chain[i + 2]) > 0
  {
    forall i | 0 <= i < |chain| - 2
      ensures Cross(chain[i], chain[i + 1], chain[i + 2]) > 0
    {
      CrossProductExact(chain[i], chain[i + 1], chain[i + 2]);
    }
  }

  /**
   * Pushes `current` onto `chain` after popping the points that would not make
   * a strict left turn with it: one step of either chain loop.
   */
  method PushWithPops(chain: seq<PixelCoordinate>, current: PixelCoordinate)
    returns (next: seq<PixelCoordinate>)
    requires StrictlyConvexChain(chain)
    ensures StrictlyConvexChain(next)
    ensures |next| >= 1 && next[|next| - 1] == current
    ensures |chain| >= 1 ==> |next| >= 2 && next[0] == chain[0]
    ensures |next| <= |chain| + 1
    ensures next[..|next| - 1] == chain[..|next| - 1]
    ensures forall p :: p in next ==> p in chain || p == current
  {
    next := chain;
    while |next| >= 2
      invariant |next| <= |chain|
      invariant next == chain[..|next|]
      invariant |chain| >= 1 ==> |next| >= 1
      invariant StrictlyConvexChain(next)
      decreases |next|
    {
      var lastIndex := |next| - 1;
      var previous := next[lastIndex - 1];
      var last := next[lastIndex];
      var crossProductValue := CrossProductValue(previous, last, current);
      if crossProductValue <= 0 {
        next := next[..lastIndex];
      } else {
        break;
      }
    }
    next := next + [current];
  }

  /** Sequences with the same multiset hold the same points. */
  lemma SameMembers(a: seq<PixelCoordinate>, b: seq<PixelCoordinate>)
    requires multiset(a) == multiset(b)
    ensures forall p :: p in a <==> p in b
  {
    forall p
      ensures p in a <==> p in b
    {
      assert p in a <==> p in multiset(a);
      assert p in b <==> p in multiset(b);
    }
  }

  /** In a sorted sequence the first element is least and the last is greatest. */
  lemma SortedEnds(sorted: seq<PixelCoordinate>)
    requires |sorted| >= 1 && LexSorted(sorted)
    ensures forall q :: q in sorted ==> LexLe(sorted[0], q) && LexLe(q, sorted[|sorted| - 1])
  {
    forall q | q in sorted
      ensures LexLe(sorted[0], q) && LexLe(q, sorted[|sorted| - 1])
    {
      var i :| 0 <= i < |sorted| && sorted[i] == q;
      if i > 0 {
        assert LexLe(sorted[0], sorted[i]);
      }
      if i < |sorted| - 1 {
        assert LexLe(sorted[i], sorted[|sorted| - 1]);
      }
    }
  }

  /** The sorted copy holds the input's points, the least first and the greatest last. */
  lemma SortedExtremes(input: seq<PixelCoordinate>, sorted: seq<PixelCoordinate>)
    requires |input| >= 1 && sorted == SortLex(input)
    ensures forall p :: p in sorted <==> p in input
    ensures forall q :: q in input ==> LexLe(sorted[0], q) && LexLe(q, sorted[|sorted| - 1])
  {
    SameMembers(sorted, input);
    SortedEnds(sorted);
  }

  /** The loop over the sorted points in ascending order that builds the lower chain. */
  method LowerChain(sorted: seq<PixelCoordinate>) returns (lower: seq<PixelCoordinate>)
    requires |sorted| >= 2
    ensures StrictlyConvexChain(lower)
    ensures |lower| >= 2 && lower[0] == sorted[0] && lower[|lower| - 1] == sorted[|sorted| - 1]
    ensures forall p :: p in lower ==> p in sorted
  {
    var n := |sorted|;
    lower := [];
    var k := 0;
    while k < n
      invariant 0 <= k <= n
      invariant StrictlyConvexChain(lower)
      invariant k == 0 ==> lower == []
      invariant k >= 1 ==> |lower| >= 1 && lower[0] == sorted[0]
      invariant k >= 2 ==> |lower| >= 2
      invariant k >= 1 ==> lower[|lower| - 1] == sorted[k - 1]
      invariant forall p :: p in lower ==> p in sorted
    {
      var current := sorted[k];
      lower := PushWithPops(lower, current);
      k := k + 1;
    }
  }

  /** The loop over the sorted points in descending order that builds the upper chain. */
  method UpperChain(sorted: seq<PixelCoordinate>) returns (upper: seq<PixelCoordinate>)
    requires |sorted| >= 2
    ensures StrictlyConvexChain(upper)
    ensures |upper| >= 2 && upper[0] == sorted[|sorted| - 1] && upper[|upper| - 1] == sorted[0]
    ensures forall p :: p in upper ==> p in sorted
  {
    var n := |sorted|;
    upper := [];
    var j := n - 1;
    while j >= 0
      invariant -1 <= j <= n - 1
      invariant StrictlyConvexChain(upper)
      invariant j == n - 1 ==> upper == []
      invariant j <= n - 2 ==> |upper| >= 1 && upper[0] == sorted[n - 1]
      invariant j <= n - 3 ==> |upper| >= 2
      invariant j <= n - 2 ==> upper[|upper| - 1] == sorted[j + 1]
      invariant forall p :: p in upper ==> p in sorted
    {
      var current := sorted[j];
      upper := PushWithPops(upper, current);
      j := j - 1;
    }
  }

  /** The hull `CalculateConvexHull` returns for at least two points, with both chains. */
  datatype Chains = Chains(lower: seq<PixelCoordinate>, upper: seq<PixelCoordinate>)

  /**
   * `calculateConvexHullPixelPositionList`. A list of at most one point is
   * returned as it is; otherwise the input is left alone, the result starts
   * with the lexicographically smallest point, contains the largest one, is
   * made of input points only, and both chains turn strictly left throughout.
   */
  method CalculateConvexHull(input: seq<PixelCoordinate>)
    returns (hull: seq<PixelCoordinate>, ghost chains: Chains)
    ensures |input| <= 1 ==> hull == input
    ensures |input| >= 2 ==>
              && |chains.lower| >= 2 && |chains.upper| >= 2
              && hull == chains.lower[..|chains.lower| - 1] + chains.upper[..|chains.upper| - 1]
              && |hull| == |chains.lower| + |chains.upper| - 2
              && StrictlyConvexChain(chains.lower) && StrictlyConvexChain(chains.upper)
    ensures |input| >= 2 ==>
              && hull[0] in input
              && (forall q :: q in input ==> LexLe(hull[0], q))
              && (exists k :: 0 <= k < |hull| && forall q :: q in input ==> LexLe(q, hull[k]))
    ensures forall p :: p in hull ==> p in input
  {
    if |input| <= 1 {
      return input, Chains([], []);
    }
    var sorted := SortLex(input);
    SortedExtremes(input, sorted);
    var n := |sorted|;

    var lower := LowerChain(sorted);
    var upper := UpperChain(sorted);

    hull := lower[..|lower| - 1] + upper[..|upper| - 1];
    chains := Chains(lower, upper);
    JoinedChains(input, sorted, lower, upper);
  }

  /**
   * Joining the chains without their last points keeps the sorted list's
   * first point at the front, keeps its last point, and adds no other point.
   */
  lemma JoinedChains(input: seq<PixelCoordinate>, sorted: seq<PixelCoordinate>,
                     lower: seq<PixelCoordinate>, upper: seq<PixelCoordinate>)
    requires |sorted| >= 2 && (forall p :: p in sorted <==> p in input)
    requires forall q :: q in input ==> LexLe(sorted[0], q) && LexLe(q, sorted[|sorted| - 1])
    requires |lower| >= 2 && lower[0] == sorted[0] && (forall p :: p in lower ==> p in sorted)
    requires |upper| >= 2 && upper[0] == sorted[|sorted| - 1] && (forall p :: p in upper ==> p in sorted)
    ensures var hull := lower[..|lower| - 1] + upper[..|upper| - 1];
            && hull[0] in input
            && (forall q :: q in input ==> LexLe(hull[0], q))
            && (exists k :: 0 <= k < |hull| && forall q :: q in input ==> LexLe(q, hull[k]))
            && (forall p :: p in hull ==> p in input)
  {
    var lowerKept := lower[..|lower| - 1];
    var upperKept := upper[..|upper| - 1];
    var hull := lowerKept + upperKept;
    assert hull[0] == sorted[0];
    assert hull[|lowerKept|] == sorted[|sorted| - 1];
    assert forall p :: p in lowerKept ==> p in lower;
    assert forall p :: p in upperKept ==> p in upper;
  }
}
