/**
 * `AprilTagEdgeComponentExtractor`: 8-connected components of the nonzero
 * pixels of a binary edge frame, found by a raster scan that starts a
 * breadth-first search at every nonzero pixel not yet visited. The search
 * keeps its queue in a reusable `int` array with head and tail indices and
 * marks a pixel visited before enqueuing it.
 */
module ComponentExtraction {
  import opened Base
  import opened Geometry
  import opened Components
  import opened EdgeDetection

  /** Pixel `p` is in the frame and nonzero in the edge bytes `e`. */
  ghost predicate EdgeAt(e: seq<JByte>, w: nat, h: nat, p: PixelCoordinate) {
    InFrame(w, h, p) && |e| == w * h && Unsigned(e[Index(w, h, p.x, p.y)]) != 0
  }

  /** Pixel `p` is in the frame and flagged in the visited flags `v`. */
  ghost predicate Marked(v: seq<bool>, w: nat, h: nat, p: PixelCoordinate) {
    InFrame(w, h, p) && |v| == w * h && v[Index(w, h, p.x, p.y)]
  }

  /** `p` comes strictly before `q` in row-major (raster) order. */
  predicate RasterBefore(p: PixelCoordinate, q: PixelCoordinate) {
    p.y < q.y || (p.y == q.y && p.x < q.x)
  }

  ghost predicate Distinct(ps: seq<PixelCoordinate>) {
    forall i, j :: 0 <= i < j < |ps| ==> ps[i] != ps[j]
  }

  /** Every nonzero 8-neighbour of a pixel of `ps` is in `ps`. */
  ghost predicate SelfClosed(ps: seq<PixelCoordinate>, e: seq<JByte>, w: nat, h: nat) {
    forall p, q :: p in ps && Adjacent(p, q) && EdgeAt(e, w, h, q) ==> q in ps
  }

  /** Every pixel after the first is an 8-neighbour of an earlier one, so all are joined to the first. */
  ghost predicate ChainConnected(ps: seq<PixelCoordinate>) {
    forall i :: 1 <= i < |ps| ==> JoinedEarlier(ps, i)
  }

  /** Pixel `i` of `ps` is an 8-neighbour of a pixel listed before it. */
  ghost predicate JoinedEarlier(ps: seq<PixelCoordinate>, i: nat)
    requires i < |ps|
  {
    exists j :: 0 <= j < i && Adjacent(ps[j], ps[i])
  }

  /** A visited set closed under taking nonzero 8-neighbours. */
  ghost predicate Closed(v: seq<bool>, e: seq<JByte>, w: nat, h: nat) {
    forall p, q :: Marked(v, w, h, p) && Adjacent(p, q) && EdgeAt(e, w, h, q) ==> Marked(v, w, h, q)
  }

  /**
   * What one breadth-first search returns: the record built from its pixel
   * list, whose pixels are distinct nonzero pixels joined to the seed, closed
   * under nonzero 8-neighbours, and none of them before the seed in raster order.
   */
  ghost predicate IsComponent(c: ComponentRecord, e: seq<JByte>, w: nat, h: nat) {
    && |c.pixels| >= 1
    && c == Accumulate(c.pixels)
    && (forall p :: p in c.pixels ==> EdgeAt(e, w, h, p))
    && Distinct(c.pixels)
    && SelfClosed(c.pixels, e, w, h)
    && ChainConnected(c.pixels)
    && (forall p :: p in c.pixels ==> !RasterBefore(p, c.pixels[0]))
  }

  /** The first pixel of `c1` comes before the first pixel of `c2` in raster order. */
  ghost predicate StartsBefore(c1: ComponentRecord, c2: ComponentRecord) {
    |c1.pixels| >= 1 && |c2.pixels| >= 1 && RasterBefore(c1.pixels[0], c2.pixels[0])
  }

  /**
   * The result of the extraction: components in the order of their first
   * pixel, pairwise disjoint, covering every nonzero pixel.
   */
  ghost predicate ExactComponents(cs: seq<ComponentRecord>, e: seq<JByte>, w: nat, h: nat) {
    && (forall k :: 0 <= k < |cs| ==> IsComponent(cs[k], e, w, h))
    && (forall k1, k2, p :: 0 <= k1 < k2 < |cs| && p in cs[k1].pixels ==> p !in cs[k2].pixels)
    && (forall p :: EdgeAt(e, w, h, p) ==> exists k :: 0 <= k < |cs| && p in cs[k].pixels)
    && (forall k1, k2 :: 0 <= k1 < k2 < |cs| ==> StartsBefore(cs[k1], cs[k2]))
  }

  // ---------------------------------------------------------------------
  // Counting: the queue never holds more than w*h entries.

  lemma {:induction false} DistinctSetSize(s: seq<int>)
    requires forall i, j :: 0 <= i < j < |s| ==> s[i] != s[j]
    ensures |set x | x in s| == |s|
  {
    if |s| > 0 {
      var t := s[..|s| - 1];
      DistinctSetSize(t);
      assert (set x | x in s) == (set x | x in t) + {s[|s| - 1]};
    }
  }

  /** The offsets `0 .. n)`. */
  function Offsets(n: nat): (r: set<int>)
    ensures |r| == n
    ensures forall i :: i in r <==> 0 <= i < n
  {
    if n == 0 then {} else Offsets(n - 1) + {n - 1}
  }

  /** Distinct offsets below `n` number at most `n`. */
  lemma DistinctBelow(s: seq<int>, n: nat)
    requires forall i :: 0 <= i < |s| ==> 0 <= s[i] < n
    requires forall i, j :: 0 <= i < j < |s| ==> s[i] != s[j]
    ensures |s| <= n
  {
    DistinctSetSize(s);
    var a := set x | x in s;
    var b := Offsets(n);
    assert a <= b;
    assert b == a + (b - a);
  }

  /** Distinct in-frame pixels number at most `w * h`. */
  lemma DistinctInFrameBound(w: nat, h: nat, ps: seq<PixelCoordinate>)
    requires forall i :: 0 <= i < |ps| ==> InFrame(w, h, ps[i])
    requires Distinct(ps)
    ensures |ps| <= w * h
  {
    var s := seq(|ps|, i requires 0 <= i < |ps| => Index(w, h, ps[i].x, ps[i].y));
    forall i, j | 0 <= i < j < |s|
      ensures s[i] != s[j]
    {
      if s[i] == s[j] {
        IndexInjective(w, h, ps[i].x, ps[i].y, ps[j].x, ps[j].y);
      }
    }
    DistinctBelow(s, w * h);
  }

  // ---------------------------------------------------------------------
  // The state of one breadth-first search.

  /**
   * The queue array `q` holds the offsets of `pix` in its first `tail`
   * slots; these pixels are distinct, nonzero and were unvisited in `v0`;
   * the visited flags `v` are `v0` plus exactly these pixels; each pixel
   * after the seed was enqueued from an earlier one, its parent `par[k]`.
   */
  ghost predicate Enqueued(v: seq<bool>, q: seq<int>, e: seq<JByte>, w: nat, h: nat,
                           v0: seq<bool>, pix: seq<PixelCoordinate>, par: seq<nat>, tail: nat)
  {
    && |v| == w * h && |q| == w * h && |e| == w * h && |v0| == w * h
    && |pix| == tail && |par| == tail && 1 <= tail <= w * h
    && (forall k :: 0 <= k < tail ==> InFrame(w, h, pix[k]) && q[k] == Index(w, h, pix[k].x, pix[k].y))
    && (forall k :: 0 <= k < tail ==> EdgeAt(e, w, h, pix[k]) && !Marked(v0, w, h, pix[k]))
    && Distinct(pix)
    && (forall p :: InFrame(w, h, p) ==> (Marked(v, w, h, p) <==> Marked(v0, w, h, p) || p in pix))
    && (forall k :: 1 <= k < tail ==> par[k] < k && Adjacent(pix[par[k]], pix[k]))
  }

  /** Every nonzero neighbour of the first `head` pixels of `pix` is visited. */
  ghost predicate Expanded(v: seq<bool>, e: seq<JByte>, w: nat, h: nat, pix: seq<PixelCoordinate>, head: nat) {
    forall k, r :: 0 <= k < head && k < |pix| && Adjacent(pix[k], r) && EdgeAt(e, w, h, r) ==> Marked(v, w, h, r)
  }

  /** Marking the seed and putting its offset first in the queue starts a search. */
  lemma SeedEnqueued(v0: seq<bool>, v: seq<bool>, q: seq<int>, e: seq<JByte>, w: nat, h: nat, seed: int)
    returns (pix: seq<PixelCoordinate>, par: seq<nat>)
    requires |v0| == w * h && |q| == w * h && |e| == w * h
    requires 0 <= seed < w * h && Unsigned(e[seed]) != 0 && !v0[seed]
    requires v == v0[seed := true] && q[0] == seed
    ensures w > 0 && pix == [PixelCoordinate(seed % w, seed / w)] && par == [0]
    ensures Enqueued(v, q, e, w, h, v0, pix, par, 1)
  {
    OffsetDecodes(w, h, seed);
    IndexInjectiveAll(w, h);
    pix, par := [PixelCoordinate(seed % w, seed / w)], [0];
  }

  /** Marking an unvisited nonzero neighbour and putting its offset at the tail extends the search. */
  lemma EnqueueKeepsSearch(v: seq<bool>, q: seq<int>, e: seq<JByte>, w: nat, h: nat,
                           v0: seq<bool>, pix: seq<PixelCoordinate>, par: seq<nat>, tail: nat,
                           n: PixelCoordinate, from: nat)
    requires Enqueued(v, q, e, w, h, v0, pix, par, tail)
    requires EdgeAt(e, w, h, n) && !Marked(v, w, h, n)
    requires from < tail && Adjacent(pix[from], n)
    ensures tail < w * h
    ensures Enqueued(v[Index(w, h, n.x, n.y) := true], q[tail := Index(w, h, n.x, n.y)], e, w, h, v0,
                     pix + [n], par + [from], tail + 1)
    ensures (pix + [n])[..tail] == pix && (par + [from])[..tail] == par
  {
    assert n !in pix && !Marked(v0, w, h, n);
    var newPix := pix + [n];
    assert Distinct(newPix);
    DistinctInFrameBound(w, h, newPix);
    IndexInjectiveAll(w, h);
    assert newPix[..tail] == pix;
    assert (par + [from])[..tail] == par;
  }

  /** Expanding the pixel at `head` extends `Expanded` by one, as visited flags only grow. */
  lemma ExpandedGrows(vPrev: seq<bool>, v: seq<bool>, e: seq<JByte>, w: nat, h: nat,
                      oldPix: seq<PixelCoordinate>, pix: seq<PixelCoordinate>, head: nat)
    requires Expanded(vPrev, e, w, h, oldPix, head)
    requires head < |oldPix| <= |pix| && pix[..|oldPix|] == oldPix
    requires forall p :: Marked(vPrev, w, h, p) ==> Marked(v, w, h, p)
    requires forall r :: Adjacent(oldPix[head], r) && EdgeAt(e, w, h, r) ==> Marked(v, w, h, r)
    ensures Expanded(v, e, w, h, pix, head + 1)
    ensures pix[..head + 1] == oldPix[..head] + [oldPix[head]]
  {
    forall k, r | 0 <= k < head + 1 && k < |pix| && Adjacent(pix[k], r) && EdgeAt(e, w, h, r)
      ensures Marked(v, w, h, r)
    {
      assert pix[k] == oldPix[k];
      if k < head {
        assert Marked(vPrev, w, h, r);
      }
    }
    assert pix[..head + 1] == oldPix[..head + 1];
  }

  /**
   * When every enqueued pixel has been dequeued and expanded, and the
   * visited set the search started from was closed, the pixels found are
   * closed under nonzero neighbours and joined to the seed.
   */
  lemma SearchIsComplete(v: seq<bool>, q: seq<int>, e: seq<JByte>, w: nat, h: nat,
                         v0: seq<bool>, pix: seq<PixelCoordinate>, par: seq<nat>, tail: nat)
    requires Enqueued(v, q, e, w, h, v0, pix, par, tail)
    requires Closed(v0, e, w, h)
    requires Expanded(v, e, w, h, pix, tail)
    ensures SelfClosed(pix, e, w, h)
    ensures ChainConnected(pix)
  {
    forall p, r | p in pix && Adjacent(p, r) && EdgeAt(e, w, h, r)
      ensures r in pix
    {
      var i :| 0 <= i < |pix| && pix[i] == p;
      assert Marked(v, w, h, r);
      if r !in pix {
        assert Marked(v0, w, h, r) && Adjacent(r, p);
        assert false;
      }
    }
    forall i | 1 <= i < |pix|
      ensures JoinedEarlier(pix, i)
    {
      var j := par[i];
      assert 0 <= j < i && Adjacent(pix[j], pix[i]);
    }
  }

  // ---------------------------------------------------------------------
  // The raster scan.

  /**
   * The components found so far: each is a component, they are pairwise
   * disjoint, in the order of their first pixel, and together they are
   * exactly the visited pixels, a set closed under nonzero neighbours.
   */
  ghost predicate Partition(cs: seq<ComponentRecord>, v: seq<bool>, e: seq<JByte>, w: nat, h: nat) {
    && |v| == w * h && |e| == w * h
    && (forall k :: 0 <= k < |cs| ==> IsComponent(cs[k], e, w, h))
    && (forall k1, k2, p :: 0 <= k1 < k2 < |cs| && p in cs[k1].pixels ==> p !in cs[k2].pixels)
    && (forall k1, k2 :: 0 <= k1 < k2 < |cs| ==> StartsBefore(cs[k1], cs[k2]))
    && (forall p :: InFrame(w, h, p) ==> (Marked(v, w, h, p) <==> exists k :: 0 <= k < |cs| && p in cs[k].pixels))
    && Closed(v, e, w, h)
  }

  /**
   * The scan has reached (x, y): every nonzero pixel before it is visited
   * and every component starts before it.
   */
  ghost predicate ScannedUpTo(cs: seq<ComponentRecord>, v: seq<bool>, e: seq<JByte>, w: nat, h: nat, x: int, y: int) {
    && (forall p :: EdgeAt(e, w, h, p) && RasterBefore(p, PixelCoordinate(x, y)) ==> Marked(v, w, h, p))
    && (forall k :: 0 <= k < |cs| ==> |cs[k].pixels| >= 1 && RasterBefore(cs[k].pixels[0], PixelCoordinate(x, y)))
  }

  /** A zero or already visited pixel moves the scan on without a new component. */
  lemma SkipPixel(cs: seq<ComponentRecord>, v: seq<bool>, e: seq<JByte>, w: nat, h: nat, x: int, y: int)
    requires ScannedUpTo(cs, v, e, w, h, x, y) && 0 <= x < w && 0 <= y < h && |e| == w * h && |v| == w * h
    requires Unsigned(e[Index(w, h, x, y)]) == 0 || v[Index(w, h, x, y)]
    ensures ScannedUpTo(cs, v, e, w, h, x + 1, y)
  {
    var here := PixelCoordinate(x, y);
    forall p | EdgeAt(e, w, h, p) && RasterBefore(p, PixelCoordinate(x + 1, y))
      ensures Marked(v, w, h, p)
    {
      if p == here {
        assert v[Index(w, h, x, y)];
      } else {
        assert RasterBefore(p, here);
      }
    }
  }

  /** The end of a row is the start of the next one. */
  lemma NextRow(cs: seq<ComponentRecord>, v: seq<bool>, e: seq<JByte>, w: nat, h: nat, y: int)
    requires ScannedUpTo(cs, v, e, w, h, w, y)
    ensures ScannedUpTo(cs, v, e, w, h, 0, y + 1)
  {
    forall p | EdgeAt(e, w, h, p) && RasterBefore(p, PixelCoordinate(0, y + 1))
      ensures Marked(v, w, h, p)
    {
      assert RasterBefore(p, PixelCoordinate(w, y));
    }
  }

  /**
   * What a search seeded at (x, y) from visited flags `v0` leaves behind:
   * the record of its distinct nonzero pixels, all previously unvisited,
   * starting at the seed, joined to it and closed under nonzero neighbours,
   * with exactly those pixels newly visited in `v`.
   */
  ghost predicate FoundFrom(c: ComponentRecord, v0: seq<bool>, v: seq<bool>, e: seq<JByte>, w: nat, h: nat, x: int, y: int) {
    && |v| == w * h
    && |c.pixels| >= 1 && c.pixels[0] == PixelCoordinate(x, y)
    && c == Accumulate(c.pixels)
    && (forall p :: p in c.pixels ==> EdgeAt(e, w, h, p) && !Marked(v0, w, h, p))
    && Distinct(c.pixels)
    && (forall p :: InFrame(w, h, p) ==> (Marked(v, w, h, p) <==> Marked(v0, w, h, p) || p in c.pixels))
    && SelfClosed(c.pixels, e, w, h)
    && ChainConnected(c.pixels)
  }

  /** The pixels found from the first unvisited nonzero pixel form a component starting there. */
  lemma FoundIsComponent(cs: seq<ComponentRecord>, v0: seq<bool>, v: seq<bool>, e: seq<JByte>, w: nat, h: nat,
                         x: int, y: int, c: ComponentRecord)
    requires ScannedUpTo(cs, v0, e, w, h, x, y) && FoundFrom(c, v0, v, e, w, h, x, y)
    ensures IsComponent(c, e, w, h)
  {
    forall p | p in c.pixels
      ensures !RasterBefore(p, PixelCoordinate(x, y))
    {
    }
  }

  /** Appending a component of unvisited pixels keeps the list disjoint and ordered by first pixel. */
  lemma AppendKeepsComponents(cs: seq<ComponentRecord>, v0: seq<bool>, v: seq<bool>, e: seq<JByte>, w: nat, h: nat,
                              x: int, y: int, c: ComponentRecord)
    requires Partition(cs, v0, e, w, h) && ScannedUpTo(cs, v0, e, w, h, x, y)
    requires FoundFrom(c, v0, v, e, w, h, x, y) && IsComponent(c, e, w, h)
    ensures forall k :: 0 <= k < |cs + [c]| ==> IsComponent((cs + [c])[k], e, w, h)
    ensures forall k1, k2, p :: 0 <= k1 < k2 < |cs + [c]| && p in (cs + [c])[k1].pixels ==> p !in (cs + [c])[k2].pixels
    ensures forall k1, k2 :: 0 <= k1 < k2 < |cs + [c]| ==> StartsBefore((cs + [c])[k1], (cs + [c])[k2])
  {
    var cs' := cs + [c];
    forall k | 0 <= k < |cs'|
      ensures IsComponent(cs'[k], e, w, h)
    {
      if k < |cs| {
        assert cs'[k] == cs[k];
      }
    }
    forall k1, k2, p | 0 <= k1 < k2 < |cs'| && p in cs'[k1].pixels
      ensures p !in cs'[k2].pixels
    {
      assert cs'[k1] == cs[k1];
      if k2 == |cs| {
        assert EdgeAt(e, w, h, p);
        assert Marked(v0, w, h, p);
      } else {
        assert cs'[k2] == cs[k2];
      }
    }
    forall k1, k2 | 0 <= k1 < k2 < |cs'|
      ensures StartsBefore(cs'[k1], cs'[k2])
    {
      assert cs'[k1] == cs[k1];
      if k2 < |cs| {
        assert cs'[k2] == cs[k2];
      }
    }
  }

  /** After appending, the visited pixels are still exactly the union of the components, and closed. */
  lemma AppendKeepsVisited(cs: seq<ComponentRecord>, v0: seq<bool>, v: seq<bool>, e: seq<JByte>, w: nat, h: nat,
                           x: int, y: int, c: ComponentRecord)
    requires Partition(cs, v0, e, w, h) && FoundFrom(c, v0, v, e, w, h, x, y)
    ensures forall p :: InFrame(w, h, p) ==> (Marked(v, w, h, p) <==> exists k :: 0 <= k < |cs + [c]| && p in (cs + [c])[k].pixels)
    ensures Closed(v, e, w, h)
  {
    var cs' := cs + [c];
    forall p | InFrame(w, h, p)
      ensures Marked(v, w, h, p) <==> exists k :: 0 <= k < |cs'| && p in cs'[k].pixels
    {
      if Marked(v0, w, h, p) {
        var k :| 0 <= k < |cs| && p in cs[k].pixels;
        assert cs'[k] == cs[k];
      } else if p in c.pixels {
        assert cs'[|cs|] == c;
      } else {
        forall k | 0 <= k < |cs'|
          ensures p !in cs'[k].pixels
        {
          if k < |cs| {
            assert cs'[k] == cs[k];
          }
        }
      }
    }
    forall p, q | Marked(v, w, h, p) && Adjacent(p, q) && EdgeAt(e, w, h, q)
      ensures Marked(v, w, h, q)
    {
      if Marked(v0, w, h, p) {
        assert Marked(v0, w, h, q);
      } else {
        assert p in c.pixels;
      }
    }
  }

  /** After the search from (x, y), the scan moves on to the next pixel. */
  lemma AppendMovesScan(cs: seq<ComponentRecord>, v0: seq<bool>, v: seq<bool>, e: seq<JByte>, w: nat, h: nat,
                        x: int, y: int, c: ComponentRecord)
    requires ScannedUpTo(cs, v0, e, w, h, x, y) && FoundFrom(c, v0, v, e, w, h, x, y)
    ensures ScannedUpTo(cs + [c], v, e, w, h, x + 1, y)
  {
    var cs' := cs + [c];
    var seed := PixelCoordinate(x, y);
    forall p | EdgeAt(e, w, h, p) && RasterBefore(p, PixelCoordinate(x + 1, y))
      ensures Marked(v, w, h, p)
    {
      if p == seed {
        assert p in c.pixels;
      } else {
        assert RasterBefore(p, seed);
      }
    }
    forall k | 0 <= k < |cs'|
      ensures |cs'[k].pixels| >= 1 && RasterBefore(cs'[k].pixels[0], PixelCoordinate(x + 1, y))
    {
      if k < |cs| {
        assert cs'[k] == cs[k];
      }
    }
  }

  /**
   * A search seeded at the first unvisited nonzero pixel (x, y) adds a
   * component that starts there and keeps the partition.
   */
  lemma AddComponent(cs: seq<ComponentRecord>, v0: seq<bool>, v: seq<bool>, e: seq<JByte>, w: nat, h: nat,
                     x: int, y: int, c: ComponentRecord)
    requires Partition(cs, v0, e, w, h) && ScannedUpTo(cs, v0, e, w, h, x, y)
    requires FoundFrom(c, v0, v, e, w, h, x, y)
    ensures Partition(cs + [c], v, e, w, h) && ScannedUpTo(cs + [c], v, e, w, h, x + 1, y)
  {
    FoundIsComponent(cs, v0, v, e, w, h, x, y, c);
    AppendKeepsComponents(cs, v0, v, e, w, h, x, y, c);
    AppendKeepsVisited(cs, v0, v, e, w, h, x, y, c);
    AppendMovesScan(cs, v0, v, e, w, h, x, y, c);
  }

  /** A finished scan over a partition yields the exact components of the frame. */
  lemma ScanIsExact(cs: seq<ComponentRecord>, v: seq<bool>, e: seq<JByte>, w: nat, h: nat)
    requires Partition(cs, v, e, w, h) && ScannedUpTo(cs, v, e, w, h, 0, h)
    ensures ExactComponents(cs, e, w, h)
  {
    forall p | EdgeAt(e, w, h, p)
      ensures exists k :: 0 <= k < |cs| && p in cs[k].pixels
    {
      assert RasterBefore(p, PixelCoordinate(0, h));
    }
  }

  /**
   * Every extracted record is consistent: its counter is the number of its
   * pixels and its box is the tight box of its pixels, which lies inside the
   * frame.
   */
  lemma ExtractedRecordsAreTight(cs: seq<ComponentRecord>, e: seq<JByte>, w: nat, h: nat)
    requires ExactComponents(cs, e, w, h) && w <= IntMax && h <= IntMax
    ensures forall k :: 0 <= k < |cs| ==>
              && cs[k].WellFormed() && cs[k].pixelCount == |cs[k].pixels| >= 1
              && 0 <= cs[k].minX <= cs[k].maxX < w && 0 <= cs[k].minY <= cs[k].maxY < h
  {
    forall k | 0 <= k < |cs|
      ensures cs[k].WellFormed() && cs[k].pixelCount == |cs[k].pixels| >= 1
      ensures 0 <= cs[k].minX <= cs[k].maxX < w && 0 <= cs[k].minY <= cs[k].maxY < h
    {
      var ps := cs[k].pixels;
      assert IsComponent(cs[k], e, w, h);
      forall i | 0 <= i < |ps|
        ensures IntCoordinate(ps[i].x, ps[i].y) && InFrame(w, h, ps[i])
      {
        assert EdgeAt(e, w, h, ps[i]);
      }
      AccumulateIsTight(ps);
      var i0 :| 0 <= i0 < |ps| && ps[i0].x == cs[k].minX;
      var i1 :| 0 <= i1 < |ps| && ps[i1].x == cs[k].maxX;
      var i2 :| 0 <= i2 < |ps| && ps[i2].y == cs[k].minY;
      var i3 :| 0 <= i3 < |ps| && ps[i3].y == cs[k].maxY;
      assert InFrame(w, h, ps[i0]) && InFrame(w, h, ps[i1]) && InFrame(w, h, ps[i2]) && InFrame(w, h, ps[i3]);
    }
  }

  class AprilTagEdgeComponentExtractor {
    const width: nat
    const height: nat

    // The reusable buffers `edgeBinaryByteArray`, `visitedPixelBooleanArray`
    // and `breadthFirstSearchQueuePixelIndexArray`.
    const edge: array<JByte>
    const visited: array<bool>
    const queue: array<int>

    ghost predicate Valid()
      reads this
    {
      && edge.Length == width * height
      && visited.Length == width * height
      && queue.Length == width * height
      && width <= IntMax && height <= IntMax
    }

    /** Allocates the three buffers with `width * height` entries each. */
    constructor (w: nat, h: nat)
      requires w <= IntMax && h <= IntMax
      ensures Valid() && width == w && height == h
      ensures fresh(edge) && fresh(visited) && fresh(queue)
    {
      width, height := w, h;
      edge := new JByte[w * h];
      visited := new bool[w * h];
      queue := new int[w * h];
    }

    /**
     * One step of the neighbour loops: the neighbour at (`nx`, `ny`) is
     * skipped when it lies outside the frame, is already visited or is zero;
     * otherwise it is marked visited and appended to the queue.
     */
    method VisitNeighbour(nx: int, ny: int, tail: nat,
                          ghost v0: seq<bool>, ghost pix: seq<PixelCoordinate>, ghost par: seq<nat>, ghost from: nat)
      returns (newTail: nat, ghost newPix: seq<PixelCoordinate>, ghost newPar: seq<nat>)
      requires Valid()
      requires Enqueued(visited[..], queue[..], edge[..], width, height, v0, pix, par, tail)
      requires from < tail && Adjacent(pix[from], PixelCoordinate(nx, ny))
      modifies visited, queue
      ensures Enqueued(visited[..], queue[..], edge[..], width, height, v0, newPix, newPar, newTail)
      ensures tail <= newTail && newPix[..tail] == pix && newPar[..tail] == par
      ensures forall p :: Marked(old(visited[..]), width, height, p) ==> Marked(visited[..], width, height, p)
      ensures EdgeAt(edge[..], width, height, PixelCoordinate(nx, ny)) ==>
                Marked(visited[..], width, height, PixelCoordinate(nx, ny))
    {
      newTail, newPix, newPar := tail, pix, par;
      if nx < 0 || nx >= width || ny < 0 || ny >= height {
        return;
      }
      var neighbourIndex := ny * width + nx;
      assert neighbourIndex == Index(width, height, nx, ny);
      var n := PixelCoordinate(nx, ny);
      if visited[neighbourIndex] {
        assert Marked(visited[..], width, height, n);
        return;
      }
      if Unsigned(edge[neighbourIndex]) == 0 {
        return;
      }
      ghost var v := visited[..];
      ghost var q := queue[..];
      assert !Marked(v, width, height, n) && EdgeAt(edge[..], width, height, n);
      EnqueueKeepsSearch(v, q, edge[..], width, height, v0, pix, par, tail, n, from);
      newPix := pix + [n];
      newPar := par + [from];
      visited[neighbourIndex] := true;
      queue[tail] := neighbourIndex;
      newTail := tail + 1;
      assert visited[..] == v[neighbourIndex := true];
      assert queue[..] == q[tail := neighbourIndex];
    }

    /**
     * The inner neighbour loop for the row offset `dy`: the neighbours
     * (cx + dx, cy + dy) for dx = -1, 0, 1, the centre itself skipped.
     */
    method ExploreNeighbourRow(cx: int, cy: int, dy: int, tail: nat,
                               ghost v0: seq<bool>, ghost pix: seq<PixelCoordinate>, ghost par: seq<nat>, ghost from: nat)
      returns (newTail: nat, ghost newPix: seq<PixelCoordinate>, ghost newPar: seq<nat>)
      requires Valid()
      requires Enqueued(visited[..], queue[..], edge[..], width, height, v0, pix, par, tail)
      requires from < tail && pix[from] == PixelCoordinate(cx, cy) && -1 <= dy <= 1
      modifies visited, queue
      ensures Enqueued(visited[..], queue[..], edge[..], width, height, v0, newPix, newPar, newTail)
      ensures tail <= newTail && newPix[..tail] == pix && newPar[..tail] == par
      ensures forall p :: Marked(old(visited[..]), width, height, p) ==> Marked(visited[..], width, height, p)
      ensures forall q :: Adjacent(PixelCoordinate(cx, cy), q) && q.y - cy == dy && EdgeAt(edge[..], width, height, q) ==>
                Marked(visited[..], width, height, q)
    {
      var c := PixelCoordinate(cx, cy);
      newTail, newPix, newPar := tail, pix, par;
      var dx := -1;
      while dx <= 1
        invariant -1 <= dx <= 2
        invariant Enqueued(visited[..], queue[..], edge[..], width, height, v0, newPix, newPar, newTail)
        invariant tail <= newTail && newPix[..tail] == pix && newPar[..tail] == par
        invariant forall p :: Marked(old(visited[..]), width, height, p) ==> Marked(visited[..], width, height, p)
        invariant forall q :: Adjacent(c, q) && q.y - cy == dy && q.x - cx < dx && EdgeAt(edge[..], width, height, q) ==>
                    Marked(visited[..], width, height, q)
      {
        if !(dx == 0 && dy == 0) {
          ghost var prefix, prefixPar := newPix, newPar;
          newTail, newPix, newPar := VisitNeighbour(cx + dx, cy + dy, newTail, v0, newPix, newPar, from);
          assert newPix[..tail] == prefix[..tail];
          assert newPar[..tail] == prefixPar[..tail];
        }
        dx := dx + 1;
      }
    }

    /** The two nested neighbour loops: the 8-neighbours of (cx, cy), row by row. */
    method ExploreNeighbours(cx: int, cy: int, tail: nat,
                             ghost v0: seq<bool>, ghost pix: seq<PixelCoordinate>, ghost par: seq<nat>, ghost from: nat)
      returns (newTail: nat, ghost newPix: seq<PixelCoordinate>, ghost newPar: seq<nat>)
      requires Valid()
      requires Enqueued(visited[..], queue[..], edge[..], width, height, v0, pix, par, tail)
      requires from < tail && pix[from] == PixelCoordinate(cx, cy)
      modifies visited, queue
      ensures Enqueued(visited[..], queue[..], edge[..], width, height, v0, newPix, newPar, newTail)
      ensures tail <= newTail && newPix[..tail] == pix && newPar[..tail] == par
      ensures forall p :: Marked(old(visited[..]), width, height, p) ==> Marked(visited[..], width, height, p)
      ensures forall q :: Adjacent(PixelCoordinate(cx, cy), q) && EdgeAt(edge[..], width, height, q) ==>
                Marked(visited[..], width, height, q)
    {
      var c := PixelCoordinate(cx, cy);
      newTail, newPix, newPar := tail, pix, par;
      var dy := -1;
      while dy <= 1
        invariant -1 <= dy <= 2
        invariant Enqueued(visited[..], queue[..], edge[..], width, height, v0, newPix, newPar, newTail)
        invariant tail <= newTail && newPix[..tail] == pix && newPar[..tail] == par
        invariant forall p :: Marked(old(visited[..]), width, height, p) ==> Marked(visited[..], width, height, p)
        invariant forall q :: Adjacent(c, q) && q.y - cy < dy && EdgeAt(edge[..], width, height, q) ==>
                    Marked(visited[..], width, height, q)
      {
        ghost var prefix, prefixPar := newPix, newPar;
        newTail, newPix, newPar := ExploreNeighbourRow(cx, cy, dy, newTail, v0, newPix, newPar, from);
        assert newPix[..tail] == prefix[..tail];
        assert newPar[..tail] == prefixPar[..tail];
        dy := dy + 1;
      }
    }

    /**
     * `performBreadthFirstSearchFromSeedPixelIndex`: the seed is marked and
     * enqueued; each dequeued offset is decoded into (x, y), widens the box,
     * is counted and appended to the pixel list, and enqueues its unvisited
     * nonzero neighbours. Given a visited set closed under nonzero
     * neighbours, the result is the whole component of the seed.
     */
    method PerformBreadthFirstSearchFromSeedPixelIndex(seed: int) returns (c: ComponentRecord)
      requires Valid() && 0 <= seed < width * height
      requires Unsigned(edge[seed]) != 0 && !visited[seed]
      requires Closed(visited[..], edge[..], width, height)
      modifies visited, queue
      ensures |c.pixels| >= 1 && c.pixels[0] == PixelCoordinate(seed % width, seed / width)
      ensures c == Accumulate(c.pixels)
      ensures forall p :: p in c.pixels ==>
                EdgeAt(edge[..], width, height, p) && !Marked(old(visited[..]), width, height, p)
      ensures Distinct(c.pixels)
      ensures forall p :: InFrame(width, height, p) ==>
                (Marked(visited[..], width, height, p) <==> Marked(old(visited[..]), width, height, p) || p in c.pixels)
      ensures SelfClosed(c.pixels, edge[..], width, height)
      ensures ChainConnected(c.pixels)
    {
      ghost var v0 := visited[..];
      var queueHeadIndex := 0;
      var queueTailIndex := 0;
      queue[queueTailIndex] := seed;
      queueTailIndex := queueTailIndex + 1;
      visited[seed] := true;
      ghost var pix, par := SeedEnqueued(v0, visited[..], queue[..], edge[..], width, height, seed);
      var componentPixelCount := 0;
      var minimumPixelXPosition := IntMax;
      var maximumPixelXPosition := IntMin;
      var minimumPixelYPosition := IntMax;
      var maximumPixelYPosition := IntMin;
      var pixelCoordinateList: seq<PixelCoordinate> := [];

      while queueHeadIndex < queueTailIndex
        invariant 0 <= queueHeadIndex <= queueTailIndex
        invariant Enqueued(visited[..], queue[..], edge[..], width, height, v0, pix, par, queueTailIndex)
        invariant pix[0] == PixelCoordinate(seed % width, seed / width)
        invariant pixelCoordinateList == pix[..queueHeadIndex]
        invariant ComponentRecord(componentPixelCount, minimumPixelXPosition, maximumPixelXPosition,
                                  minimumPixelYPosition, maximumPixelYPosition, pixelCoordinateList)
                  == Accumulate(pixelCoordinateList)
        invariant Expanded(visited[..], edge[..], width, height, pix, queueHeadIndex)
        decreases width * height - queueHeadIndex
      {
        var currentPixelIndex := queue[queueHeadIndex];
        ghost var k := queueHeadIndex;
        queueHeadIndex := queueHeadIndex + 1;

        var currentPixelYPosition := currentPixelIndex / width;
        var currentPixelXPosition := currentPixelIndex % width;
        var current := PixelCoordinate(currentPixelXPosition, currentPixelYPosition);
        assert current == pix[k];

        AccumulateAppend(pixelCoordinateList, current);
        if currentPixelXPosition < minimumPixelXPosition {
          minimumPixelXPosition := currentPixelXPosition;
        }
        if currentPixelXPosition > maximumPixelXPosition {
          maximumPixelXPosition := currentPixelXPosition;
        }
        if currentPixelYPosition < minimumPixelYPosition {
          minimumPixelYPosition := currentPixelYPosition;
        }
        if currentPixelYPosition > maximumPixelYPosition {
          maximumPixelYPosition := currentPixelYPosition;
        }
        componentPixelCount := componentPixelCount + 1;
        pixelCoordinateList := pixelCoordinateList + [current];

        ghost var oldPix, vPrev := pix, visited[..];
        queueTailIndex, pix, par := ExploreNeighbours(currentPixelXPosition, currentPixelYPosition, queueTailIndex, v0, pix, par, k);
        ExpandedGrows(vPrev, visited[..], edge[..], width, height, oldPix, pix, k);
      }

      c := ComponentRecord(componentPixelCount, minimumPixelXPosition, maximumPixelXPosition,
                           minimumPixelYPosition, maximumPixelYPosition, pixelCoordinateList);
      assert pix[..queueHeadIndex] == pix;
      SearchIsComplete(visited[..], queue[..], edge[..], width, height, v0, pix, par, queueTailIndex);
    }

    /**
     * One pass of the row loop of `extractEdgeConnectedComponentList`: each
     * pixel of row `y`, left to right, that is nonzero and not yet visited
     * seeds a breadth-first search whose component is appended.
     */
    method ScanRow(y: int, components: seq<ComponentRecord>) returns (found: seq<ComponentRecord>)
      requires Valid() && 0 <= y < height
      requires Partition(components, visited[..], edge[..], width, height)
      requires ScannedUpTo(components, visited[..], edge[..], width, height, 0, y)
      modifies visited, queue
      ensures Partition(found, visited[..], edge[..], width, height)
      ensures ScannedUpTo(found, visited[..], edge[..], width, height, 0, y + 1)
      ensures |components| <= |found| && found[..|components|] == components
    {
      found := components;
      var rowStartPixelIndex := y * width;
      var pixelXPosition := 0;
      while pixelXPosition < width
        invariant 0 <= pixelXPosition <= width
        invariant Partition(found, visited[..], edge[..], width, height)
        invariant ScannedUpTo(found, visited[..], edge[..], width, height, pixelXPosition, y)
        invariant |components| <= |found| && found[..|components|] == components
      {
        var pixelIndex := rowStartPixelIndex + pixelXPosition;
        assert pixelIndex == Index(width, height, pixelXPosition, y);
        var pixelIntensityValue := Unsigned(edge[pixelIndex]);
        if pixelIntensityValue == 0 || visited[pixelIndex] {
          SkipPixel(found, visited[..], edge[..], width, height, pixelXPosition, y);
        } else {
          ghost var v0 := visited[..];
          var component := PerformBreadthFirstSearchFromSeedPixelIndex(pixelIndex);
          assert FoundFrom(component, v0, visited[..], edge[..], width, height, pixelXPosition, y);
          AddComponent(found, v0, visited[..], edge[..], width, height, pixelXPosition, y, component);
          found := found + [component];
        }
        pixelXPosition := pixelXPosition + 1;
      }
      NextRow(found, visited[..], edge[..], width, height, y);
    }

    /**
     * `extractEdgeConnectedComponentList`: an empty frame gives no
     * components; a frame of another size is rejected; otherwise the bytes
     * are copied, the visited flags cleared, and every nonzero pixel not yet
     * visited, in raster order, seeds a breadth-first search whose component
     * is appended to the list.
     */
    method ExtractEdgeConnectedComponentList(frame: GrayFrame) returns (r: Result<seq<ComponentRecord>>)
      requires Valid() && frame.WellFormed()
      modifies edge, visited, queue
      ensures frame.IsEmpty() ==>
                r == Ok([]) && unchanged(edge) && unchanged(visited) && unchanged(queue)
      ensures !frame.IsEmpty() && (frame.cols != width || frame.rows != height) ==>
                r == Fail(FrameSizeMismatch) && unchanged(edge) && unchanged(visited) && unchanged(queue)
      ensures !frame.IsEmpty() && frame.cols == width && frame.rows == height ==>
                r.Ok? && edge[..] == frame.data && ExactComponents(r.value, frame.data, width, height)
    {
      if frame.IsEmpty() {
        return Ok([]);
      }
      if frame.cols != width || frame.rows != height {
        return Fail(FrameSizeMismatch);
      }
      forall i | 0 <= i < width * height {
        edge[i] := frame.data[i];
      }
      assert edge[..] == frame.data;
      forall i | 0 <= i < width * height {
        visited[i] := false;
      }

      var components: seq<ComponentRecord> := [];
      var pixelYPosition := 0;
      while pixelYPosition < height
        invariant 0 <= pixelYPosition <= height
        invariant edge[..] == frame.data
        invariant Partition(components, visited[..], edge[..], width, height)
        invariant ScannedUpTo(components, visited[..], edge[..], width, height, 0, pixelYPosition)
      {
        components := ScanRow(pixelYPosition, components);
        pixelYPosition := pixelYPosition + 1;
      }
      ScanIsExact(components, visited[..], edge[..], width, height);
      return Ok(components);
    }
  }
}
