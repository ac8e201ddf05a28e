/**
 * `EdgeStadistics.calculateEdgeFrameStatistics`: the number of nonzero mask
 * bytes and the largest gradient magnitude over the first `width*height`
 * entries, with bounds that hold when the buffers come from the edge detector.
 */
module EdgeStatistics {
  import opened Base
  import opened Geometry
  import opened EdgeDetection

  datatype EdgeFrameStatistics = EdgeFrameStatistics(edgePixelCount: int, maximumGradient: int)

  /** How many bytes of `s` read as nonzero when taken unsigned. */
  function NonzeroCount(s: seq<JByte>): (c: nat)
    ensures c <= |s|
  {
    if |s| == 0 then 0
    else NonzeroCount(s[..|s| - 1]) + (if Unsigned(s[|s| - 1]) != 0 then 1 else 0)
  }

  /**
   * `calculateEdgeFrameStatistics`: counts nonzero mask bytes and keeps a
   * running maximum of the magnitudes that starts at 0.
   */
  method CalculateEdgeFrameStatistics(width: nat, height: nat, edge: array<JByte>, magnitude: array<int>)
    returns (s: EdgeFrameStatistics)
    requires width * height <= edge.Length && width * height <= magnitude.Length
    ensures s.edgePixelCount == NonzeroCount(edge[..width * height])
    ensures 0 <= s.edgePixelCount <= width * height
    ensures s.maximumGradient >= 0
    ensures forall i :: 0 <= i < width * height ==> magnitude[i] <= s.maximumGradient
    ensures s.maximumGradient == 0 ||
            exists i :: 0 <= i < width * height && magnitude[i] == s.maximumGradient
  {
    var n := width * height;
    var count, maximum := 0, 0;
    var i := 0;
    while i < n
      invariant 0 <= i <= n
      invariant count == NonzeroCount(edge[..i])
      invariant maximum >= 0
      invariant forall k :: 0 <= k < i ==> magnitude[k] <= maximum
      invariant maximum == 0 || exists k :: 0 <= k < i && magnitude[k] == maximum
    {
      assert edge[..i + 1][..i] == edge[..i];
      if Unsigned(edge[i]) != 0 {
        count := count + 1;
      }
      var m := magnitude[i];
      if m > maximum {
        maximum := m;
      }
      i := i + 1;
    }
    assert edge[..n] == edge[..i];
    s := EdgeFrameStatistics(count, maximum);
  }

  lemma {:induction false} NonzeroCountConcat(a: seq<JByte>, b: seq<JByte>)
    ensures NonzeroCount(a + b) == NonzeroCount(a) + NonzeroCount(b)
  {
    if |b| > 0 {
      var b' := b[..|b| - 1];
      assert (a + b)[..|a + b| - 1] == a + b';
      NonzeroCountConcat(a, b');
    } else {
      assert a + b == a;
    }
  }

  lemma {:induction false} NonzeroCountOfZeros(s: seq<JByte>)
    requires forall i :: 0 <= i < |s| ==> s[i] == 0
    ensures NonzeroCount(s) == 0
  {
    if |s| > 0 {
      NonzeroCountOfZeros(s[..|s| - 1]);
    }
  }

  /** Every pixel outside the interior holds 0. */
  predicate ZeroOffInterior(s: seq<JByte>, w: nat, h: nat)
    requires |s| == w * h
  {
    forall x, y :: 0 <= x < w && 0 <= y < h && !Interior(w, h, x, y) ==> s[Index(w, h, x, y)] == 0
  }

  /** The number of interior pixels of a `w` x `h` frame. */
  function InteriorPixelCount(w: nat, h: nat): nat {
    if w >= 2 && h >= 2 then (w - 2) * (h - 2) else 0
  }

  /** The number of interior rows among rows `0 .. k)`. */
  function InteriorRowsBelow(k: nat, h: nat): nat {
    if k <= 1 || h <= 2 then 0 else if k <= h - 1 then k - 1 else h - 2
  }

  /** Row `y` contributes at most `w - 2` nonzero bytes, and none on the top and bottom rows. */
  lemma RowNonzeroCount(s: seq<JByte>, w: nat, h: nat, y: nat)
    requires |s| == w * h && ZeroOffInterior(s, w, h)
    requires w >= 2 && y < h
    ensures y * w + w <= |s|
    ensures NonzeroCount(s[y * w .. y * w + w]) <= if 1 <= y < h - 1 then w - 2 else 0
  {
    MulMonotone(y + 1, h, w);
    var base := y * w;
    var row := s[base .. base + w];
    if 1 <= y < h - 1 {
      assert row[0] == s[Index(w, h, 0, y)] == 0;
      assert row[w - 1] == s[Index(w, h, w - 1, y)] == 0;
      var mid := row[1 .. w - 1];
      assert row == [row[0]] + mid + [row[w - 1]];
      NonzeroCountConcat([row[0]] + mid, [row[w - 1]]);
      NonzeroCountConcat([row[0]], mid);
      NonzeroCountOfZeros([row[0]]);
      NonzeroCountOfZeros([row[w - 1]]);
    } else {
      forall x | 0 <= x < w
        ensures row[x] == 0
      {
        assert row[x] == s[Index(w, h, x, y)];
      }
      NonzeroCountOfZeros(row);
    }
  }

  /** The first `k` rows contribute at most `w - 2` per interior row among them. */
  lemma {:induction false} RowsNonzeroCount(s: seq<JByte>, w: nat, h: nat, k: nat)
    requires |s| == w * h && ZeroOffInterior(s, w, h)
    requires w >= 2 && k <= h
    ensures k * w <= |s|
    ensures NonzeroCount(s[..k * w]) <= InteriorRowsBelow(k, h) * (w - 2)
  {
    MulMonotone(k, h, w);
    if k > 0 {
      var y := k - 1;
      RowsNonzeroCount(s, w, h, y);
      RowNonzeroCount(s, w, h, y);
      NextRowStart(y, w);
      PrefixCount(s, y * w, k * w);
      InteriorRowsStep(y, h, w - 2);
    }
  }

  /** Row `y + 1` starts one row width after row `y`. */
  lemma NextRowStart(y: int, w: int)
    ensures (y + 1) * w == y * w + w
  {
  }

  /** The count of a prefix is the count of a shorter prefix plus the count of the slice between them. */
  lemma PrefixCount(s: seq<JByte>, a: nat, b: nat)
    requires a <= b <= |s|
    ensures NonzeroCount(s[..b]) == NonzeroCount(s[..a]) + NonzeroCount(s[a..b])
  {
    assert s[..b] == s[..a] + s[a..b];
    NonzeroCountConcat(s[..a], s[a..b]);
  }

  /** Row `y` adds one interior row, of `c` pixels, exactly when it is neither the top nor the bottom row. */
  lemma InteriorRowsStep(y: nat, h: nat, c: nat)
    requires y < h
    ensures InteriorRowsBelow(y + 1, h) * c == InteriorRowsBelow(y, h) * c + (if 1 <= y < h - 1 then c else 0)
  {
    if 1 <= y < h - 1 {
      var k := InteriorRowsBelow(y, h);
      assert InteriorRowsBelow(y + 1, h) == k + 1;
      assert (k + 1) * c == k * c + c;
    }
  }

  /** A mask that is zero off the interior has at most `(w-2)*(h-2)` nonzero bytes. */
  lemma NonzeroCountAtMostInterior(s: seq<JByte>, w: nat, h: nat)
    requires |s| == w * h && ZeroOffInterior(s, w, h)
    ensures NonzeroCount(s) <= InteriorPixelCount(w, h)
  {
    if w >= 2 && h >= 2 {
      RowsNonzeroCount(s, w, h, h);
      assert h * w == w * h && s[..h * w] == s;
      assert InteriorRowsBelow(h, h) == h - 2;
      assert (h - 2) * (w - 2) == (w - 2) * (h - 2);
    } else {
      forall i | 0 <= i < |s|
        ensures s[i] == 0
      {
        OffsetDecodes(w, h, i);
      }
      NonzeroCountOfZeros(s);
    }
  }

  /**
   * On the buffers the edge detector leaves for a frame, the edge count is
   * at most the number of interior pixels and every magnitude is at most 2040,
   * so `CalculateEdgeFrameStatistics` reports values within those bounds.
   */
  lemma DetectorOutputBounds(d: EdgeDetector, g: seq<JByte>)
    requires d.Valid() && |g| == d.width * d.height && d.HoldsResultFor(g)
    ensures NonzeroCount(d.edgeMask[..]) <= InteriorPixelCount(d.width, d.height)
    ensures forall i :: 0 <= i < d.width * d.height ==> 0 <= d.magnitude[i] <= 2040
  {
    var w, h := d.width, d.height;
    forall x, y | 0 <= x < w && 0 <= y < h && !Interior(w, h, x, y)
      ensures d.edgeMask[..][Index(w, h, x, y)] == 0
    {
      assert d.Computed(g, x, y);
    }
    NonzeroCountAtMostInterior(d.edgeMask[..], w, h);
    forall i | 0 <= i < w * h
      ensures 0 <= d.magnitude[i] <= 2040
    {
      OffsetDecodes(w, h, i);
      assert d.Computed(g, i % w, i / w);
    }
  }
}
