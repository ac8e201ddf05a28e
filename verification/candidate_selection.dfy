/**
 * The component filters of the two camera harnesses and the choice of the
 * largest significant component shared by `DrawingBoxes` and the two-window
 * harness. Components are the records the extractor returns; a selection is
 * reported as the index of the chosen component.
 */
module CandidateSelection {
  import opened Base
  import opened Components

  /** `minimumComponentPixelCountThreshold` of the components harness. */
  const MinimumCandidatePixelCount := 2000
  /** `minimumComponentPixelCountThreshold` of the two-window harness. */
  const MinimumSignificantPixelCount := 200
  /** `gradientMagnitudeThresholdValue` of the components harness, for its edge detector. */
  const GradientMagnitudeThreshold := 80

  /**
   * The four heuristics of the components harness. With `area > 0`,
   * `area / frameArea > 0.50` is `2 * area > frameArea` and the fill ratio
   * `count / area < 0.05` is `20 * count < area`.
   */
  predicate PassesFilters(c: ComponentRecord, frameArea: int) {
    && c.pixelCount >= MinimumCandidatePixelCount
    && c.Area() > 0
    && !(2 * c.Area() > frameArea)
    && !(20 * c.FillRatio().num < c.FillRatio().den)
  }

  /** The two candidate filters of the harnesses. */
  datatype Criterion = Heuristics(frameArea: int) | AtLeast(threshold: int)

  predicate Keeps(k: Criterion, c: ComponentRecord) {
    match k
    case Heuristics(frameArea) => PassesFilters(c, frameArea)
    case AtLeast(threshold) => c.pixelCount >= threshold
  }

  /** The components of `cs` that `keep` accepts, in their original order. */
  function Select(cs: seq<ComponentRecord>, keep: Criterion): (r: seq<ComponentRecord>)
    ensures |r| <= |cs|
  {
    if |cs| == 0 then []
    else
      var init := Select(cs[..|cs| - 1], keep);
      if Keeps(keep, cs[|cs| - 1]) then init + [cs[|cs| - 1]] else init
  }

  /** `Select` keeps exactly the components the criterion accepts. */
  lemma {:induction false} SelectMembers(cs: seq<ComponentRecord>, keep: Criterion)
    ensures forall c :: c in Select(cs, keep) <==> c in cs && Keeps(keep, c)
  {
    if |cs| > 0 {
      SelectMembers(cs[..|cs| - 1], keep);
      assert cs == cs[..|cs| - 1] + [cs[|cs| - 1]];
    }
  }

  lemma SelectAppend(cs: seq<ComponentRecord>, c: ComponentRecord, keep: Criterion)
    ensures Select(cs + [c], keep) == if Keeps(keep, c) then Select(cs, keep) + [c] else Select(cs, keep)
  {
    assert (cs + [c])[..|cs|] == cs;
  }

  /** The largest pixel count in `cs`, or 0 for an empty list. */
  function MaxPixelCount(cs: seq<ComponentRecord>): (m: int)
    ensures m >= 0
  {
    if |cs| == 0 then 0
    else
      var init := MaxPixelCount(cs[..|cs| - 1]);
      if cs[|cs| - 1].pixelCount > init then cs[|cs| - 1].pixelCount else init
  }

  /** `MaxPixelCount` bounds every count and is attained unless it is 0. */
  lemma {:induction false} MaxPixelCountIsMaximum(cs: seq<ComponentRecord>)
    ensures forall i :: 0 <= i < |cs| ==> cs[i].pixelCount <= MaxPixelCount(cs)
    ensures MaxPixelCount(cs) == 0 || exists i :: 0 <= i < |cs| && cs[i].pixelCount == MaxPixelCount(cs)
  {
    if |cs| > 0 {
      var n := |cs| - 1;
      MaxPixelCountIsMaximum(cs[..n]);
      assert forall i :: 0 <= i < n ==> cs[..n][i] == cs[i];
    }
  }

  lemma MaxPixelCountAppend(cs: seq<ComponentRecord>, c: ComponentRecord)
    ensures MaxPixelCount(cs + [c]) ==
            if c.pixelCount > MaxPixelCount(cs) then c.pixelCount else MaxPixelCount(cs)
  {
    assert (cs + [c])[..|cs|] == cs;
  }

  /**
   * The four `continue` tests of the candidate loop, in their order: too few
   * pixels, a non-positive box area, a box above half the frame, a fill
   * ratio below 0.05.
   */
  method CheckHeuristics(c: ComponentRecord, frameArea: int) returns (passes: bool)
    ensures passes == Keeps(Heuristics(frameArea), c)
    ensures passes ==> c.pixelCount >= 2000 && c.Area() > 0 && 2 * c.Area() <= frameArea && 20 * c.pixelCount >= c.Area()
  {
    if c.pixelCount < MinimumCandidatePixelCount {
      return false;
    }
    var area := c.Area();
    if area <= 0 {
      return false;
    }
    if 2 * area > frameArea {
      return false;
    }
    var fill := c.FillRatio();
    if 20 * fill.num < fill.den {
      return false;
    }
    return true;
  }

  /**
   * The candidate loop of the components harness: the global maximum is
   * raised by every component before any filter runs, then the components
   * passing all four heuristics are kept in order, with their largest count.
   */
  method FilterCandidateComponents(components: seq<ComponentRecord>, frameArea: int, globalMaximum: int)
    returns (candidates: seq<ComponentRecord>, filteredMaximum: int, newGlobalMaximum: int)
    requires globalMaximum >= 0
    ensures candidates == Select(components, Heuristics(frameArea))
    ensures forall c :: c in candidates ==>
              && c.pixelCount >= 2000
              && c.Area() > 0
              && 2 * c.Area() <= frameArea
              && 20 * c.pixelCount >= c.Area()
    ensures filteredMaximum == MaxPixelCount(candidates)
    ensures newGlobalMaximum >= globalMaximum
    ensures newGlobalMaximum == if MaxPixelCount(components) > globalMaximum then MaxPixelCount(components) else globalMaximum
  {
    candidates := [];
    filteredMaximum := 0;
    newGlobalMaximum := globalMaximum;
    var i := 0;
    while i < |components|
      invariant 0 <= i <= |components|
      invariant candidates == Select(components[..i], Heuristics(frameArea))
      invariant filteredMaximum == MaxPixelCount(candidates)
      invariant newGlobalMaximum ==
                  if MaxPixelCount(components[..i]) > globalMaximum then MaxPixelCount(components[..i]) else globalMaximum
    {
      var current := components[i];
      assert components[..i + 1] == components[..i] + [current];
      SelectAppend(components[..i], current, Heuristics(frameArea));
      MaxPixelCountAppend(components[..i], current);
      MaxPixelCountAppend(candidates, current);
      if current.pixelCount > newGlobalMaximum {
        newGlobalMaximum := current.pixelCount;
      }
      var passes := CheckHeuristics(current, frameArea);
      if passes {
        candidates := candidates + [current];
        if current.pixelCount > filteredMaximum {
          filteredMaximum := current.pixelCount;
        }
      }
      i := i + 1;
    }
    assert components[..i] == components;
    SelectMembers(components, Heuristics(frameArea));
  }

  /**
   * The candidate loop of the two-window harness: the components with at
   * least `threshold` pixels, in order, and their largest count.
   */
  method SelectCandidatesAtLeast(components: seq<ComponentRecord>, threshold: int)
    returns (candidates: seq<ComponentRecord>, maximum: int)
    ensures candidates == Select(components, AtLeast(threshold))
    ensures maximum == MaxPixelCount(candidates)
  {
    candidates := [];
    maximum := 0;
    var i := 0;
    while i < |components|
      invariant 0 <= i <= |components|
      invariant candidates == Select(components[..i], AtLeast(threshold))
      invariant maximum == MaxPixelCount(candidates)
    {
      var current := components[i];
      assert components[..i + 1] == components[..i] + [current];
      SelectAppend(components[..i], current, AtLeast(threshold));
      MaxPixelCountAppend(candidates, current);
      var count := current.pixelCount;
      if count >= threshold {
        candidates := candidates + [current];
        if count > maximum {
          maximum := count;
        }
      }
      i := i + 1;
    }
    assert components[..i] == components;
  }

  /** A component the selection may choose: enough pixels and a non-empty pixel list. */
  predicate Significant(c: ComponentRecord, threshold: int) {
    c.pixelCount >= threshold && |c.pixels| > 0
  }

  /**
   * The index the selection loop ends with: the first significant component
   * whose count no significant component exceeds, or `None`.
   */
  function Largest(cs: seq<ComponentRecord>, threshold: int): (r: Option<nat>)
    ensures r.None? <==> forall i :: 0 <= i < |cs| ==> !Significant(cs[i], threshold)
    ensures r.Some? ==> r.value < |cs| && Significant(cs[r.value], threshold)
    ensures r.Some? ==> forall i :: 0 <= i < |cs| && Significant(cs[i], threshold) ==>
              cs[i].pixelCount <= cs[r.value].pixelCount
    ensures r.Some? ==> forall i :: 0 <= i < r.value && Significant(cs[i], threshold) ==>
              cs[i].pixelCount < cs[r.value].pixelCount
  {
    if |cs| == 0 then None
    else
      var n := |cs| - 1;
      var best := Largest(cs[..n], threshold);
      assert forall i :: 0 <= i < n ==> cs[..n][i] == cs[i];
      if Significant(cs[n], threshold) && (best.None? || cs[n].pixelCount > cs[best.value].pixelCount)
      then Some(n)
      else best
  }

  /**
   * The selection loop of `drawConvexHullForLargestSignificantEdgeConnectedComponent`:
   * components below the threshold or with an empty pixel list are skipped,
   * and a later component replaces the current choice only with a strictly
   * larger count.
   */
  method SelectLargestSignificantComponent(components: seq<ComponentRecord>, threshold: int)
    returns (largest: Option<nat>)
    ensures largest == Largest(components, threshold)
  {
    largest := None;
    var i := 0;
    while i < |components|
      invariant 0 <= i <= |components|
      invariant largest == Largest(components[..i], threshold)
    {
      var current := components[i];
      assert components[..i + 1][..i] == components[..i];
      assert forall k :: 0 <= k < i ==> components[..i][k] == components[k];
      if current.pixelCount < threshold {
      } else if |current.pixels| == 0 {
      } else if largest.None? || current.pixelCount > components[largest.value].pixelCount {
        largest := Some(i);
      }
      i := i + 1;
    }
    assert components[..i] == components;
  }

  /**
   * The two-window harness falls back to the full component list when no
   * candidate reaches the threshold; the selection then applies the same
   * threshold and finds nothing.
   */
  lemma FallbackSelectsNothing(components: seq<ComponentRecord>, threshold: int)
    requires Select(components, AtLeast(threshold)) == []
    ensures Largest(components, threshold) == None
  {
    SelectMembers(components, AtLeast(threshold));
    forall i | 0 <= i < |components|
      ensures !Significant(components[i], threshold)
    {
      assert components[i] !in Select(components, AtLeast(threshold));
    }
  }

  /**
   * Choosing among the candidates at the threshold picks the same component
   * as choosing among all components: the filter drops only components the
   * selection skips and keeps the order.
   */
  lemma {:induction false} PrefilterKeepsSelection(components: seq<ComponentRecord>, threshold: int)
    ensures var candidates := Select(components, AtLeast(threshold));
            && Largest(candidates, threshold).Some? == Largest(components, threshold).Some?
            && (Largest(candidates, threshold).Some? ==>
                  candidates[Largest(candidates, threshold).value] ==
                  components[Largest(components, threshold).value])
  {
    var keep := AtLeast(threshold);
    if |components| > 0 {
      var n := |components| - 1;
      var last := components[n];
      var init := components[..n];
      assert components == init + [last];
      PrefilterKeepsSelection(init, threshold);
      var cInit := Select(init, keep);
      SelectAppend(init, last, keep);
      LargestAppend(init, last, threshold);
      if Keeps(keep, last) {
        LargestAppend(cInit, last, threshold);
      }
    }
  }

  lemma LargestAppend(cs: seq<ComponentRecord>, c: ComponentRecord, threshold: int)
    ensures Largest(cs + [c], threshold) ==
            var best := Largest(cs, threshold);
            if Significant(c, threshold) && (best.None? || c.pixelCount > cs[best.value].pixelCount)
            then Some(|cs|) else best
  {
    assert (cs + [c])[..|cs|] == cs;
  }
}
