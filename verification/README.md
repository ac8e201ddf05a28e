# PhantomCamera pixel pipeline, modelled in Dafny

This project models the hand-written integer pipeline of PhantomCamera. The
pipeline turns a camera frame into ordered quadrilateral corner candidates
for AprilTag detection. It has these stages:

- **BGR to gray.** `GrayScaleConvertionUtils` computes a fixed-point weighted
  sum of each pixel's three bytes, shifted right by 8.
- **Frame statistics.** `GrayScaleStatistics` reports the minimum, maximum
  and sum of the gray bytes. `EdgeStadistics` reports the edge-pixel count
  and the largest gradient.
- **Edge detector.** `AprilTagEdgeDetector` applies a 3x3 Sobel operator,
  takes the L1 magnitude and thresholds it into a 0/255 mask. It works in
  reusable buffers that each call zero-fills and then overwrites.
- **Component extractor.** `AprilTagEdgeComponentExtractor` raster-scans the
  mask. Each unvisited edge pixel seeds a breadth-first flood fill over
  8-neighbours. The fill uses an array queue with head and tail indices and
  a visited array.
- **Component record.** `EdgeConnectedComponent` holds a pixel counter, a
  bounding box and a pixel list, with width, height, area and ratio getters.
- **Convex hull.** `AprilTagConvexHullCalculator` is a monotone chain: it
  sorts the points by x then y and builds lower and upper chains with a
  pop-while-cross-product-is-not-positive rule.
- **Quadrilateral fitter.** `AprilTagQuadrilateralFitter` applies the size
  guards and orders the four corners by quadrant around their centroid.
- **Candidate selection.** The camera harnesses filter components
  (`CameraGrayscaleEdgeAndComponentsTest`,
  `CameraGrayscaleAndEdgeTwoWindowsTest`). `DrawingBoxes` picks the largest
  significant component, computes its hull, fits the corners and draws both
  outlines.

Module layout, one file per stage:

- `base.dfy` (Base): Java `byte`, `short` and `int` behaviour, plus the `Option` and `Result` wrappers.
- `geometry.dfy` (Geometry): pixel coordinates and row-major offsets.
- `gray_conversion.dfy`, `grayscale_statistics.dfy`, `edge_statistics.dfy`: the small integer kernels.
- `edge_detector.dfy` (EdgeDetection): a class owning the five buffers.
- `components.dfy` (Components): the record value and the mutable class.
- `component_extractor.dfy` (ComponentExtraction): a class owning the edge, visited and queue buffers.
- `convex_hull.dfy`, `quad_fitter.dfy`, `candidate_selection.dfy`, `drawing.dfy`.

Modelling choices:

- **Exceptions and nulls.** A thrown exception is `Fail(error)` of a `Result`. A `null` reference is `None`.
- **Loops and buffers.** The source's loops are `while` loops. Its reusable arrays are Dafny `array`s. Its lists are `seq` values.
- **Specifications.** Each loop is proved against a specification function: `GradientX`, `Accumulate`, `Select`, `Largest`, `OrderedCorners` and others.
- **Mat access.** An OpenCV `Mat` is a `GrayFrame(cols, rows, data)`. `Mat.get` and `Mat.put` become sequence copies.
- **Doubles.** Every `double` comparison is replaced by an exact integer form:
  - the quadrant tests `x < Σx/4` become `4·x < Σx`;
  - `area/frameArea > 0.50` becomes `2·area > frameArea`;
  - `count/area < 0.05` becomes `20·count < area`.

  The fill ratio and the aspect ratio are rationals.
- **Component records.** The extractor ends by calling a six-argument `EdgeConnectedComponent` constructor (`AprilTagEdgeComponentExtractor.java:217-224`). The class only declares a one-argument, label-only constructor (`EdgeConnectedComponent.java:23`). The model follows what the extractor evidently means: its records hold the count, the four box bounds and the pixel list. It assigns no label.

The two-window harness has its own copy of the largest-component drawing
(`CameraGrayscaleAndEdgeTwoWindowsTest.java:395-441`). Its selection loop is
the same as the one in `DrawingBoxes`, and its hull guard is the same, so
`Largest` models both copies.

## Model

Source paths are relative to the repository root.

| member | source | states |
|---|---|---|
| Base.Unsigned | src/main/java/org/PhantomCamera/Utils/GrayScaleConvertionUtils.java:34-38 | `b & 0xFF` reads a byte as 0..255: the byte itself when non-negative, the byte plus 256 otherwise |
| Base.ToJByte | src/main/java/org/PhantomCamera/Utils/GrayScaleConvertionUtils.java:42 | `(byte) v` is a signed byte congruent to `v` modulo 256 |
| Base.UnsignedToJByte | src/main/java/org/PhantomCamera/Utils/GrayScaleConvertionUtils.java:40-42 | a value in 0..255 stored through `(byte)` reads back unchanged through `& 0xFF`, so the cast loses nothing |
| Base.ToJShort | src/main/java/org/PhantomCamera/AprilTags/AprilTagEdgeDetector.java:151-152 | `(short) v` is a signed short congruent to `v` modulo 65536 |
| Base.ToJShortExact | src/main/java/org/PhantomCamera/AprilTags/AprilTagEdgeDetector.java:151-152 | a gradient in the short range is stored exactly by the `(short)` cast |
| Base.Wrap32 | src/main/java/org/PhantomCamera/AprilTags/AprilTagConvexHullCalculator.java:127-135 | an `int` subtraction yields the 32-bit value congruent to the exact difference |
| Base.Abs | src/main/java/org/PhantomCamera/AprilTags/AprilTagEdgeDetector.java:154-155 | `Math.abs` is non-negative and is the value or its negation |
| Geometry.Index | src/main/java/org/PhantomCamera/AprilTags/AprilTagEdgeComponentExtractor.java:195-196 | the offset `y*w + x` of an in-frame pixel lies in row `y`, below `w*h`, and decodes back to `(x, y)` through `/` and `%` |
| Geometry.IndexInjective | src/main/java/org/PhantomCamera/AprilTags/AprilTagEdgeComponentExtractor.java:195-196 | distinct in-frame pixels have distinct offsets |
| Geometry.OffsetDecodes | src/main/java/org/PhantomCamera/AprilTags/AprilTagEdgeComponentExtractor.java:144-145 | every offset below `w*h` is the offset of the in-frame pixel `(i % w, i / w)` |
| GrayConversion.GrayOfTriple | src/main/java/org/PhantomCamera/Utils/GrayScaleConvertionUtils.java:32-40 | the weighted luma of a pixel lies in 0..255, between the smallest and the largest of its three bytes |
| GrayConversion.GrayPlane | src/main/java/org/PhantomCamera/Utils/GrayScaleConvertionUtils.java:30-44 | the gray plane has one byte per pixel, each the byte cast of its luma, and it reads back as that luma |
| GrayConversion.GrayOfUniformPixel | src/main/java/org/PhantomCamera/Utils/GrayScaleConvertionUtils.java:40 | a pixel whose three bytes are equal keeps that value, because the weights sum to 256 |
| GrayConversion.ConvertBgrToGrayscale | src/main/java/org/PhantomCamera/Utils/GrayScaleConvertionUtils.java:7-46 | a short output throws first, then a short input throws, in both cases before anything is written; otherwise output `[0, w*h)` becomes the gray plane of the input and the rest of the output keeps its old contents |
| GrayConversion.RedOutweighsGreenAsWritten | src/main/java/org/PhantomCamera/Utils/GrayScaleConvertionUtils.java:34-40 | as written, pure red (byte 2) converts to 149 and pure green (byte 1) to 76 |
| GrayConversion.Luma | src/main/java/org/PhantomCamera/Utils/GrayScaleConvertionUtils.java:40 | BT.601 luma with each weight on its named channel lies between the smallest and largest channel |
| GrayConversion.LumaOrdersPrimaries | src/main/java/org/PhantomCamera/Utils/GrayScaleConvertionUtils.java:40 | with the weights on their named channels, pure green is 149, pure red 76 and pure blue 28 |
| GrayConversion.GrayOfTripleSwapsRedAndGreen | src/main/java/org/PhantomCamera/Utils/GrayScaleConvertionUtils.java:34-40 | the loop as written equals `Luma` with the red and green bytes exchanged, for every pixel |
| GrayscaleStatistics.UnsignedSum | src/main/java/org/PhantomCamera/Stadistics/GrayScaleStatistics.java:42 | the sum of the unsigned pixels is between 0 and 255 times the pixel count |
| GrayscaleStatistics.UnsignedSumBetween | src/main/java/org/PhantomCamera/Stadistics/GrayScaleStatistics.java:33-43 | a sum of values between `lo` and `hi` lies between `lo*n` and `hi*n` |
| GrayscaleStatistics.CalculateGrayscaleFrameStatistics | src/main/java/org/PhantomCamera/Stadistics/GrayScaleStatistics.java:22-53 | an empty frame gives (255, 0); otherwise min ≤ every pixel ≤ max with both attained; the sum is the total of the first `w*h` unsigned pixels, between `min*n` and `max*n` |
| EdgeStatistics.NonzeroCount | src/main/java/org/PhantomCamera/Stadistics/EdgeStadistics.java:35-37 | the number of nonzero bytes is at most the length |
| EdgeStatistics.CalculateEdgeFrameStatistics | src/main/java/org/PhantomCamera/Stadistics/EdgeStadistics.java:23-49 | the count is the number of nonzero mask bytes below `w*h` (so 0..w*h); the maximum is ≥ 0, ≥ every magnitude, and either 0 or attained |
| EdgeStatistics.NonzeroCountConcat | src/main/java/org/PhantomCamera/Stadistics/EdgeStadistics.java:34-38 | counting nonzero bytes is additive over concatenation |
| EdgeStatistics.RowNonzeroCount | src/main/java/org/PhantomCamera/Stadistics/EdgeStadistics.java:34-38 | in a mask that is zero off the interior, an interior row has at most `w-2` nonzero bytes and the top and bottom rows have none |
| EdgeStatistics.RowsNonzeroCount | src/main/java/org/PhantomCamera/Stadistics/EdgeStadistics.java:34-38 | the first `k` rows hold at most `w-2` nonzero bytes per interior row among them |
| EdgeStatistics.NonzeroCountAtMostInterior | src/main/java/org/PhantomCamera/Stadistics/EdgeStadistics.java:34-38 | a mask that is zero off the interior has at most `(w-2)*(h-2)` nonzero bytes |
| EdgeStatistics.DetectorOutputBounds | src/main/java/org/PhantomCamera/Stadistics/EdgeStadistics.java:34-43 | on the edge detector's buffers the edge count is at most `(W-2)*(H-2)` and every magnitude is in 0..2040 |
| EdgeDetection.At | src/main/java/org/PhantomCamera/AprilTags/AprilTagEdgeDetector.java:112-131 | a neighbour is read as an unsigned intensity in 0..255 |
| EdgeDetection.GradientX | src/main/java/org/PhantomCamera/AprilTags/AprilTagEdgeDetector.java:133-140 | the horizontal Sobel response lies in -1020..1020 and is 0 off the interior |
| EdgeDetection.GradientY | src/main/java/org/PhantomCamera/AprilTags/AprilTagEdgeDetector.java:142-149 | the vertical Sobel response lies in -1020..1020 and is 0 off the interior |
| EdgeDetection.Magnitude | src/main/java/org/PhantomCamera/AprilTags/AprilTagEdgeDetector.java:154-155 | the L1 magnitude lies in 0..2040 and is 0 off the interior |
| EdgeDetection.EdgeValueIsBinary | src/main/java/org/PhantomCamera/AprilTags/AprilTagEdgeDetector.java:159-163 | every mask byte reads as 0 or 255, and as 255 exactly at interior pixels whose magnitude reaches the threshold |
| EdgeDetection.EdgeDetector.constructor | src/main/java/org/PhantomCamera/AprilTags/AprilTagEdgeDetector.java:37-56 | stores the size and threshold and allocates five fresh buffers of `w*h` entries |
| EdgeDetection.EdgeDetector.GetEdgeBinaryByteArray | src/main/java/org/PhantomCamera/AprilTags/AprilTagEdgeDetector.java:173-175 | returns the mask buffer itself, not a copy |
| EdgeDetection.EdgeDetector.GetGradientMagnitudeIntegerArray | src/main/java/org/PhantomCamera/AprilTags/AprilTagEdgeDetector.java:177-179 | returns the magnitude buffer itself, not a copy |
| EdgeDetection.EdgeDetector.CalculateEdgeBinaryFrameFromGrayscaleFrame | src/main/java/org/PhantomCamera/AprilTags/AprilTagEdgeDetector.java:65-171 | an empty frame returns the previous output with all buffers unchanged; a size mismatch throws with all buffers unchanged; otherwise every buffer holds the Sobel result of this frame alone, whatever an earlier call left, with a zero border, and the output equals the mask |
| EdgeDetection.EdgeDetector.CopyAndClear | src/main/java/org/PhantomCamera/AprilTags/AprilTagEdgeDetector.java:83-89 | the frame is copied into the gray buffer and all four output buffers are zero at every pixel |
| EdgeDetection.EdgeDetector.ResultHasZeroBorder | src/main/java/org/PhantomCamera/AprilTags/AprilTagEdgeDetector.java:86-104 | buffers holding the result for a frame are zero on row 0, row H-1, column 0 and column W-1 |
| EdgeDetection.EdgeDetector.ApplySobel | src/main/java/org/PhantomCamera/AprilTags/AprilTagEdgeDetector.java:92-165 | starting from cleared buffers, the nested loops leave the result for the frame at every pixel |
| EdgeDetection.EdgeDetector.ApplySobelToRow | src/main/java/org/PhantomCamera/AprilTags/AprilTagEdgeDetector.java:103-164 | one pass of the x loop extends the computed region by all of row `y` and leaves the later rows cleared |
| EdgeDetection.EdgeDetector.ReadGradients | src/main/java/org/PhantomCamera/AprilTags/AprilTagEdgeDetector.java:96-149 | the eight neighbour reads through the row start offsets give exactly the Sobel responses of the pixel |
| EdgeDetection.EdgeDetector.ApplySobelAt | src/main/java/org/PhantomCamera/AprilTags/AprilTagEdgeDetector.java:107-163 | writes the gradients, magnitude and mask byte of pixel (x, y) and leaves every other pixel of the four buffers as it was |
| Components.ComponentRecord.Width | src/main/java/org/PhantomCamera/AprilTags/EdgeConnectedComponent.java:62-67 | 0 for an empty component; otherwise at least 1, and every pixel's x lies within `width` columns of `minX` |
| Components.ComponentRecord.Height | src/main/java/org/PhantomCamera/AprilTags/EdgeConnectedComponent.java:69-74 | 0 for an empty component; otherwise at least 1, and every pixel's y lies within `height` rows of `minY` |
| Components.ComponentRecord.Area | src/main/java/org/PhantomCamera/AprilTags/EdgeConnectedComponent.java:76-78 | for a well-formed record the area is non-negative and is 0 exactly when the count is 0 |
| Components.ComponentRecord.AspectRatio | src/main/java/org/PhantomCamera/AprilTags/EdgeConnectedComponent.java:80-89 | 0 for a zero height; otherwise a rational equal to width / height |
| Components.ComponentRecord.FillRatio | src/main/java/org/PhantomCamera/AprilTags/EdgeConnectedComponent.java:91-97 | 0 for a non-positive area; otherwise a rational equal to count / area |
| Components.EmptyRecord | src/main/java/org/PhantomCamera/AprilTags/EdgeConnectedComponent.java:23-33 | the constructor's field values form a well-formed record with an empty list |
| Components.WithPixelKeepsWellFormed | src/main/java/org/PhantomCamera/AprilTags/EdgeConnectedComponent.java:35-60 | one update raises the count by exactly one, appends exactly that pixel and keeps count == list length with a tight box |
| Components.AccumulateAppend | src/main/java/org/PhantomCamera/AprilTags/EdgeConnectedComponent.java:35-60 | one more pixel at the end of the list is one more update |
| Components.AccumulateIsTight | src/main/java/org/PhantomCamera/AprilTags/EdgeConnectedComponent.java:41-52 | after updates with the pixels of a list, in order, the count is its length and the box is exactly the min and max of its x and y values |
| Components.EdgeConnectedComponent.constructor | src/main/java/org/PhantomCamera/AprilTags/EdgeConnectedComponent.java:23-33 | count 0, empty list, minima `Integer.MAX_VALUE`, maxima `Integer.MIN_VALUE`, the given label |
| Components.EdgeConnectedComponent.UpdateWithPixel | src/main/java/org/PhantomCamera/AprilTags/EdgeConnectedComponent.java:35-60 | the fields become the record after one more pixel: count plus one, box widened to the pixel, pixel appended; validity is preserved and the label is a constant |
| ComponentExtraction.DistinctInFrameBound | src/main/java/org/PhantomCamera/AprilTags/AprilTagEdgeComponentExtractor.java:126-129 | distinct in-frame pixels number at most `w*h`, which bounds the queue tail |
| ComponentExtraction.SeedEnqueued | src/main/java/org/PhantomCamera/AprilTags/AprilTagEdgeComponentExtractor.java:123-129 | marking the seed and enqueuing its offset starts a search whose only pixel is the decoded seed |
| ComponentExtraction.EnqueueKeepsSearch | src/main/java/org/PhantomCamera/AprilTags/AprilTagEdgeComponentExtractor.java:209-212 | marking an unvisited edge neighbour and enqueuing it keeps the queue consistent with the visited flags, and the tail stays below `w*h` |
| ComponentExtraction.ExpandedGrows | src/main/java/org/PhantomCamera/AprilTags/AprilTagEdgeComponentExtractor.java:140-214 | once a dequeued pixel's neighbours are visited, the expanded prefix of the queue grows by one |
| ComponentExtraction.SearchIsComplete | src/main/java/org/PhantomCamera/AprilTags/AprilTagEdgeComponentExtractor.java:140-215 | when the queue is empty, every nonzero neighbour of a found pixel was found, and every found pixel is joined to the seed through earlier found pixels |
| ComponentExtraction.SkipPixel | src/main/java/org/PhantomCamera/AprilTags/AprilTagEdgeComponentExtractor.java:90-100 | a zero or already visited pixel moves the scan on without a new component |
| ComponentExtraction.NextRow | src/main/java/org/PhantomCamera/AprilTags/AprilTagEdgeComponentExtractor.java:84-87 | the end of a row is the start of the next one |
| ComponentExtraction.FoundIsComponent | src/main/java/org/PhantomCamera/AprilTags/AprilTagEdgeComponentExtractor.java:102-104 | the pixels found from the first unvisited nonzero pixel form a component that starts there |
| ComponentExtraction.AppendKeepsComponents | src/main/java/org/PhantomCamera/AprilTags/AprilTagEdgeComponentExtractor.java:103-106 | appending the new component keeps the list pairwise disjoint and ordered by first pixel |
| ComponentExtraction.AppendKeepsVisited | src/main/java/org/PhantomCamera/AprilTags/AprilTagEdgeComponentExtractor.java:103-106 | after the append, a pixel is visited exactly when it belongs to some component, and the visited set is closed under nonzero neighbours |
| ComponentExtraction.AppendMovesScan | src/main/java/org/PhantomCamera/AprilTags/AprilTagEdgeComponentExtractor.java:103-106 | after the append every nonzero pixel up to the current one is visited |
| ComponentExtraction.AddComponent | src/main/java/org/PhantomCamera/AprilTags/AprilTagEdgeComponentExtractor.java:102-106 | a new component keeps the partition invariant and moves the scan on |
| ComponentExtraction.ScanIsExact | src/main/java/org/PhantomCamera/AprilTags/AprilTagEdgeComponentExtractor.java:84-110 | at the end of the scan the components are exact: each a closed, connected set of distinct nonzero pixels; pairwise disjoint; covering every nonzero pixel; in raster order of their seeds |
| ComponentExtraction.ExtractedRecordsAreTight | src/main/java/org/PhantomCamera/AprilTags/AprilTagEdgeComponentExtractor.java:147-168 | every extracted record has count == list length ≥ 1, a tight box, and a box inside the frame |
| ComponentExtraction.AprilTagEdgeComponentExtractor.constructor | src/main/java/org/PhantomCamera/AprilTags/AprilTagEdgeComponentExtractor.java:33-45 | allocates three fresh buffers of `w*h` entries |
| ComponentExtraction.AprilTagEdgeComponentExtractor.VisitNeighbour | src/main/java/org/PhantomCamera/AprilTags/AprilTagEdgeComponentExtractor.java:183-212 | an out-of-frame neighbour is never read; an in-frame nonzero neighbour ends up visited and, if it was not, enqueued; earlier flags and queue entries are kept |
| ComponentExtraction.AprilTagEdgeComponentExtractor.ExploreNeighbourRow | src/main/java/org/PhantomCamera/AprilTags/AprilTagEdgeComponentExtractor.java:175-213 | every nonzero neighbour in row offset `dy` ends up visited, keeping the search invariant |
| ComponentExtraction.AprilTagEdgeComponentExtractor.ExploreNeighbours | src/main/java/org/PhantomCamera/AprilTags/AprilTagEdgeComponentExtractor.java:171-214 | every nonzero 8-neighbour of the dequeued pixel ends up visited, keeping the search invariant |
| ComponentExtraction.AprilTagEdgeComponentExtractor.PerformBreadthFirstSearchFromSeedPixelIndex | src/main/java/org/PhantomCamera/AprilTags/AprilTagEdgeComponentExtractor.java:120-225 | the record starts at the seed and is the accumulation of its pixel list (count == length, tight box); the pixels are distinct, nonzero, previously unvisited, closed under nonzero neighbours and connected to the seed; exactly these pixels become visited |
| ComponentExtraction.AprilTagEdgeComponentExtractor.ScanRow | src/main/java/org/PhantomCamera/AprilTags/AprilTagEdgeComponentExtractor.java:84-108 | one row of the scan appends the components seeded in that row and keeps the partition invariant |
| ComponentExtraction.AprilTagEdgeComponentExtractor.ExtractEdgeConnectedComponentList | src/main/java/org/PhantomCamera/AprilTags/AprilTagEdgeComponentExtractor.java:54-111 | an empty frame gives an empty list; a size mismatch throws; otherwise the list is exactly the 8-connected components of the nonzero pixels, disjoint and covering, in raster order of their first pixels |
| ConvexHull.InsertLex | src/main/java/org/PhantomCamera/AprilTags/AprilTagConvexHullCalculator.java:22-42 | inserting into a sorted list keeps it sorted by (x, y) and adds exactly that point |
| ConvexHull.SortLex | src/main/java/org/PhantomCamera/AprilTags/AprilTagConvexHullCalculator.java:18-42 | the working copy is sorted by x then y and is a permutation of the input |
| ConvexHull.CrossProductValue | src/main/java/org/PhantomCamera/AprilTags/AprilTagConvexHullCalculator.java:122-139 | the cross product computed with `int` differences and `long` products stays in the `long` range |
| ConvexHull.CrossProductExact | src/main/java/org/PhantomCamera/AprilTags/AprilTagConvexHullCalculator.java:122-139 | when the differences fit in an `int`, the computed value is the exact cross product `(a−o)×(b−o)` |
| ConvexHull.ExactLeftTurns | src/main/java/org/PhantomCamera/AprilTags/AprilTagConvexHullCalculator.java:60-70 | on pixel coordinates, a chain that passes the computed test turns strictly left in exact arithmetic |
| ConvexHull.PushWithPops | src/main/java/org/PhantomCamera/AprilTags/AprilTagConvexHullCalculator.java:52-73 | pops while the turn is not strictly positive, then pushes: the chain stays strictly convex, keeps its first point and a prefix of the old chain, and ends at the new point |
| ConvexHull.SortedExtremes | src/main/java/org/PhantomCamera/AprilTags/AprilTagConvexHullCalculator.java:22-42 | the sorted copy has the input's points, with the lexicographic minimum first and the maximum last |
| ConvexHull.LowerChain | src/main/java/org/PhantomCamera/AprilTags/AprilTagConvexHullCalculator.java:50-74 | the lower chain is strictly convex, runs from the first to the last sorted point, and uses only input points |
| ConvexHull.UpperChain | src/main/java/org/PhantomCamera/AprilTags/AprilTagConvexHullCalculator.java:77-106 | the upper chain is strictly convex, runs from the last to the first sorted point, and uses only input points |
| ConvexHull.CalculateConvexHull | src/main/java/org/PhantomCamera/AprilTags/AprilTagConvexHullCalculator.java:10-120 | at most one point: returned unchanged; otherwise the hull is lower and upper chains without their last points, of length `|lower|+|upper|−2`, both strictly convex, starting at the lexicographic minimum and containing the maximum, with only input points |
| QuadrilateralFitter.Slot | src/main/java/org/PhantomCamera/AprilTags/AprilTagQuadrilateralFitter.java:139-152 | a corner is left iff `4x < Σx` and top iff `4y < Σy`; ties fall to right and bottom; the four quadrants map to slots 0..3 as TL, TR, BR, BL |
| QuadrilateralFitter.SumsOfPermutation | src/main/java/org/PhantomCamera/AprilTags/AprilTagQuadrilateralFitter.java:120-126 | the coordinate sums, and so the centroid, do not depend on the corner order |
| QuadrilateralFitter.SumsOfFour | src/main/java/org/PhantomCamera/AprilTags/AprilTagQuadrilateralFitter.java:123-126 | the loop's sums over four corners are the plain totals of their x and y values |
| QuadrilateralFitter.LastInSlot | src/main/java/org/PhantomCamera/AprilTags/AprilTagQuadrilateralFitter.java:137-153 | a filled slot holds a corner classified into that slot |
| QuadrilateralFitter.LastInSlotIsLast | src/main/java/org/PhantomCamera/AprilTags/AprilTagQuadrilateralFitter.java:137-153 | a slot stays null iff no corner falls in it; otherwise it holds an input corner that no later same-slot corner overwrote |
| QuadrilateralFitter.LastInSlotAppend | src/main/java/org/PhantomCamera/AprilTags/AprilTagQuadrilateralFitter.java:144-152 | one more classified corner overwrites its own slot and no other |
| QuadrilateralFitter.OrderQuadrilateralCornersClockwise | src/main/java/org/PhantomCamera/AprilTags/AprilTagQuadrilateralFitter.java:111-163 | an array whose length is not 4 is returned unchanged; four corners come out as the slot assignment around their centroid |
| QuadrilateralFitter.OrderedCornersComeFromInput | src/main/java/org/PhantomCamera/AprilTags/AprilTagQuadrilateralFitter.java:137-160 | every non-null output corner is an input corner in its own quadrant, and a slot is null iff its quadrant is empty |
| QuadrilateralFitter.LoneCornerFillsItsSlot | src/main/java/org/PhantomCamera/AprilTags/AprilTagQuadrilateralFitter.java:137-160 | a corner alone in its quadrant is the output for that slot |
| QuadrilateralFitter.AxisAlignedSquareInAnyOrder | src/main/java/org/PhantomCamera/AprilTags/AprilTagQuadrilateralFitter.java:119-162 | the corners (10,10), (110,10), (110,110), (10,110), in any input order, come out in exactly that order |
| QuadrilateralFitter.DiamondLeavesTopLeftEmpty | src/main/java/org/PhantomCamera/AprilTags/AprilTagQuadrilateralFitter.java:137-160 | for the diamond (50,0), (100,50), (50,100), (0,50) two corners share the bottom-right slot, the later one wins, and the top-left slot stays null |
| QuadrilateralFitter.CalculateQuadrilateralCorners | src/main/java/org/PhantomCamera/AprilTags/AprilTagQuadrilateralFitter.java:12-62 | fewer than 4 hull points gives null; a simplified polygon without exactly 4 vertices gives null; otherwise the ordered corners of the polygon |
| CandidateSelection.SelectMembers | src/test/java/AprilTagTest/CameraGrayscaleEdgeAndComponentsTest.java:158-194 | the selection holds exactly the components the criterion accepts |
| CandidateSelection.MaxPixelCountIsMaximum | src/test/java/AprilTagTest/CameraGrayscaleEdgeAndComponentsTest.java:196-198 | the running maximum bounds every count and is attained, or is 0 |
| CandidateSelection.CheckHeuristics | src/test/java/AprilTagTest/CameraGrayscaleEdgeAndComponentsTest.java:165-191 | passes iff count ≥ 2000, box area > 0, box area ≤ half the frame and fill ratio ≥ 0.05 |
| CandidateSelection.FilterCandidateComponents | src/test/java/AprilTagTest/CameraGrayscaleEdgeAndComponentsTest.java:156-199 | the candidates are the order-preserving sublist passing all four heuristics; the frame maximum is the largest candidate count or 0; the global maximum never decreases and becomes the larger of its old value and every count seen |
| CandidateSelection.SelectCandidatesAtLeast | src/test/java/AprilTagTest/CameraGrayscaleAndEdgeTwoWindowsTest.java:161-177 | the candidates are exactly the components with at least `threshold` pixels, in order; the maximum is their largest count or 0 |
| CandidateSelection.Largest | src/test/java/AprilTagTest/CameraGrayscaleAndEdgeTwoWindowsTest.java:401-421 | none iff no component is significant; otherwise a significant component of maximal count, and the first one with that count |
| CandidateSelection.SelectLargestSignificantComponent | src/main/java/org/PhantomCamera/Utils/DrawingBoxes.java:136-156 | the selection loop with its two `continue` tests and strict comparison ends with the index `Largest` specifies |
| CandidateSelection.LargestAppend | src/main/java/org/PhantomCamera/Utils/DrawingBoxes.java:150-155 | a later component replaces the choice only when significant with a strictly larger count |
| CandidateSelection.FallbackSelectsNothing | src/test/java/AprilTagTest/CameraGrayscaleAndEdgeTwoWindowsTest.java:238-245 | when no component reaches the threshold, falling back to the full list still selects nothing |
| CandidateSelection.PrefilterKeepsSelection | src/test/java/AprilTagTest/CameraGrayscaleAndEdgeTwoWindowsTest.java:238-245 | selecting among the at-least-threshold candidates picks the same component as selecting among all components |
| Drawing.ClosedOutlineUnique | src/main/java/org/PhantomCamera/Utils/DrawingBoxes.java:229-239 | a polygon has exactly one closed outline |
| Drawing.DrawClosedOutline | src/main/java/org/PhantomCamera/Utils/DrawingBoxes.java:229-269 | the segments from point `i` to point `(i+1) % n` form the closed outline of the points |
| Drawing.PrintCorners | src/main/java/org/PhantomCamera/Utils/DrawingBoxes.java:203-214 | the corner printing completes iff every corner is non-null, and throws a null dereference otherwise |
| Drawing.DrawQuadrilateralAsWritten | src/main/java/org/PhantomCamera/Utils/DrawingBoxes.java:272-316 | a length other than 4 draws nothing; four non-null corners draw their closed outline; a null corner throws |
| Drawing.DrawQuadrilateralChecked | src/main/java/org/PhantomCamera/Utils/DrawingBoxes.java:272-316 | draws the closed outline of four non-null corners and nothing otherwise, never throwing |
| Drawing.DrawDiamondAsWritten | src/main/java/org/PhantomCamera/Utils/DrawingBoxes.java:286-315 | drawing the diamond's ordered corners as written throws a null dereference |
| Drawing.DrawDiamondChecked | src/main/java/org/PhantomCamera/Utils/DrawingBoxes.java:276-279 | with the null check the diamond's ordered corners draw nothing and do not throw |
| Drawing.DrawConvexHullForLargestSignificantComponent | src/main/java/org/PhantomCamera/Utils/DrawingBoxes.java:129-270 | no significant component stops before any hull is computed; a hull below 2 points stops before fitting; otherwise the hull of the `Largest` component is outlined and, when the fitter returns corners, they are printed and drawn; a null corner throws while printing |

## Left out

- Camera capture, window threads, Swing display, `printf`/`println` logging and the OpenCV drawing calls are not modelled. Each `Imgproc.line` is recorded as a `Segment`, and the logging loop over hull points is omitted.
- OpenCV `Mat` storage is not modelled: `Mat.get`/`Mat.put` are sequence copies, and a `Mat` is its size plus its bytes. Checking the extractor's input `Mat` against the type `CV_8UC1` is not modelled; all frames are single-channel bytes.
- `Imgproc.arcLength`, `Imgproc.approxPolyDP`, the `0.02·perimeter` epsilon, the `MatOfPoint2f` conversions and the `Math.round` of their `double` points are foreign floating-point code. The simplified polygon is the parameter `approx`.
- `null` lists are not modelled: a `null` input to the hull or the fitter, and a `null` pixel list in the selection. Only `null` corners are modelled, as `None`. The selection's `null` test is subsumed by its empty-list test.
- `averageIntensityValue` (a `double` division) is left out; the statistics return the exact sum it is computed from.
- `Components.ComponentRecord.AspectRatio`: returns the rational width/height and does not model the `double` rounding of the division. The fill ratio and area fraction are exact rationals and integer cross-multiplications for the same reason.
- 32-bit `int` overflow is modelled where it matters: the `(byte)`/`(short)` casts and the `int` subtractions of the cross product. It is not modelled in `width * height`, `y * width`, the pixel counter, or the gray and Sobel sums. Frames are assumed small enough for these to fit, and the bounds proved (0..255, ±1020, 0..2040) show that the sums do.
- `ConvertBgrToGrayscale`: requires the input and output arrays to be different objects. The Java works the same when they alias, as long as the buffer is large enough, but that case is not modelled.
- `ConvexHull.CalculateConvexHull`: does not prove that every input point lies inside the hull polygon. It proves strict convexity of both chains, their end points and that the hull uses only input points. The hull returns the same list object for at most one point; the model returns the same value.
- The hull's `Collections.sort` is modelled by its result, a lexicographically sorted permutation computed by insertion. The library's merge sort is not part of this model.
- The component label is not assigned. The extractor's records come from a six-argument constructor that the shown `EdgeConnectedComponent` does not declare, so records carry no label. The label-only constructor is modelled on the class.
- `AprilTagFramePreProcessing`, `Filters`, `DetectedApriltag`, `AprilTag36h11Dictionary`, `Camera`, `CameraView`, `CameraGrayscaleStatisticsWindow`, `CameraGrayscaleTest` and `Main` are not part of this model. They are camera, user-interface or OpenCV wrappers, or data holders with no decoding logic.

## Findings

| source | as written | input that shows it | evidently intended | confidence | as-written member | corrected member |
|---|---|---|---|---|---|---|
| src/main/java/org/PhantomCamera/Utils/GrayScaleConvertionUtils.java:36-40 | byte 1 of a BGR pixel (green) gets the red weight 77, and byte 2 (red) gets the green weight 150 | pure red (0,0,255) gives 149 and pure green (0,255,0) gives 76 | BT.601 weights on their own channels: green 149, red 76, blue 28 | not executed; follows from the arithmetic | GrayConversion.RedOutweighsGreenAsWritten | GrayConversion.LumaOrdersPrimaries |
| src/main/java/org/PhantomCamera/Utils/DrawingBoxes.java:203-214 | the corners are printed, and then drawn (286-315), without checking for `null` slots | the diamond (50,0), (100,50), (50,100), (0,50) leaves the top-left slot `null`, and reading its `xPixeldCoordinate` throws | skip the corner output when a slot is `null` | not executed; follows from the ordering rule | Drawing.DrawDiamondAsWritten | Drawing.DrawDiamondChecked |
