# Tracker utilities: a Dafny model

This project models the geometric and colour-statistics helpers of the
object tracker in `tracker/tracker_utils.cpp` and proves properties of them:

- the rectangle helpers InflateRect, ComputeIoU, RectEnclosedByContour and BBoxArea;
- the azimuth bins of a viewing heading (AzimuthIndexFromRadian,
  RadianFromAzimuthIndex) and WarpAngle;
- the nine virtual control points of a mesh (GenerateControlPoints);
- both ComputeColorHistograms overloads. The rectangle-seeded one counts
  a box and its inflated ring. The mask-seeded one counts the pixels with
  mask value 0 and the positive-mask pixels around them;
- the set-up and row loop of ComputePixelwisePosterior.

Modules:

| module | file | contents |
|---|---|---|
| `Geometry` | geometry.dfy | `cv::Rect` and `cv::Point` and the normalising two-corner constructor; InflateRect, ComputeIoU, BBoxArea, RectEnclosedByContour |
| `Azimuth` | azimuth.dfy | azimuth bins, their inverse, WarpAngle (with `FEH_FLIP_AZIMUTH` defined, as the file does) |
| `ControlPoints` | control_points.dfy | GenerateControlPoints over an N-by-3 vertex list |
| `Images` | images.dfy | 8-bit three-channel images and 8-bit masks as value grids, and the bin index `c / (256 / histogram_size)` |
| `Sums` | sums.dfy | bin sums and the normalisation `h / (sum(h) + 1e-4)` |
| `Counting` | counting.dfy | reference definitions of what a histogram pass counts (region, pixel selection, channel, bin), and lemmas relating regions |
| `Histograms` | histograms.dfy | the rectangle-seeded ComputeColorHistograms, with its loops |
| `MaskSeed` | mask_seed.dfy | the mask-seeded ComputeColorHistograms, with its loops and the foreground extent |
| `Posterior` | posterior.dfy | the prior planes and the row-by-row kernel loop of ComputePixelwisePosterior |

Images are read-only in the core, so they are values (`Grid`). The
histograms are sequences that the loops rebuild one pixel at a time. The
two posterior planes are `array2<real>` that the method fills in place.
Every loop of the core is a `while` or `for` loop whose invariants tie it
to a reference function. The properties the tracker relies on are proved
about those functions.

Behaviour of the code worth knowing:

- ComputeIoU of a rectangle with itself is `area / (area + eps)`, which is
  always below 1, not exactly 1 (`Geometry.IoUSelf`).
- InflateRect with a pad of 0 returns the rectangle as it is, without
  clipping it to the image. Any other pad clamps one-sidedly: the grown
  top-left corner is raised to at least 0, and the grown bottom-right
  corner is lowered to at most `cols` and `rows`. A rectangle that starts
  beyond the image therefore stays partly outside it: for example,
  `Rect(20, 0, 1, 1)` with pad 1 in a 10-by-10 image gives x 10 and right
  edge 19 (`Geometry.InflateBeyondImage`). The two-corner constructor
  reorders corners that cross, so the sizes are never negative.
- The normalised histograms sum to `S / (S + 1e-4)` for a bin total of `S`,
  not to exactly 1 (`Histograms.NormalizedHistogramMass`).
- The rectangle-seeded background histogram is the histogram of the
  inflated box minus that of the box. It is never negative when the
  inflation is at least 0, because it is then exactly the histogram of the
  ring between the two boxes (`Counting.RingHistogram`). A negative
  inflation gives a box inside the seed only while the shrunk corners do
  not cross. The difference can then be negative. Once the corners cross,
  the two-corner constructor swaps them: `Rect(5, 5, 2, 2)` with pad -3
  gives `Rect(4, 4, 4, 4)`, which contains the seed again
  (`Geometry.ShrinkPastCentre`).
- The mask-seeded background box is built directly from the inclusive
  foreground extent, used as an exclusive corner. Without inflation it
  misses the last foreground column and row
  (`MaskSeed.UninflatedBoxMissesLastColumn`). With no foreground at all,
  and no inflation, it is the whole image (`MaskSeed.EmptyForegroundBox`).

## Model

| member | source | states |
|---|---|---|
| Geometry.RectFromPoints | tracker/tracker_utils.cpp:203 | the two-corner `cv::Rect` constructor: the corner is the smaller coordinates, the far edge the larger ones, and the sizes are never negative |
| Geometry.CornerRect | tracker/tracker_utils.cpp:205 | two equal corners give the empty rectangle at that corner, so an empty contour gives `Rect(0, 0, 0, 0)` |
| Geometry.InflateRect | tracker/tracker_utils.cpp:231-238 | a pad of 0 returns the rectangle unchanged; any other pad gives a rectangle with non-negative sizes |
| Geometry.ClampedInflate | tracker/tracker_utils.cpp:233-236 | the grown-and-clamped rectangle has non-negative sizes |
| Geometry.InflateRectInImage | tracker/tracker_utils.cpp:231-238 | for a positive pad and a rectangle inside the image, the corners are the clamped grown corners, the result lies inside the image and contains the original |
| Geometry.InflateBeyondImage | tracker/tracker_utils.cpp:231-238 | the clamps are one-sided: a rectangle right of the image, grown by 1 in a 10-by-10 image, becomes Rect(10, 0, 9, 2), which is not inside the image |
| Geometry.ShrinkPastCentre | tracker/tracker_utils.cpp:266-270 | a pad of -3 on Rect(5, 5, 2, 2) makes the corners cross; the constructor swaps them into Rect(4, 4, 4, 4), which contains the seed |
| Geometry.ClampedInflateIsInflateRect | tracker/tracker_utils.cpp:266-270 | inside the image, the inline inflation of the histogram builder equals InflateRect for every pad >= 0, lies in the image and contains the box |
| Geometry.IntersectionBounds | tracker/tracker_utils.cpp:226-227 | the intersection area is at most either area, and it is 0 exactly when the rectangles do not overlap |
| Geometry.IoURatio | tracker/tracker_utils.cpp:228 | `intersection / (total + eps)` lies in [0, 1) and is 0 exactly when the intersection is 0 |
| Geometry.ComputeIoU | tracker/tracker_utils.cpp:209-229 | the result is 0 exactly when the rectangles do not overlap, equals the order-free formula (intersection over union plus eps), and lies in [0, 1) |
| Geometry.SwapInvariant | tracker/tracker_utils.cpp:218 | overlap, intersection and union do not depend on the order of the two rectangles |
| Geometry.IoUSortedByX | tracker/tracker_utils.cpp:219-228 | after the first swap: the y-swap, both early returns and the ratio give the same results as ComputeIoU's contract |
| Geometry.IoUSymmetric | tracker/tracker_utils.cpp:209-229 | ComputeIoU(r1, r2) == ComputeIoU(r2, r1) |
| Geometry.IoUSelf | tracker/tracker_utils.cpp:226-228 | a rectangle against itself gives area / (area + eps), or 0 for an empty rectangle |
| Geometry.BBoxArea | tracker/tracker_utils.cpp:182-185 | the area is never negative, and it is 0 exactly when the box is flat in one direction |
| Geometry.BBoxAreaOfRect | tracker/tracker_utils.cpp:182-185 | a box drawn from a rectangle's corners, in either order, has the rectangle's area |
| Geometry.RunningMinIsMinimum | tracker/tracker_utils.cpp:189-198 | the running minimum from the sentinel bounds every coordinate and is the sentinel or one of them |
| Geometry.RunningMaxIsMaximum | tracker/tracker_utils.cpp:191-198 | the running maximum from 0 bounds every coordinate and is 0 or one of them |
| Geometry.RectEnclosedByContour | tracker/tracker_utils.cpp:187-207 | the loop computes the running extremes, clamps them and builds the rectangle: it is EnclosedRect, never negative in size, and the zero rectangle for an empty list |
| Geometry.EnclosedRectTight | tracker/tracker_utils.cpp:187-207 | for edge pixels in the image, the rectangle lies in the image; every pixel lies in its closed box; each edge is attained by a pixel; the pixels on the far edges are outside the half-open rectangle |
| Geometry.EnclosedRectBounds | tracker/tracker_utils.cpp:193-203 | every edge pixel lies between the rectangle's corners |
| Geometry.ExtremesAttained | tracker/tracker_utils.cpp:193-198 | each of the four running extremes is the coordinate of some edge pixel |
| Geometry.EnclosedRectCorners | tracker/tracker_utils.cpp:199-203 | for edge pixels in the image the clamps do nothing: the corners are the running extremes and lie inside the image |
| Geometry.EnclosedRectInImage | tracker/tracker_utils.cpp:199-203 | for any non-empty list of edge pixels in the image, the rectangle lies inside the image |
| Azimuth.FlippedDegrees | tracker/tracker_utils.cpp:150 | the whole number of flipped degrees is the floor of -rad / pi * 180 |
| Azimuth.AzimuthBin | tracker/tracker_utils.cpp:148-162 | the bin lies in [0, 360) and is congruent to floor(-rad / pi * 180) modulo 360 |
| Azimuth.AzimuthIndexFromRadian | tracker/tracker_utils.cpp:148-162 | the subtract/add loops end with the index in [0, 360), so the CHECKs hold, and the index equals AzimuthBin |
| Azimuth.Warp | tracker/tracker_utils.cpp:164-172 | the representative lies in [0, 2 pi) and differs from the angle by whole turns |
| Azimuth.WarpUnique | tracker/tracker_utils.cpp:164-172 | the whole-turn shift of an angle that lands in [0, 2 pi) is unique |
| Azimuth.WarpAngle | tracker/tracker_utils.cpp:164-172 | the two loops end in [0, 2 pi) at a whole-turn shift of the input, which is Warp(angle) |
| Azimuth.WarpIdempotent | tracker/tracker_utils.cpp:164-172 | angles already in [0, 2 pi) are kept, so warping twice equals warping once |
| Azimuth.WarpPeriodic | tracker/tracker_utils.cpp:164-172 | whole turns added to the input do not change the result |
| Azimuth.RadianFromAzimuthIndex | tracker/tracker_utils.cpp:173-180 | a bin index maps into (0, 2 pi], and index 0 maps to 2 pi |
| Azimuth.AzimuthRoundTrip | tracker/tracker_utils.cpp:148-180 | the bin of the angle of bin k is k, for every k in [0, 360) |
| Azimuth.AzimuthWithinOneDegree | tracker/tracker_utils.cpp:148-180 | the angle of an angle's bin is between 0 and 1 degree ahead of it, modulo whole turns |
| ControlPoints.CoeffBounds | tracker/tracker_utils.cpp:443-444 | the column-wise minimum and maximum bound every vertex coordinate and are attained |
| ControlPoints.GenerateControlPoints | tracker/tracker_utils.cpp:442-454 | nine points; point 4i + 2j + k takes x from xyz[i], y from xyz[j] and z from xyz[k]; the last is the centre; points 0 and 7 are the column-wise extremes, and their box holds every vertex and the centre |
| ControlPoints.UnitCubeExtremes | tracker/tracker_utils.cpp:442-454 | vertices in the unit cube that touch two opposite corners give the cube's box and the centre (0.5, 0.5, 0.5) |
| Images.BinIndex | tracker/tracker_utils.cpp:262 | the bin of a channel value: bin `index` holds the 256 / histogram_size consecutive values from index * (256 / histogram_size) |
| Images.BinIndexInRangeIffDivides | tracker/tracker_utils.cpp:262 | every byte value falls into one of the histogram_size bins exactly when histogram_size divides 256 |
| Images.BinInRange | tracker/tracker_utils.cpp:330 | for a histogram size dividing 256, the bin index is a valid index |
| Images.DivBelow | tracker/tracker_utils.cpp:262 | the integer quotient is below h exactly when the dividend is below q times h |
| Sums.VSub | tracker/tracker_utils.cpp:281 | `histb -= histf` takes the seed's counts out of the inflated counts bin by bin, so the background total is the inflated total minus the seed total |
| Sums.Normalize | tracker/tracker_utils.cpp:280-284 | each bin is scaled by 1 / (sum + 1e-4); for counts the result sums to Share(sum), every bin lies in [0, 1], and an empty histogram normalises to all zeros |
| Sums.Share | tracker/tracker_utils.cpp:282-283 | S / (S + 1e-4) lies in [0, 1) and is 0 exactly when S is 0 |
| Sums.DifferenceSum | tracker/tracker_utils.cpp:281 | any bin-wise difference of two vectors totals the difference of their totals |
| Sums.SumAdd | tracker/tracker_utils.cpp:262 | the sum of a bin-wise sum is the sum of the sums |
| Sums.SumIndicator | tracker/tracker_utils.cpp:261-263 | one pixel adds exactly 1 to a histogram's total |
| Sums.SumNonNegative | tracker/tracker_utils.cpp:282 | counts have a non-negative sum, which is 0 only when every bin is 0 |
| Sums.NormalizedMass | tracker/tracker_utils.cpp:280-284 | counts divided by their total plus 1e-4 sum to Share(total), lie in [0, 1], and are all zero when nothing was counted |
| Sums.RSumScaled | tracker/tracker_utils.cpp:282-283 | dividing every bin by d divides the total by d |
| Sums.BinBelowSum | tracker/tracker_utils.cpp:282 | every bin of a count histogram is at most its sum |
| Counting.RowCount | tracker/tracker_utils.cpp:259-264 | the hits of one row segment lie between 0 and its width |
| Counting.Histogram | tracker/tracker_utils.cpp:257-265 | histogram_size bins, bin b holding the number of selected pixels of the box whose channel value falls in b, none negative |
| Counting.RowSplit | tracker/tracker_utils.cpp:259 | a row's count splits at any column between its ends |
| Counting.RowsSplit | tracker/tracker_utils.cpp:258 | a band's count splits at any row between its ends |
| Counting.EveryCountIsArea | tracker/tracker_utils.cpp:257-265 | counting every pixel of a box gives its area |
| Counting.RowTotal | tracker/tracker_utils.cpp:261-263 | over the bins, one row's counts add up to its selected pixels |
| Counting.RowsTotal | tracker/tracker_utils.cpp:258-264 | over the bins, a band's counts add up to its selected pixels |
| Counting.HistogramTotal | tracker/tracker_utils.cpp:257-265 | the bins of a histogram add up to the number of selected pixels in the box |
| Counting.RingCount | tracker/tracker_utils.cpp:271-281 | in a box containing another, the pixels of the outer box are those of the inner box plus those of the ring |
| Counting.RingHistogram | tracker/tracker_utils.cpp:271-281 | the inflated box's histogram minus the inner box's is the histogram of the ring between them |
| Histograms.Zeros | tracker/tracker_utils.cpp:251-254 | `setZero(histogram_size)` gives a cleared channel: the right size, non-negative, with total 0, so no vote has been cast |
| Histograms.Whole | tracker/tracker_utils.cpp:324-325 | the full-frame rectangle lies in the image and covers rows times cols pixels |
| Histograms.NormalizeChannels | tracker/tracker_utils.cpp:280-284 | every channel is normalised |
| Histograms.AddPixel | tracker/tracker_utils.cpp:261-263 | the k-loop casts one vote per channel: bin BinIndex(c(k)) of channel k goes up by 1, and every other bin is unchanged |
| Histograms.AccumulateBox | tracker/tracker_utils.cpp:258-264 | the two pixel loops over a box add, to every bin, the number of selected pixels of the box that fall into it |
| Histograms.CountRectSeed | tracker/tracker_utils.cpp:249-279 | from cleared histograms, the two passes give the seed box's counts and the inflated box's counts, and the inflated box is the clamped grown box |
| Histograms.CountBox | tracker/tracker_utils.cpp:256-265 | the nested loops over a box compute Histogram for every channel |
| Histograms.ComputeColorHistogramsRect | tracker/tracker_utils.cpp:240-284 | the inflated box is InflateRect of the seed and contains it when inflate_size >= 0; histf is the normalised box histogram; histb is the normalised difference of the inflated and seed histograms; for inflate_size >= 0, histb is the normalised histogram of the ring |
| Histograms.RingOfBox | tracker/tracker_utils.cpp:271-281 | the three background channels, after the subtraction, are the ring histograms |
| Histograms.NormalizedHistogramMass | tracker/tracker_utils.cpp:280-284 | a normalised histogram sums to Share of its pixel count, with bins in [0, 1], all 0 for an empty region |
| Histograms.RectSeedMass | tracker/tracker_utils.cpp:257-284 | the foreground bins add up to the box's area, the background bins to the ring's area, and the normalised sums are their Shares |
| MaskSeed.Absorb | tracker/tracker_utils.cpp:333-336 | the four comparisons take the minimum and maximum of the extent with the pixel's row and column |
| MaskSeed.MaskSeedBox | tracker/tracker_utils.cpp:342-345 | the background box has non-negative sizes |
| MaskSeed.ScanRow | tracker/tracker_utils.cpp:325-338 | the extent after part of a row: the scan only ever widens it |
| MaskSeed.ScanRows | tracker/tracker_utils.cpp:323-339 | the extent after n rows, from (cols, rows, 0, 0): its minima stay at most (cols, rows) and its maxima at least 0 |
| MaskSeed.ScanRowCover | tracker/tracker_utils.cpp:325-338 | a row scan covers every foreground pixel seen, and leaves the extent alone when there is none |
| MaskSeed.ScanRowAttained | tracker/tracker_utils.cpp:333-336 | every change a row scan makes comes from one of the row's foreground pixels |
| MaskSeed.ScanRowsCover | tracker/tracker_utils.cpp:323-339 | after n rows, every foreground pixel seen is covered, and without one the start value is kept |
| MaskSeed.ScanRowsAttained | tracker/tracker_utils.cpp:323-339 | after n rows, each edge is the start value or a coordinate of a foreground pixel seen |
| MaskSeed.ForegroundExtentIsTight | tracker/tracker_utils.cpp:323-339 | with a foreground, the extent lies in the image, bounds every foreground pixel, and each edge is attained; without one it is the start value |
| MaskSeed.MaskSeedBoxFacts | tracker/tracker_utils.cpp:342-348 | for inflate_size >= 0 the box lies in the image; its corners are the clamped grown extent; with inflation >= 1 it contains every foreground pixel |
| MaskSeed.MaskSeedBoxInImage | tracker/tracker_utils.cpp:342-345 | for inflate_size >= 0 both clamped corners lie in the image, so the box does |
| MaskSeed.MaskSeedBoxCovers | tracker/tracker_utils.cpp:342-348 | with a foreground the corners come in order, and an inflation of at least 1 covers every foreground pixel |
| MaskSeed.UninflatedBoxMissesLastColumn | tracker/tracker_utils.cpp:342-345 | with inflation 0, some foreground pixel lies outside the box |
| MaskSeed.EmptyForegroundBox | tracker/tracker_utils.cpp:323-345 | with no foreground, the box spans from (cols - pad, rows - pad) to (pad, pad), clamped; with no inflation it is the whole image |
| MaskSeed.VisitPixel | tracker/tracker_utils.cpp:326-337 | a pixel with mask value 0 casts one vote per channel and is absorbed into the extent by the four comparisons; any other pixel changes nothing |
| MaskSeed.ScanImageRow | tracker/tracker_utils.cpp:325-338 | one row of the pass adds the row's mask-0 counts and scans the row into the extent |
| MaskSeed.ScanForeground | tracker/tracker_utils.cpp:323-339 | the single pass counts the mask-0 pixels' colours (Histogram over the whole image) and ends with ForegroundExtent |
| MaskSeed.ComputeColorHistogramsMask | tracker/tracker_utils.cpp:308-361 | bbox is MaskSeedBox; histf is the normalised histogram of the mask-0 pixels of the image; histb is the normalised histogram of the positive-mask pixels in bbox |
| Posterior.ComputePixelwisePosteriorInBox | tracker/tracker_utils.cpp:373-393 | two fresh image-sized planes; every pixel holds PlanesAt: the kernel's pair inside the box, the priors (0, 1 / area_b) = (0, 0.01) outside it |
| Posterior.ComputePixelwisePosterior | tracker/tracker_utils.cpp:365-371 | with the full-frame box, every pixel holds the kernel's values |

## Left out

- LoadMeshDatabase, Mat4FromState, StateFromLocalParam, the vertex helpers,
  OverlayMaskOnImage, PrettyDepth, LinearizeDepthMap, PrettyZBuffer and
  PrettyLabelMap: file I/O, Eigen/OpenCV transforms and display code outside
  the modelled core.
- src/visualization.cpp, app/MOT_visma.cpp and pix3d/pix3dloader.h are not part of this model.
- Floating point: floats and doubles are exact reals, M_PI is the exact
  decimal 3.141592653589793, and `(int)floor` is the exact floor. Rounding is
  not modelled, so neither is a WarpAngle loop that would fail to move a huge
  float, nor an azimuth round trip broken by rounding.
- Histogram bins are `VecXf` floats. The model counts in unbounded integers,
  so it ignores the loss of precision above 2^24 pixels.
- `eps` in ComputeIoU is declared in tracker_utils.h, which is not part of
  this model: it is a parameter constrained only to be positive.
- Geometry.ComputeIoU: requires non-negative rectangle sizes. `cv::Rect`
  can have negative sizes, but then `total + eps` can be 0 and the orderings
  the function relies on fail.
- Azimuth.AzimuthIndexFromRadian: only the branch compiled with
  `FEH_FLIP_AZIMUTH` defined is modelled, and likewise in
  RadianFromAzimuthIndex. The CHECK_GE/CHECK_LT macros become proved facts
  rather than run-time aborts.
- Geometry.EnclosedRectTight: stated only for edge pixels inside the image
  with coordinates below the sentinel 10000. Beyond it, the running minimum
  keeps the sentinel; only EnclosedRectInImage covers that case.
- The `EdgePixel` fields other than x and y are not modelled.
- Histograms.ComputeColorHistogramsRect: requires the bin size to divide 256
  and both boxes to lie inside the image. The box condition excludes the
  exception that OpenCV's region-of-interest assertion raises for
  `image(bbox)` and `image(inflated_bbox)`; that error path is not
  modelled. A bin size that does not divide 256 makes the source index past
  the last bin, which is undefined behaviour (Images.BinIndexInRangeIffDivides
  shows the limit is exact).
- MaskSeed.ComputeColorHistogramsMask: requires the same bin-size condition
  and a background box inside the image. Without it the background loop
  reads `mask.at` and `image.at` out of bounds, which is undefined
  behaviour. The box is inside the image whenever inflate_size >= 0
  (MaskSeed.MaskSeedBoxFacts).
- MaskSeed.ComputeColorHistogramsMask: requires the mask to have exactly
  the image's size. The source only reads the mask over the image's rows
  and columns, so it also accepts a larger mask; the model does not cover
  that case.
- ControlPoints.GenerateControlPoints: requires at least one vertex. The
  column-wise minCoeff/maxCoeff of an empty Eigen matrix is an assertion
  failure or undefined behaviour, so the model leaves that case out.
- Geometry.ComputeIoU, Geometry.InflateRect and Histograms.ComputeColorHistogramsRect:
  C++ `int` is 32 bits, but the model's integers are unbounded. Overflow is
  therefore not modelled in `(br_x - tl_x) * (br_y - tl_y)`, in `area()`, or
  in `x + width + pad`.
- Geometry.RectEnclosedByContour: the source converts `e.x` and `e.y` with
  `std::min<int>` and `std::max<int>`, and the model's integer points are
  those converted coordinates. If EdgePixel's fields are not `int`, the
  truncation is not modelled.
- The copy of `image(bbox)` into a separate patch matrix is not modelled:
  the model reads the image directly at the box's coordinates, which gives
  the same pixels.
- Posterior: the body of PixelwisePosteriorKernel is not part of this
  model. It is a parameter giving the pair of values written at a pixel,
  and it is assumed to write the box's columns of each row it is given.
  tbb::parallel_for is modelled as a sequential row loop. The rows are
  disjoint, so the order does not change the planes.
- Posterior: DistanceTransform::BuildView and cv::imshow (display only) are left out.
