# FSIV exercises: verified model of the hand-written logic

The repository is a set of computer-vision exercises built on OpenCV. Most
of its functions only call the library, but three exercises contain
algorithms of their own. This project models those algorithms in Dafny and
proves what their code promises:

- **Edge detector** (`edge_detector/common_code.cpp`):
  - the percentile of a gradient histogram, with its three closing
    `CV_Assert`s;
  - the mapping from a histogram bin to a gradient value;
  - the 2x2 confusion matrix of a predicted edge mask against a
    ground-truth mask;
  - the sensitivity, precision and F1 score computed from that matrix.
- **Color balance** (`color_balance/common_code.cpp`):
  - the 256-bin histogram of a gray image;
  - the histogram percentile, in its own variant;
  - how the white-patch balance turns a percentage `p` into the percentile
    `1 - p/100` and then into a mask of bright pixels.
- **Augmented reality** (`aug_real/common_code.cpp`):
  - the 3-D inner corners of a calibration board;
  - the four board corners that a model image is mapped onto;
  - the vertex and segment tables of the wire-frame cube.

Modules:

- `CvCore` holds the shared vocabulary. `Image` is an 8-bit single-channel
  `cv::Mat`. `Result` stands for the outcome of a call: `Err` is the
  `cv::Exception` that a failing `CV_Assert` throws. Each file's `Failure`
  datatype has one constructor per failing check. `EdgeDetector.BinOutOfRange`
  and `EdgeDetector.ValueOutOfRange` each cover a pair of asserts, and
  `AugReal.DegenerateBoard` belongs to the corrected projection only.
- `Histograms` holds the running sums that both percentile searches walk
  over.
- `EdgeDetector`, `ColorBalance` and `AugReal` follow the three source
  files.

The form of each model follows its source code:

- Loops that accumulate or push back values are methods with loop
  invariants. Each is proved equal to a specification function:
  `EdgeDetector.ComputeHistogramPercentile`,
  `EdgeDetector.ComputeConfusionMatrix`,
  `ColorBalance.ComputeHistogramPercentile` and
  `AugReal.GenerateCalibrationPoints`.
- The confusion matrix is filled in place in a local 2x2 array, as in the
  source.
- Guarded expressions are functions. Their properties are lemmas.

Histogram bins and ratios are `real`. A `CV_Assert` that divides by the
histogram area is modelled with IEEE-754 semantics, written without
division: a zero divisor gives an infinity, or NaN for 0/0, and NaN
compares false (`QuotientBelow`, `QuotientAtLeast`).

## Model

| member | source | states |
|---|---|---|
| Histograms.PrefixSumMonotone | edge_detector/common_code.cpp:79-80 | running sums of non-negative bins are non-negative and never decrease as more bins are added |
| Histograms.AreaBoundsPrefixSums | edge_detector/common_code.cpp:80-83 | the histogram area bounds every running sum |
| Histograms.FirstReachingIsLeast | edge_detector/common_code.cpp:78-86 | the scan returns a bin whose running sum reaches the threshold, every earlier running sum stays below it, and it returns none only when no running sum reaches it |
| Histograms.FirstReachingStable | edge_detector/common_code.cpp:83-85 | once a bin reaches the threshold, the `break` keeps that index however many bins follow |
| Histograms.FractionOfAreaIsReached | edge_detector/common_code.cpp:83 | on a non-empty histogram of counts, some running sum reaches any fraction p <= 1 of the area |
| EdgeDetector.ComputeHistogramPercentile | edge_detector/common_code.cpp:68-93 | the loop plus the assertions return exactly `HistogramPercentile`: the first bin whose running sum reaches `percentile * area`, the last bin when none does, or the failing assertion |
| EdgeDetector.PercentileMeetsItsAssertions | edge_detector/common_code.cpp:89-91 | for p in [0, 1] on non-negative bins with a positive area: the call succeeds, the index is a bin, the bins before it stay below `p * area` (minimality), and the bins through it reach `p * area` (sufficiency) |
| EdgeDetector.PercentileOutcome | edge_detector/common_code.cpp:68-93 | the call succeeds exactly for p in [0, 1] and a positive area; p out of range fails the first assertion; an empty histogram fails the index assertion; an all-zero histogram fails the sufficiency assertion (0/0 is NaN) |
| EdgeDetector.CorrectedPercentileOutcome | edge_detector/common_code.cpp:89-91 | with the assertions compared in multiplied form, every non-empty histogram of counts has a percentile: the least bin reaching `p * area`, and bin 0 for an all-zero histogram |
| EdgeDetector.CorrectedHistogramPercentile | edge_detector/common_code.cpp:89-91 | definition; no contract of its own; its outcome is stated by `EdgeDetector.CorrectedPercentileOutcome` |
| EdgeDetector.CorrectionAgreesOnPositiveArea | edge_detector/common_code.cpp:90-91 | the correction changes nothing when the area is positive |
| EdgeDetector.HistogramIdxToValue | edge_detector/common_code.cpp:95-111 | definition; no contract of its own; its outcome is stated by `EdgeDetector.IdxToValueOutcome`, `EdgeDetector.IdxToValueRoundTrip` and `EdgeDetector.IdxToValueIncreasing` |
| EdgeDetector.IdxToValueOutcome | edge_detector/common_code.cpp:95-111 | the call succeeds exactly when 0 <= idx < n_bins and min < max; an index outside the range fails the first assertions; a result always lies in [min, max) |
| EdgeDetector.IdxToValueRoundTrip | edge_detector/common_code.cpp:105 | binning the value of bin idx uniformly over [min, max) with n_bins bins gives idx back |
| EdgeDetector.IdxToValueIncreasing | edge_detector/common_code.cpp:105 | a higher bin maps to a strictly higher value |
| EdgeDetector.ComputeConfusionMatrix | edge_detector/common_code.cpp:214-252 | the nested loops over a zeroed 2x2 matrix return exactly `ConfusionMatrixOf`: cell (r, c) counts the pixels whose ground truth has label r and whose prediction has label c, where non-zero means "edge"; a size mismatch fails |
| EdgeDetector.CellsPartition | edge_detector/common_code.cpp:228-247 | each pixel increments exactly one cell: the edge row adds up to the ground truth's non-zero pixels, the edge column to the prediction's, and the non-edge row to the rest |
| EdgeDetector.ConfusionMatrixCountsEveryPixel | edge_detector/common_code.cpp:218-251 | the call fails only on a size mismatch, so the closing assertion always holds; the four cells add up to rows * cols, TP + FN is the number of ground-truth edge pixels, and TP + FP is the number of predicted edge pixels |
| EdgeDetector.Sensitivity | edge_detector/common_code.cpp:254-273 | TP / (TP + FN) lies in [0, 1]; it is 0 exactly when there is no true positive, which covers the zero-denominator guard; it is 1 exactly when there are true positives and no false negative |
| EdgeDetector.Precision | edge_detector/common_code.cpp:275-294 | TP / (TP + FP) lies in [0, 1]; it is 0 exactly when there is no true positive; it is 1 exactly when there are true positives and no false positive |
| EdgeDetector.F1Score | edge_detector/common_code.cpp:296-320 | definition; no contract of its own; its outcome is stated by `EdgeDetector.F1ClosedForm` and `EdgeDetector.F1BetweenPrecisionAndSensitivity` |
| EdgeDetector.F1ClosedForm | edge_detector/common_code.cpp:296-320 | the guarded harmonic mean 2PR/(P+R) equals 2TP / (2TP + FP + FN), and 0 without true positives |
| EdgeDetector.F1BetweenPrecisionAndSensitivity | edge_detector/common_code.cpp:314-316 | F1 lies in [0, 1] and between precision and sensitivity |
| ColorBalance.UniformBinIsLevel | color_balance/common_code.cpp:58-61 | with 256 uniform bins over [0, 256), calcHist puts each gray level v in bin v |
| ColorBalance.ImageHistogram | color_balance/common_code.cpp:64-66 | the histogram has exactly 256 bins (one column of 256 rows) |
| ColorBalance.ImageHistogramCountsLevels | color_balance/common_code.cpp:49-68 | bin v counts the pixels of gray level v |
| ColorBalance.ImageHistogramNonNegative | color_balance/common_code.cpp:61 | no bin is negative |
| ColorBalance.ImageHistogramRunningSums | color_balance/common_code.cpp:56-61 | the first k bins hold the pixels darker than k, and the area is rows * cols |
| ColorBalance.BelowAndAtLeastPartition | color_balance/common_code.cpp:132 | the pixels darker than t and those the mask `gray >= t` keeps make up the image |
| ColorBalance.ComputeHistogramPercentile | color_balance/common_code.cpp:70-95 | the loop with its `break` returns exactly `HistogramPercentile`: the first bin whose running sum reaches `p_value * area`, 0 when none does, or the failing assertion |
| ColorBalance.PercentileOutcome | color_balance/common_code.cpp:70-95 | the call succeeds exactly for p_value in [0, 1] and a non-empty histogram; the result is the least bin reaching the threshold, or 0 when no running sum reaches it |
| ColorBalance.PercentileIsLeastReaching | color_balance/common_code.cpp:83-90 | on a non-empty histogram of counts the threshold is always reached, so the result is the least bin whose running sum reaches it |
| ColorBalance.PercentileArgumentInRange | color_balance/common_code.cpp:100-130 | a percentage p lies in [0, 100] exactly when `1 - p/100` lies in [0, 1], the percentile's precondition |
| ColorBalance.PercentileOfImage | color_balance/common_code.cpp:129-130 | on a gray image's histogram the percentile for q succeeds and gives a level t where the pixels below t + 1 are at least a fraction q, and the pixels below t are fewer unless t is 0 |
| ColorBalance.WhitePatchReference | color_balance/common_code.cpp:97-133 | definition; no contract of its own; its outcome is stated by `ColorBalance.WhitePatchOutcome` and `ColorBalance.WhitePatchKeepsBrightestShare` |
| ColorBalance.WhitePatchOutcome | color_balance/common_code.cpp:97-133 | the white patch fails only for p outside [0, 100], and uses the brightest pixel exactly when p is 0 |
| ColorBalance.WhitePatchKeepsBrightestShare | color_balance/common_code.cpp:129-133 | for p in (0, 100] the mask `gray >= t` keeps at least p% of the pixels, and at most p% are strictly brighter than t |
| AugReal.CalibrationGrid | aug_real/common_code.cpp:13-18 | the nested loops produce width * height points |
| AugReal.GenerateCalibrationPoints | aug_real/common_code.cpp:6-23 | the nested loops that push back one point at a time return exactly `CalibrationPoints`: the grid, checked against the area cast to size_t |
| AugReal.CalibrationGridAt | aug_real/common_code.cpp:13-15 | row-major order with rows outside: inner corner (j, i) sits at index (i-1)*w + (j-1) and is (j*sq, i*sq, 0) |
| AugReal.CalibrationGridPlanar | aug_real/common_code.cpp:15 | every point has z = 0 |
| AugReal.CalibrationGridStartsAtFirstInnerCorner | aug_real/common_code.cpp:12-15 | the first point is the inner corner (1, 1), that is (sq, sq, 0) |
| AugReal.CalibrationPointsOutcome | aug_real/common_code.cpp:20-21 | the count assertion holds exactly when neither side is negative or one side is 0, and then there are width * height points |
| AugReal.ProjectionIndicesAsWritten | aug_real/common_code.cpp:164-192 | definition; no contract of its own; its outcome is stated by `AugReal.ProjectionReadsOutOfRange` and `AugReal.ProjectionIndicesInRange` |
| AugReal.ProjectionReadsOutOfRange | aug_real/common_code.cpp:170-192 | as written, a 0 x 3 board with no corners and a -1 x -1 board with one corner pass every assertion and then read corners 0 and -2 |
| AugReal.ProjectionIndicesInRange | aug_real/common_code.cpp:170-192 | once the assertions pass, the four corner indices are in range exactly when the board has at least one row and one column |
| AugReal.ProjectionCorrespondences | aug_real/common_code.cpp:168-192 | definition of the corrected projection; no contract of its own; its outcome is stated by `AugReal.ProjectionCorrespondencesOutcome` and `AugReal.BoardCornersAreGridExtremes` |
| AugReal.ProjectionCorrespondencesOutcome | aug_real/common_code.cpp:168-192 | the corrected call succeeds exactly on non-empty images and a board with rows and columns whose area is the corner count; it agrees with the call as written on such boards, and pairs model corner k with an in-range detected corner |
| AugReal.BoardCornersAreGridExtremes | aug_real/common_code.cpp:184-192 | the model's top-left, top-right, bottom-left and bottom-right corners pair with the grid's inner corners (1, 1), (w, 1), (1, h) and (w, h) |
| AugReal.CubeVertices | aug_real/common_code.cpp:131-140 | definition; its contract gives the eight vertices, and their shape is stated by `AugReal.CubeTopIsBaseLifted` |
| AugReal.CubeSegments | aug_real/common_code.cpp:147-157 | definition; no contract of its own; what it draws is stated by `AugReal.DrawnCubeEdges`, `AugReal.WireFrameDrawsOnlyCubeEdges` and `AugReal.WireFrameDrawsEveryCubeEdge` |
| AugReal.CubeTopIsBaseLifted | aug_real/common_code.cpp:131-140 | vertices 0-3 lie in the board plane, and vertex k + 4 is vertex k moved to z = -size |
| AugReal.DrawnCubeEdges | aug_real/common_code.cpp:147-159 | the closed polylines join exactly the listed vertex pairs, including each loop's closing pair |
| AugReal.WireFrameDrawsOnlyCubeEdges | aug_real/common_code.cpp:147-159 | every pair of distinct vertices the drawing joins differs in exactly one coordinate, so it is an edge of the cube |
| AugReal.WireFrameDrawsEveryCubeEdge | aug_real/common_code.cpp:147-159 | every edge of the cube is drawn |

## Left out

- Histogram equalization (`img_equalization/common_code.cpp`): every function body is a stub, so there is no behaviour to model.
- Camera calibration and chroma keying (`calibrate/common_code.cpp`, `chroma_key/common_code.cpp`): these are also stubs.
- Gamma, HSV and scaling (`cbg_process/common_code.cpp`): these are floating-point calls into OpenCV.
- Main programs: command-line parsing, capture, windows, trackbars and console loops.
- Edge detector library calls:
  - Sobel, GaussianBlur, magnitude, Canny, Otsu and normalize are OpenCV calls.
  - `fsiv_percentile_edge_detector` and the other wrappers are not part of this model.
  - The model starts from the histogram and the masks they produce.
- `fsiv_color_rescaling` and `fsiv_gray_world_color_balance`: `cv::divide`, `Mat::mul` and `cv::mean` are float scaling with saturation inside OpenCV.
- BGR to gray conversion: the white-patch model takes the gray image as its input.
- White patch with p == 0: the model records that the brightest pixel is chosen (`BrightestPixel`). It leaves out `cv::minMaxLoc` and reading the color there.
- White patch with p > 0: the model stops at the threshold and the share of pixels its mask keeps. It leaves out the masked `cv::mean` and the final rescaling.
- Augmented reality, library side:
  - The model stops at the point tables and the index arithmetic.
  - `cv::projectPoints`, `cv::polylines`, `getPerspectiveTransform` and `warpPerspective` are left out.
  - Chessboard detection and pose estimation are left out.
- Matrix type checks such as `CV_8UC1`, `CV_32FC1`, `cols == 1` and 256 rows: these hold by construction of the model's types, so they cannot fail.
- The default value of `min_value` in `fsiv_histogram_idx_to_value`: it is declared in a header that is not part of this model, so `HistogramIdxToValue` takes it as an explicit parameter.
- Reading a vector out of range is undefined behaviour in C++. It has no Dafny counterpart, so `ProjectionIndicesAsWritten` returns the indices it would read.
- Float rounding:
  - Bins, areas, percentiles and ratios are exact `real`s, with no IEEE rounding.
  - Confusion-matrix cells are `nat`s, where the source uses `float` counts that are exact only up to 2^24.
  - The `1e-6` tolerance on the confusion-matrix sum becomes exact equality.
  - The float conversion of `1 - p/100.0` is not modelled.
- AugReal.CalibrationPointsOutcome: requires the board area to fit in an `int`. The model leaves out signed overflow of `cv::Size::area()` and of `width * height`, which is undefined behaviour in C++.
- AugReal.ProjectionIndicesInRange: requires the board area to fit in an `int`, for the same reason.
- AugReal.ProjectionCorrespondencesOutcome: requires the board area to fit in an `int`, for the same reason.

## Findings

| source | as written | input that shows it | evidently intended | confidence | as-written member | corrected member |
|---|---|---|---|---|---|---|
| edge_detector/common_code.cpp:90-91 | the minimality and sufficiency assertions divide a running sum by the histogram area | a non-empty all-zero histogram, e.g. two bins of 0 with percentile 0.5: the loop stops at bin 0, but 0/0 is NaN, so the assertion at line 91 throws | compare without dividing (`sum < p * area`, `sum >= p * area`), so an all-zero histogram yields bin 0 | medium, not executed | EdgeDetector.PercentileOutcome | EdgeDetector.CorrectedPercentileOutcome |
| aug_real/common_code.cpp:170-192 | the only check on the board is that its area equals the number of detected corners; the corners are then read at indices 0, w-1, w*(h-1) and w*h-1 | a 0 x 3 board with no corners passes and reads corner 0; a -1 x -1 board with one corner passes and reads corner -2 | reject boards without at least one row and one column before reading the corners | medium, not executed | AugReal.ProjectionReadsOutOfRange | AugReal.ProjectionCorrespondencesOutcome |
