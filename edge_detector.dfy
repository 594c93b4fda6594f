/** The hand-written logic of the edge-detection exercise: the percentile of a
    gradient histogram, the mapping from a bin to a gradient value, and the
    confusion matrix of a predicted edge mask against a ground-truth mask with
    the sensitivity, precision and F1 metrics derived from it. */
module EdgeDetector {
  import opened CvCore
  import opened Histograms

  /** The CV_Asserts of this file that the model can violate, one
      constructor per failing check, except that BinOutOfRange covers the
      pair of index asserts and ValueOutOfRange the pair of value asserts. */
  datatype Failure =
    | PercentileOutOfRange  // the percentile lies outside [0, 1]
    | IndexOutOfRange       // no bin index was found (empty histogram)
    | NotMinimal            // the bins before the index already reach the percentile
    | NotSufficient         // the bins up to the index do not reach the percentile
    | BinOutOfRange         // idx lies outside [0, n_bins)
    | ValueOutOfRange       // the mapped value lies outside [min_value, max_value)
    | SizeMismatch          // ground truth and prediction differ in size
    | CountMismatch         // the confusion matrix does not add up to the pixel count

  // ---------------------------------------------------------------------
  // Histogram percentile
  // ---------------------------------------------------------------------

  /** `a / t < p` as IEEE-754 arithmetic evaluates it, written without the
      division: a negative divisor flips the comparison, and a zero divisor
      gives +infinity (a > 0), -infinity (a < 0) or NaN (a == 0), where NaN
      compares false. */
  predicate QuotientBelow(a: real, t: real, p: real)
  {
    if t > 0.0 then a < p * t
    else if t < 0.0 then a > p * t
    else a < 0.0
  }

  /** `a / t >= p` as IEEE-754 arithmetic evaluates it, written without the
      division in the same way. */
  predicate QuotientAtLeast(a: real, t: real, p: real)
  {
    if t > 0.0 then a >= p * t
    else if t < 0.0 then a <= p * t
    else a > 0.0
  }

  /** The index the accumulation loop stops at: the first bin whose running
      sum reaches `threshold`, the last bin when none does (-1 when there is
      no bin at all). */
  function ScanIndex(hist: seq<real>, threshold: real): int
  {
    match FirstReaching(hist, threshold, |hist|)
    case Some(i) => i
    case None => |hist| - 1
  }

  /** The three CV_Asserts that close the function, applied to `idx`. */
  function CheckPercentileIndex(hist: seq<real>, percentile: real, idx: int): Result<nat, Failure>
  {
    var total := Area(hist);
    if !(0 <= idx < |hist|) then Err(IndexOutOfRange)
    else if !(idx == 0 || QuotientBelow(PrefixSum(hist, idx), total, percentile)) then Err(NotMinimal)
    else if !QuotientAtLeast(PrefixSum(hist, idx + 1), total, percentile) then Err(NotSufficient)
    else Ok(idx)
  }

  /** What fsiv_compute_histogram_percentile returns for `hist`: the first
      bin whose running sum reaches `percentile` times the area, the last bin
      when none does, and a failure when one of its CV_Asserts does not hold. */
  function HistogramPercentile(hist: seq<real>, percentile: real): Result<nat, Failure>
  {
    if !(0.0 <= percentile <= 1.0) then Err(PercentileOutOfRange)
    else CheckPercentileIndex(hist, percentile, ScanIndex(hist, percentile * Area(hist)))
  }

  /** fsiv_compute_histogram_percentile: accumulate bins until the running sum
      reaches the threshold, then check the result's three assertions. Like
      the source, it asks for the area (cv::sum) afresh at each use. */
  method ComputeHistogramPercentile(hist: seq<real>, percentile: real) returns (r: Result<nat, Failure>)
    ensures r == HistogramPercentile(hist, percentile)
  {
    if !(0.0 <= percentile <= 1.0) {
      return Err(PercentileOutOfRange);
    }
    var idx := -1;
    var area := 0.0;
    var i := 0;
    while i < |hist|
      invariant 0 <= i <= |hist|
      invariant idx == i - 1
      invariant area == PrefixSum(hist, i)
      invariant FirstReaching(hist, percentile * Area(hist), i).None?
    {
      area := area + hist[i];
      idx := i;
      if area >= percentile * Area(hist) {
        FirstReachingStable(hist, percentile * Area(hist), i + 1, |hist|);
        break;
      }
      i := i + 1;
    }
    assert idx == ScanIndex(hist, percentile * Area(hist));
    if !(0 <= idx < |hist|) {
      return Err(IndexOutOfRange);
    }
    if !(idx == 0 || QuotientBelow(PrefixSum(hist, idx), Area(hist), percentile)) {
      return Err(NotMinimal);
    }
    if !QuotientAtLeast(PrefixSum(hist, idx + 1), Area(hist), percentile) {
      return Err(NotSufficient);
    }
    r := Ok(idx);
  }

  /** On a histogram of counts with a positive area the three assertions hold:
      the index is a bin, the bins before it stay below the percentile and
      the bins up to it reach it. */
  lemma PercentileMeetsItsAssertions(hist: seq<real>, percentile: real)
    requires NonNegative(hist) && 0.0 <= percentile <= 1.0 && Area(hist) > 0.0
    ensures HistogramPercentile(hist, percentile).Ok?
    ensures var idx := HistogramPercentile(hist, percentile).value;
      && idx < |hist|
      && (0 < idx ==> PrefixSum(hist, idx) < percentile * Area(hist))
      && PrefixSum(hist, idx + 1) >= percentile * Area(hist)
      && (forall k :: 1 <= k <= idx ==> PrefixSum(hist, k) < percentile * Area(hist))
  {
    FractionOfAreaIsReached(hist, percentile);
    FirstReachingIsLeast(hist, percentile * Area(hist), |hist|);
  }

  /** When the call succeeds on a histogram of counts, and when it fails.
      An all-zero histogram fails the sufficiency assertion: the assertion
      divides by the area, and 0/0 is NaN. */
  lemma PercentileOutcome(hist: seq<real>, percentile: real)
    requires NonNegative(hist)
    ensures HistogramPercentile(hist, percentile).Ok? <==> 0.0 <= percentile <= 1.0 && Area(hist) > 0.0
    ensures !(0.0 <= percentile <= 1.0) ==> HistogramPercentile(hist, percentile) == Err(PercentileOutOfRange)
    ensures 0.0 <= percentile <= 1.0 && |hist| == 0 ==> HistogramPercentile(hist, percentile) == Err(IndexOutOfRange)
    ensures 0.0 <= percentile <= 1.0 && 0 < |hist| && Area(hist) == 0.0 ==>
      HistogramPercentile(hist, percentile) == Err(NotSufficient)
  {
    AreaBoundsPrefixSums(hist, |hist|);
    if 0.0 <= percentile <= 1.0 && Area(hist) > 0.0 {
      PercentileMeetsItsAssertions(hist, percentile);
    } else if 0.0 <= percentile <= 1.0 && 0 < |hist| && Area(hist) == 0.0 {
      AreaBoundsPrefixSums(hist, 1);
      assert FirstReaching(hist, percentile * Area(hist), 1) == Some(0);
      FirstReachingStable(hist, percentile * Area(hist), 1, |hist|);
    }
  }

  /** The closing assertions as evidently intended, with the quotient
      compared by multiplying out the area, so that no NaN arises. */
  function CheckPercentileIndexByProduct(hist: seq<real>, percentile: real, idx: int): Result<nat, Failure>
  {
    if !(0 <= idx < |hist|) then Err(IndexOutOfRange)
    else if !(idx == 0 || PrefixSum(hist, idx) < percentile * Area(hist)) then Err(NotMinimal)
    else if !(PrefixSum(hist, idx + 1) >= percentile * Area(hist)) then Err(NotSufficient)
    else Ok(idx)
  }

  /** The percentile search with the corrected closing assertions. */
  function CorrectedHistogramPercentile(hist: seq<real>, percentile: real): Result<nat, Failure>
  {
    if !(0.0 <= percentile <= 1.0) then Err(PercentileOutOfRange)
    else CheckPercentileIndexByProduct(hist, percentile, ScanIndex(hist, percentile * Area(hist)))
  }

  /** With the corrected assertions every non-empty histogram of counts has
      a percentile, the first bin whose running sum reaches it; an all-zero
      histogram gets bin 0. */
  lemma CorrectedPercentileOutcome(hist: seq<real>, percentile: real)
    requires NonNegative(hist)
    ensures CorrectedHistogramPercentile(hist, percentile).Ok? <==> 0.0 <= percentile <= 1.0 && 0 < |hist|
    ensures CorrectedHistogramPercentile(hist, percentile).Ok? ==>
      var idx := CorrectedHistogramPercentile(hist, percentile).value;
      && idx < |hist|
      && PrefixSum(hist, idx + 1) >= percentile * Area(hist)
      && (forall k :: 1 <= k <= idx ==> PrefixSum(hist, k) < percentile * Area(hist))
    ensures 0.0 <= percentile <= 1.0 && 0 < |hist| && Area(hist) == 0.0 ==>
      CorrectedHistogramPercentile(hist, percentile) == Ok(0)
  {
    if 0.0 <= percentile <= 1.0 && 0 < |hist| {
      FractionOfAreaIsReached(hist, percentile);
      FirstReachingIsLeast(hist, percentile * Area(hist), |hist|);
      if Area(hist) == 0.0 {
        AreaBoundsPrefixSums(hist, 1);
        assert FirstReaching(hist, percentile * Area(hist), 1) == Some(0);
        FirstReachingStable(hist, percentile * Area(hist), 1, |hist|);
      }
    }
  }

  /** The correction changes nothing on a histogram with a positive area. */
  lemma CorrectionAgreesOnPositiveArea(hist: seq<real>, percentile: real)
    requires Area(hist) > 0.0
    ensures CorrectedHistogramPercentile(hist, percentile) == HistogramPercentile(hist, percentile)
  {
    var idx := ScanIndex(hist, percentile * Area(hist));
    if 0 <= idx < |hist| {
      assert QuotientBelow(PrefixSum(hist, idx), Area(hist), percentile)
        == (PrefixSum(hist, idx) < percentile * Area(hist));
      assert QuotientAtLeast(PrefixSum(hist, idx + 1), Area(hist), percentile)
        == (PrefixSum(hist, idx + 1) >= percentile * Area(hist));
    }
    assert CheckPercentileIndexByProduct(hist, percentile, idx) == CheckPercentileIndex(hist, percentile, idx);
  }

  // ---------------------------------------------------------------------
  // From a bin index to a value
  // ---------------------------------------------------------------------

  /** fsiv_histogram_idx_to_value: the lower edge of bin `idx` when
      [minValue, maxValue) is split into `nBins` equal bins, guarded by the
      function's CV_Asserts on the index and on the value. The callers in
      the source pass three arguments and take `min_value` from a default
      declared in a header that is not part of this model, so here it is an
      explicit parameter. */
  function HistogramIdxToValue(idx: int, nBins: int, maxValue: real, minValue: real): Result<real, Failure>
  {
    if !(idx >= 0) || !(idx < nBins) then Err(BinOutOfRange)
    else
      var value := minValue + (idx as real * (maxValue - minValue) / nBins as real);
      if !(value >= minValue) || !(value < maxValue) then Err(ValueOutOfRange)
      else Ok(value)
  }

  /** The call succeeds exactly for an index inside [0, nBins) and a non-empty
      range, and then the value lies in [minValue, maxValue). */
  lemma IdxToValueOutcome(idx: int, nBins: int, maxValue: real, minValue: real)
    ensures HistogramIdxToValue(idx, nBins, maxValue, minValue).Ok?
      <==> 0 <= idx < nBins && minValue < maxValue
    ensures !(0 <= idx < nBins) ==> HistogramIdxToValue(idx, nBins, maxValue, minValue) == Err(BinOutOfRange)
    ensures HistogramIdxToValue(idx, nBins, maxValue, minValue).Ok? ==>
      minValue <= HistogramIdxToValue(idx, nBins, maxValue, minValue).value < maxValue
  {
    if 0 <= idx < nBins {
      var width := maxValue - minValue;
      var offset := idx as real * width / nBins as real;
      assert offset * nBins as real == idx as real * width;
      if minValue < maxValue {
        assert idx as real * width < nBins as real * width;
        assert offset < nBins as real * width / nBins as real == width;
        assert 0.0 <= offset;
      } else {
        assert idx as real * width <= 0.0;
        assert offset <= 0.0;
      }
    }
  }

  /** The value of bin `idx` falls back into bin `idx` when a value is
      binned over [minValue, maxValue) with `nBins` bins, as calcHist does. */
  lemma IdxToValueRoundTrip(idx: int, nBins: int, maxValue: real, minValue: real)
    requires HistogramIdxToValue(idx, nBins, maxValue, minValue).Ok?
    ensures var value := HistogramIdxToValue(idx, nBins, maxValue, minValue).value;
      ((value - minValue) * nBins as real / (maxValue - minValue)).Floor == idx
  {
    IdxToValueOutcome(idx, nBins, maxValue, minValue);
    var value := HistogramIdxToValue(idx, nBins, maxValue, minValue).value;
    assert (value - minValue) * nBins as real == idx as real * (maxValue - minValue);
    assert (HistogramIdxToValue(idx, nBins, maxValue, minValue).value - minValue) * nBins as real / (maxValue - minValue)
      == idx as real;
  }

  /** Higher bins map to strictly higher values. */
  lemma IdxToValueIncreasing(i: int, j: int, nBins: int, maxValue: real, minValue: real)
    requires HistogramIdxToValue(i, nBins, maxValue, minValue).Ok?
    requires HistogramIdxToValue(j, nBins, maxValue, minValue).Ok?
    requires i < j
    ensures HistogramIdxToValue(i, nBins, maxValue, minValue).value
      < HistogramIdxToValue(j, nBins, maxValue, minValue).value
  {
    IdxToValueOutcome(i, nBins, maxValue, minValue);
    var width := maxValue - minValue;
    assert i as real * width < j as real * width;
    assert i as real * width / nBins as real < j as real * width / nBins as real;
  }

  // ---------------------------------------------------------------------
  // Confusion matrix
  // ---------------------------------------------------------------------

  /** The confusion-matrix row (for the ground truth) or column (for the
      prediction) of one sample: 0 for "is edge" (non-zero), 1 for "is not edge". */
  function Label(v: Byte): nat
  {
    if v != 0 then 0 else 1
  }

  /** The 2x2 confusion matrix: rows are the ground truth and columns the
      prediction, "is edge" first, so [0][0] holds the true positives,
      [0][1] the false negatives, [1][0] the false positives and [1][1] the
      true negatives. */
  datatype ConfusionMatrix = ConfusionMatrix(tp: nat, fn: nat, fp: nat, tn: nat)

  /** How many of the first n samples of a ground-truth row g and a
      prediction row p carry the labels (r, c). */
  function RowCellCount(g: seq<Byte>, p: seq<Byte>, n: nat, r: nat, c: nat): nat
    requires n <= |g| && n <= |p|
  {
    if n == 0 then 0
    else RowCellCount(g, p, n - 1, r, c) + (if Label(g[n - 1]) == r && Label(p[n - 1]) == c then 1 else 0)
  }

  /** How many pixels of the first m rows carry the labels (r, c). */
  function CellCount(gt: Image, pred: Image, m: nat, r: nat, c: nat): nat
    requires SameSize(gt, pred) && m <= gt.rows
  {
    if m == 0 then 0
    else CellCount(gt, pred, m - 1, r, c) + RowCellCount(gt.pixels[m - 1], pred.pixels[m - 1], gt.cols, r, c)
  }

  /** What fsiv_compute_confusion_matrix produces: each cell counts the
      pixels whose (ground truth, prediction) labels select it. */
  function ConfusionMatrixOf(gt: Image, pred: Image): Result<ConfusionMatrix, Failure>
  {
    if !SameSize(gt, pred) then Err(SizeMismatch)
    else
      var cm := ConfusionMatrix(
        CellCount(gt, pred, gt.rows, 0, 0), CellCount(gt, pred, gt.rows, 0, 1),
        CellCount(gt, pred, gt.rows, 1, 0), CellCount(gt, pred, gt.rows, 1, 1));
      if cm.tp + cm.fn + cm.fp + cm.tn != gt.rows * gt.cols then Err(CountMismatch) else Ok(cm)
  }

  /** fsiv_compute_confusion_matrix: start from a zero 2x2 matrix and, pixel
      by pixel, increment the one cell its ground truth and prediction select. */
  method ComputeConfusionMatrix(gt: Image, pred: Image) returns (r: Result<ConfusionMatrix, Failure>)
    ensures r == ConfusionMatrixOf(gt, pred)
  {
    if !SameSize(gt, pred) {
      return Err(SizeMismatch);
    }
    var cm := new nat[2, 2]((_, _) => 0);
    var i := 0;
    while i < gt.rows
      invariant 0 <= i <= gt.rows
      invariant forall a, b :: 0 <= a < 2 && 0 <= b < 2 ==> cm[a, b] == CellCount(gt, pred, i, a, b)
    {
      var j := 0;
      while j < gt.cols
        invariant 0 <= j <= gt.cols
        invariant forall a, b :: 0 <= a < 2 && 0 <= b < 2 ==>
          cm[a, b] == CellCount(gt, pred, i, a, b) + RowCellCount(gt.pixels[i], pred.pixels[i], j, a, b)
      {
        if gt.pixels[i][j] != 0 {
          if pred.pixels[i][j] != 0 {
            cm[0, 0] := cm[0, 0] + 1;  // true positive
          } else {
            cm[0, 1] := cm[0, 1] + 1;  // false negative
          }
        } else {
          if pred.pixels[i][j] != 0 {
            cm[1, 0] := cm[1, 0] + 1;  // false positive
          } else {
            cm[1, 1] := cm[1, 1] + 1;  // true negative
          }
        }
        j := j + 1;
      }
      i := i + 1;
    }
    if cm[0, 0] + cm[0, 1] + cm[1, 0] + cm[1, 1] != gt.rows * gt.cols {
      return Err(CountMismatch);
    }
    r := Ok(ConfusionMatrix(cm[0, 0], cm[0, 1], cm[1, 0], cm[1, 1]));
  }

  /** How many of the first n samples of a row are non-zero. */
  function RowNonZero(row: seq<Byte>, n: nat): nat
    requires n <= |row|
  {
    if n == 0 then 0 else RowNonZero(row, n - 1) + (if row[n - 1] != 0 then 1 else 0)
  }

  /** How many pixels of the first m rows are non-zero (cv::countNonZero). */
  function NonZeroCount(img: Image, m: nat): nat
    requires m <= img.rows
  {
    if m == 0 then 0 else NonZeroCount(img, m - 1) + RowNonZero(img.pixels[m - 1], img.cols)
  }

  /** Within one row pair, the four cells split the samples, and each label
      of the ground truth (prediction) is split over the prediction's
      (ground truth's) two labels. */
  lemma {:induction false} RowCellsPartition(g: seq<Byte>, p: seq<Byte>, n: nat)
    requires n <= |g| && n <= |p|
    ensures RowCellCount(g, p, n, 0, 0) + RowCellCount(g, p, n, 0, 1) == RowNonZero(g, n)
    ensures RowCellCount(g, p, n, 0, 0) + RowCellCount(g, p, n, 1, 0) == RowNonZero(p, n)
    ensures RowCellCount(g, p, n, 1, 0) + RowCellCount(g, p, n, 1, 1) == n - RowNonZero(g, n)
  {
    if n > 0 {
      RowCellsPartition(g, p, n - 1);
    }
  }

  /** Over the first m rows, the same split holds pixel by pixel. */
  lemma {:induction false} CellsPartition(gt: Image, pred: Image, m: nat)
    requires SameSize(gt, pred) && m <= gt.rows
    ensures CellCount(gt, pred, m, 0, 0) + CellCount(gt, pred, m, 0, 1) == NonZeroCount(gt, m)
    ensures CellCount(gt, pred, m, 0, 0) + CellCount(gt, pred, m, 1, 0) == NonZeroCount(pred, m)
    ensures CellCount(gt, pred, m, 1, 0) + CellCount(gt, pred, m, 1, 1) + NonZeroCount(gt, m) == m * gt.cols
  {
    if m > 0 {
      CellsPartition(gt, pred, m - 1);
      RowCellsPartition(gt.pixels[m - 1], pred.pixels[m - 1], gt.cols);
      assert (m - 1) * gt.cols + gt.cols == m * gt.cols;
    }
  }

  /** Every pixel lands in exactly one cell, so the closing assertion always
      holds and the call fails only on a size mismatch. The first row of the
      matrix holds the ground truth's edge pixels and the first column the
      prediction's. */
  lemma ConfusionMatrixCountsEveryPixel(gt: Image, pred: Image)
    ensures ConfusionMatrixOf(gt, pred).Ok? <==> SameSize(gt, pred)
    ensures ConfusionMatrixOf(gt, pred).Ok? ==> var cm := ConfusionMatrixOf(gt, pred).value;
      && cm.tp + cm.fn + cm.fp + cm.tn == gt.rows * gt.cols
      && cm.tp + cm.fn == NonZeroCount(gt, gt.rows)
      && cm.tp + cm.fp == NonZeroCount(pred, pred.rows)
  {
    if SameSize(gt, pred) {
      CellsPartition(gt, pred, gt.rows);
    }
  }

  // ---------------------------------------------------------------------
  // Metrics
  // ---------------------------------------------------------------------

  /** A ratio of a non-negative part to a positive whole lies in [0, 1]. */
  lemma RatioInUnit(a: real, b: real)
    requires 0.0 <= a <= b && 0.0 < b
    ensures 0.0 <= a / b <= 1.0
  {
    assert a / b * b == a;
  }

  /** fsiv_compute_sensitivity: TP / (TP + FN), and 0 when no pixel is an
      edge in the ground truth. */
  function Sensitivity(cm: ConfusionMatrix): (s: real)
    ensures 0.0 <= s <= 1.0
    ensures s == 0.0 <==> cm.tp == 0
    ensures s == 1.0 <==> 0 < cm.tp && cm.fn == 0
  {
    var tp := cm.tp as real;
    var fn := cm.fn as real;
    if tp + fn != 0.0 then RatioInUnit(tp, tp + fn); tp / (tp + fn) else 0.0
  }

  /** fsiv_compute_precision: TP / (TP + FP), and 0 when no pixel is
      predicted to be an edge. */
  function Precision(cm: ConfusionMatrix): (s: real)
    ensures 0.0 <= s <= 1.0
    ensures s == 0.0 <==> cm.tp == 0
    ensures s == 1.0 <==> 0 < cm.tp && cm.fp == 0
  {
    var tp := cm.tp as real;
    var fp := cm.fp as real;
    if tp + fp != 0.0 then RatioInUnit(tp, tp + fp); tp / (tp + fp) else 0.0
  }

  /** fsiv_compute_F1_score: the harmonic mean of precision and sensitivity,
      and 0 when both are 0. */
  function F1Score(cm: ConfusionMatrix): real
  {
    var precision := Precision(cm);
    var sensitivity := Sensitivity(cm);
    if precision + sensitivity != 0.0 then (2.0 * precision * sensitivity) / (precision + sensitivity) else 0.0
  }

  /** F1 in closed form: 2TP / (2TP + FP + FN), and 0 without true positives. */
  lemma F1ClosedForm(cm: ConfusionMatrix)
    ensures F1Score(cm) == if cm.tp == 0 then 0.0
      else 2.0 * cm.tp as real / (2.0 * cm.tp as real + cm.fp as real + cm.fn as real)
  {
    if cm.tp > 0 {
      var t := cm.tp as real;
      var a := t + cm.fp as real;
      var b := t + cm.fn as real;
      assert Precision(cm) * a == t;
      assert Sensitivity(cm) * b == t;
      assert (Precision(cm) + Sensitivity(cm)) * a * b == t * (a + b);
      assert 2.0 * Precision(cm) * Sensitivity(cm) * a * b == 2.0 * t * t;
    }
  }

  /** A positive factor does not change the sign of a product. */
  lemma SignOfFactor(x: real, y: real)
    requires 0.0 < y
    ensures 0.0 <= x * y ==> 0.0 <= x
    ensures x * y <= 0.0 ==> x <= 0.0
  {
  }

  /** The product of two non-negative numbers is non-negative. */
  lemma ProductOfNonNegatives(x: real, y: real)
    requires 0.0 <= x && 0.0 <= y
    ensures 0.0 <= x * y
  {
  }

  /** The harmonic mean of two non-negative ratios lies between them. */
  lemma HarmonicMeanBetween(p: real, s: real)
    requires 0.0 <= p && 0.0 <= s && 0.0 < p + s
    ensures p <= s ==> p <= 2.0 * p * s / (p + s) <= s
    ensures s <= p ==> s <= 2.0 * p * s / (p + s) <= p
  {
    var f := 2.0 * p * s / (p + s);
    assert f * (p + s) == 2.0 * p * s;
    assert (f - p) * (p + s) == p * (s - p);
    assert (f - s) * (p + s) == s * (p - s);
    if p <= s {
      ProductOfNonNegatives(p, s - p);
      ProductOfNonNegatives(s, s - p);
      assert s * (p - s) == -(s * (s - p));
    } else {
      ProductOfNonNegatives(s, p - s);
      ProductOfNonNegatives(p, p - s);
      assert p * (s - p) == -(p * (p - s));
    }
    SignOfFactor(f - p, p + s);
    SignOfFactor(f - s, p + s);
  }

  /** F1 lies between precision and sensitivity, hence in [0, 1]. */
  lemma F1BetweenPrecisionAndSensitivity(cm: ConfusionMatrix)
    ensures 0.0 <= F1Score(cm) <= 1.0
    ensures Precision(cm) <= Sensitivity(cm) ==> Precision(cm) <= F1Score(cm) <= Sensitivity(cm)
    ensures Sensitivity(cm) <= Precision(cm) ==> Sensitivity(cm) <= F1Score(cm) <= Precision(cm)
  {
    if Precision(cm) + Sensitivity(cm) != 0.0 {
      var p, s := Precision(cm), Sensitivity(cm);
      HarmonicMeanBetween(p, s);
      assert F1Score(cm) == 2.0 * p * s / (p + s);
      assert p <= s ==> 2.0 * p * s / (p + s) <= s;
    }
  }
}
