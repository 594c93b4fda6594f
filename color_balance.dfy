/** The hand-written logic of the color-balance exercise: the 256-bin
    histogram of a gray image, the percentile of a histogram, and how the
    white-patch balance turns its percentage into a percentile and a mask
    of the brightest pixels. */
module ColorBalance {
  import opened CvCore
  import opened Histograms

  /** The CV_Asserts of this file that the model can violate. */
  datatype Failure =
    | PercentileOutOfRange  // p_value lies outside [0, 1]
    | IndexOutOfRange       // the percentile index is not a bin
    | PercentOutOfRange     // the white-patch percentage lies outside [0, 100]

  // ---------------------------------------------------------------------
  // Counting pixels
  // ---------------------------------------------------------------------

  /** How many of the first n samples of a row lie in [lo, hi). */
  function RowCount(row: seq<Byte>, n: nat, lo: int, hi: int): nat
    requires n <= |row|
  {
    if n == 0 then 0
    else RowCount(row, n - 1, lo, hi) + (if lo <= row[n - 1] < hi then 1 else 0)
  }

  /** How many pixels of the first m rows have a gray level in [lo, hi). */
  function Count(img: Image, m: nat, lo: int, hi: int): nat
    requires m <= img.rows
  {
    if m == 0 then 0 else Count(img, m - 1, lo, hi) + RowCount(img.pixels[m - 1], img.cols, lo, hi)
  }

  /** How many pixels of the image have gray level v. */
  function Occurrences(img: Image, v: int): nat
  {
    Count(img, img.rows, v, v + 1)
  }

  /** How many pixels of the image are darker than t. */
  function CountBelow(img: Image, t: int): nat
  {
    Count(img, img.rows, 0, t)
  }

  /** How many pixels of the image are at least as bright as t: the pixels
      that the mask `gray >= t` keeps. */
  function CountAtLeast(img: Image, t: int): nat
  {
    Count(img, img.rows, t, 256)
  }

  lemma {:induction false} RowCountSplit(row: seq<Byte>, n: nat, lo: int, mid: int, hi: int)
    requires n <= |row| && lo <= mid <= hi
    ensures RowCount(row, n, lo, mid) + RowCount(row, n, mid, hi) == RowCount(row, n, lo, hi)
  {
    if n > 0 {
      RowCountSplit(row, n - 1, lo, mid, hi);
    }
  }

  /** Splitting the gray range at `mid` splits the pixel count. */
  lemma {:induction false} CountSplit(img: Image, m: nat, lo: int, mid: int, hi: int)
    requires m <= img.rows && lo <= mid <= hi
    ensures Count(img, m, lo, mid) + Count(img, m, mid, hi) == Count(img, m, lo, hi)
  {
    if m > 0 {
      CountSplit(img, m - 1, lo, mid, hi);
      RowCountSplit(img.pixels[m - 1], img.cols, lo, mid, hi);
    }
  }

  lemma {:induction false} RowCountAll(row: seq<Byte>, n: nat)
    requires n <= |row|
    ensures RowCount(row, n, 0, 256) == n
  {
    if n > 0 {
      RowCountAll(row, n - 1);
    }
  }

  /** Every 8-bit pixel has a gray level in [0, 256). */
  lemma {:induction false} CountAll(img: Image, m: nat)
    requires m <= img.rows
    ensures Count(img, m, 0, 256) == m * img.cols
  {
    if m > 0 {
      CountAll(img, m - 1);
      RowCountAll(img.pixels[m - 1], img.cols);
    }
  }

  /** How many pixels the image has. */
  function PixelCount(img: Image): nat
  {
    img.rows * img.cols
  }

  /** The pixels darker than t and those at least as bright as t make up the image. */
  lemma BelowAndAtLeastPartition(img: Image, t: int)
    requires 0 <= t <= 256
    ensures CountBelow(img, t) + CountAtLeast(img, t) == PixelCount(img)
  {
    CountSplit(img, img.rows, 0, t, 256);
    CountAll(img, img.rows);
  }

  // ---------------------------------------------------------------------
  // Image histogram
  // ---------------------------------------------------------------------

  /** The bin calcHist assigns to gray level v with 256 uniform bins over
      the range [0, 256): floor((v - 0) * 256 / (256 - 0)). */
  function UniformBin(v: Byte): int
  {
    ((v as real - 0.0) * 256.0 / (256.0 - 0.0)).Floor
  }

  /** With 256 bins over [0, 256) every gray level has a bin of its own. */
  lemma UniformBinIsLevel(v: Byte)
    ensures UniformBin(v) == v
  {
    assert (v as real - 0.0) * 256.0 / (256.0 - 0.0) == v as real;
  }

  /** Adds the first n samples of a row to a histogram, one count to the
      bin of each sample. */
  function AddRow(h: seq<real>, row: seq<Byte>, n: nat): (r: seq<real>)
    requires |h| == 256 && n <= |row|
    ensures |r| == 256
  {
    if n == 0 then h
    else
      var prev := AddRow(h, row, n - 1);
      var b := UniformBin(row[n - 1]);
      if 0 <= b < 256 then prev[b := prev[b] + 1.0] else prev
  }

  /** The histogram of the first m rows, starting from 256 empty bins
      (calcHist without accumulation). */
  function AddRows(img: Image, m: nat): (r: seq<real>)
    requires m <= img.rows
    ensures |r| == 256
  {
    if m == 0 then seq(256, _ => 0.0) else AddRow(AddRows(img, m - 1), img.pixels[m - 1], img.cols)
  }

  /** fsiv_compute_image_histogram: the 256-bin histogram of an 8-bit gray
      image, a single column of 256 rows. */
  function ImageHistogram(img: Image): (h: seq<real>)
    ensures |h| == 256
  {
    AddRows(img, img.rows)
  }

  lemma {:induction false} AddRowBin(h: seq<real>, row: seq<Byte>, n: nat, v: nat)
    requires |h| == 256 && n <= |row| && v < 256
    ensures AddRow(h, row, n)[v] == h[v] + RowCount(row, n, v, v + 1) as real
  {
    if n > 0 {
      AddRowBin(h, row, n - 1, v);
      UniformBinIsLevel(row[n - 1]);
    }
  }

  lemma {:induction false} AddRowsBin(img: Image, m: nat, v: nat)
    requires m <= img.rows && v < 256
    ensures AddRows(img, m)[v] == Count(img, m, v, v + 1) as real
  {
    if m > 0 {
      AddRowsBin(img, m - 1, v);
      AddRowBin(AddRows(img, m - 1), img.pixels[m - 1], img.cols, v);
    }
  }

  /** Bin v of the image histogram counts the pixels of gray level v. */
  lemma ImageHistogramCountsLevels(img: Image)
    ensures forall v :: 0 <= v < 256 ==> ImageHistogram(img)[v] == Occurrences(img, v) as real
  {
    forall v | 0 <= v < 256
      ensures ImageHistogram(img)[v] == Occurrences(img, v) as real
    {
      AddRowsBin(img, img.rows, v);
    }
  }

  /** No bin of the image histogram is negative. */
  lemma ImageHistogramNonNegative(img: Image)
    ensures NonNegative(ImageHistogram(img))
  {
    ImageHistogramCountsLevels(img);
  }

  /** One more count in bin b raises exactly the running sums that include b. */
  lemma {:induction false} PrefixSumBump(h: seq<real>, b: nat, k: nat)
    requires b < |h| && k <= |h|
    ensures PrefixSum(h[b := h[b] + 1.0], k) == PrefixSum(h, k) + (if b < k then 1.0 else 0.0)
  {
    if k > 0 {
      PrefixSumBump(h, b, k - 1);
    }
  }

  lemma {:induction false} AddRowPrefix(h: seq<real>, row: seq<Byte>, n: nat, k: nat)
    requires |h| == 256 && n <= |row| && k <= 256
    ensures PrefixSum(AddRow(h, row, n), k) == PrefixSum(h, k) + RowCount(row, n, 0, k) as real
  {
    if n > 0 {
      AddRowPrefix(h, row, n - 1, k);
      UniformBinIsLevel(row[n - 1]);
      PrefixSumBump(AddRow(h, row, n - 1), row[n - 1], k);
    }
  }

  lemma {:induction false} ZeroPrefix(k: nat)
    requires k <= 256
    ensures PrefixSum(seq(256, _ => 0.0), k) == 0.0
  {
    if k > 0 {
      ZeroPrefix(k - 1);
    }
  }

  lemma {:induction false} AddRowsPrefix(img: Image, m: nat, k: nat)
    requires m <= img.rows && k <= 256
    ensures PrefixSum(AddRows(img, m), k) == Count(img, m, 0, k) as real
  {
    if m == 0 {
      ZeroPrefix(k);
    } else {
      AddRowsPrefix(img, m - 1, k);
      AddRowPrefix(AddRows(img, m - 1), img.pixels[m - 1], img.cols, k);
    }
  }

  /** The first k bins of the image histogram hold the pixels darker than
      k, and the whole histogram holds every pixel. */
  lemma ImageHistogramRunningSums(img: Image, k: nat)
    requires k <= 256
    ensures PrefixSum(ImageHistogram(img), k) == CountBelow(img, k) as real
    ensures Area(ImageHistogram(img)) == PixelCount(img) as real
  {
    AddRowsPrefix(img, img.rows, k);
    AddRowsPrefix(img, img.rows, 256);
    CountAll(img, img.rows);
  }

  // ---------------------------------------------------------------------
  // Histogram percentile
  // ---------------------------------------------------------------------

  /** What fsiv_compute_histogram_percentile returns: the first bin whose
      running sum reaches `pValue` times the area, 0 when none does, and a
      failure when one of its CV_Asserts does not hold. */
  function HistogramPercentile(hist: seq<real>, pValue: real): Result<nat, Failure>
  {
    if !(0.0 <= pValue <= 1.0) then Err(PercentileOutOfRange)
    else
      var p := match FirstReaching(hist, pValue * Area(hist), |hist|)
        case Some(i) => i
        case None => 0;
      if !(0 <= p < |hist|) then Err(IndexOutOfRange) else Ok(p)
  }

  /** fsiv_compute_histogram_percentile: accumulate bins and keep the index
      of the first one whose running sum reaches the threshold. */
  method ComputeHistogramPercentile(hist: seq<real>, pValue: real) returns (r: Result<nat, Failure>)
    ensures r == HistogramPercentile(hist, pValue)
  {
    if !(0.0 <= pValue <= 1.0) {
      return Err(PercentileOutOfRange);
    }
    var p := 0;
    var area := 0.0;
    var i := 0;
    while i < |hist|
      invariant 0 <= i <= |hist|
      invariant p == 0
      invariant area == PrefixSum(hist, i)
      invariant FirstReaching(hist, pValue * Area(hist), i).None?
    {
      area := area + hist[i];
      if area >= pValue * Area(hist) {
        p := i;
        FirstReachingStable(hist, pValue * Area(hist), i + 1, |hist|);
        break;
      }
      i := i + 1;
    }
    if !(0 <= p < |hist|) {
      return Err(IndexOutOfRange);
    }
    r := Ok(p);
  }

  /** The call succeeds exactly for a valid p_value and a non-empty
      histogram. It then returns the first bin whose running sum reaches the
      threshold, or 0 when no running sum does. */
  lemma PercentileOutcome(hist: seq<real>, pValue: real)
    ensures HistogramPercentile(hist, pValue).Ok? <==> 0.0 <= pValue <= 1.0 && 0 < |hist|
    ensures HistogramPercentile(hist, pValue).Ok? ==>
      var p := HistogramPercentile(hist, pValue).value;
      var threshold := pValue * Area(hist);
      || (PrefixSum(hist, p + 1) >= threshold && forall k :: 1 <= k <= p ==> PrefixSum(hist, k) < threshold)
      || (p == 0 && forall k :: 1 <= k <= |hist| ==> PrefixSum(hist, k) < threshold)
  {
    FirstReachingIsLeast(hist, pValue * Area(hist), |hist|);
  }

  /** On a non-empty histogram of counts the threshold is always reached,
      so the result is the least bin whose running sum reaches it. */
  lemma PercentileIsLeastReaching(hist: seq<real>, pValue: real)
    requires NonNegative(hist) && 0 < |hist| && 0.0 <= pValue <= 1.0
    ensures HistogramPercentile(hist, pValue).Ok?
    ensures var p := HistogramPercentile(hist, pValue).value;
      && p < |hist|
      && PrefixSum(hist, p + 1) >= pValue * Area(hist)
      && forall k :: 1 <= k <= p ==> PrefixSum(hist, k) < pValue * Area(hist)
  {
    FractionOfAreaIsReached(hist, pValue);
    FirstReachingIsLeast(hist, pValue * Area(hist), |hist|);
  }

  // ---------------------------------------------------------------------
  // White patch
  // ---------------------------------------------------------------------

  /** Where fsiv_white_patch_color_balance takes its white reference from:
      the brightest pixel (p == 0), or the mean of the pixels whose gray
      level is at least `threshold`. */
  datatype Illuminant = BrightestPixel | BrightPixels(threshold: nat)

  /** The percentile argument the white patch passes for a percentage p. */
  function PercentileArgument(p: real): real
  {
    1.0 - p / 100.0
  }

  /** A percentage in [0, 100] gives a percentile argument in [0, 1]. */
  lemma PercentileArgumentInRange(p: real)
    ensures 0.0 <= p <= 100.0 <==> 0.0 <= PercentileArgument(p) <= 1.0
  {
  }

  /** fsiv_white_patch_color_balance up to the choice of the white
      reference, given the gray version of the input. */
  function WhitePatchReference(gray: Image, p: real): Result<Illuminant, Failure>
  {
    if !(0.0 <= p <= 100.0) then Err(PercentOutOfRange)
    else if p == 0.0 then Ok(BrightestPixel)
    else match HistogramPercentile(ImageHistogram(gray), PercentileArgument(p))
      case Ok(t) => Ok(BrightPixels(t))
      case Err(e) => Err(e)
  }

  /** On the histogram of a gray image, the percentile for q in [0, 1] is a
      gray level t such that the pixels darker than t + 1 make up at least a
      fraction q of the image and, unless t is 0, those darker than t less. */
  lemma PercentileOfImage(gray: Image, q: real)
    requires 0.0 <= q <= 1.0
    ensures HistogramPercentile(ImageHistogram(gray), q).Ok?
    ensures var t := HistogramPercentile(ImageHistogram(gray), q).value;
      && t < 256
      && CountBelow(gray, t + 1) as real >= q * PixelCount(gray) as real
      && (0 < t ==> CountBelow(gray, t) as real < q * PixelCount(gray) as real)
  {
    ImageHistogramNonNegative(gray);
    PercentileIsLeastReaching(ImageHistogram(gray), q);
    var t := HistogramPercentile(ImageHistogram(gray), q).value;
    ImageHistogramRunningSums(gray, t);
    ImageHistogramRunningSums(gray, t + 1);
  }

  /** The arithmetic behind the white-patch mask, out of n pixels: `below`
      lie under the threshold and `atLeast` do not, `belowNext` lie under
      the next gray level and `atLeastNext` do not. */
  lemma BrightShareBounds(below: nat, atLeast: nat, belowNext: nat, atLeastNext: nat, n: nat, p: real)
    requires 0.0 < p <= 100.0
    requires below + atLeast == n && belowNext + atLeastNext == n
    requires belowNext as real >= (1.0 - p / 100.0) * n as real
    requires below == 0 || below as real < (1.0 - p / 100.0) * n as real
    ensures atLeast as real * 100.0 >= p * n as real
    ensures atLeastNext as real * 100.0 <= p * n as real
  {
    assert (1.0 - p / 100.0) * n as real * 100.0 == n as real * 100.0 - p * n as real;
    if below == 0 {
      assert atLeast == n;
      assert (100.0 - p) * n as real >= 0.0;
    } else {
      assert atLeast as real == n as real - below as real;
    }
    assert atLeastNext as real == n as real - belowNext as real;
  }

  /** The call fails only for a percentage outside [0, 100], and takes the
      brightest pixel exactly when the percentage is 0. */
  lemma WhitePatchOutcome(gray: Image, p: real)
    ensures WhitePatchReference(gray, p).Ok? <==> 0.0 <= p <= 100.0
    ensures WhitePatchReference(gray, p) == Ok(BrightestPixel) <==> p == 0.0
  {
    if 0.0 < p <= 100.0 {
      PercentileOfImage(gray, PercentileArgument(p));
    }
  }

  /** A threshold t placed as the percentile for 1 - p/100 places it keeps
      at least p% of the pixels in the mask `gray >= t`, and at most p% are
      brighter than t. */
  lemma BrightShareOfThreshold(gray: Image, t: nat, p: real)
    requires 0.0 < p <= 100.0 && t < 256
    requires CountBelow(gray, t + 1) as real >= PercentileArgument(p) * PixelCount(gray) as real
    requires 0 < t ==> CountBelow(gray, t) as real < PercentileArgument(p) * PixelCount(gray) as real
    ensures CountAtLeast(gray, t) as real * 100.0 >= p * PixelCount(gray) as real
    ensures CountAtLeast(gray, t + 1) as real * 100.0 <= p * PixelCount(gray) as real
  {
    BelowAndAtLeastPartition(gray, t);
    BelowAndAtLeastPartition(gray, t + 1);
    if t == 0 {
      CountSplit(gray, gray.rows, 0, 0, 0);
    }
    BrightShareBounds(CountBelow(gray, t), CountAtLeast(gray, t),
      CountBelow(gray, t + 1), CountAtLeast(gray, t + 1), PixelCount(gray), p);
  }

  /** A percentage p in (0, 100] picks a gray level t such that the mask
      `gray >= t` keeps at least p% of the pixels, while the pixels brighter
      than t make up at most p%. */
  lemma WhitePatchKeepsBrightestShare(gray: Image, p: real)
    requires 0.0 < p <= 100.0
    ensures WhitePatchReference(gray, p).Ok?
    ensures var t := WhitePatchReference(gray, p).value.threshold;
      && t < 256
      && CountAtLeast(gray, t) as real * 100.0 >= p * PixelCount(gray) as real
      && CountAtLeast(gray, t + 1) as real * 100.0 <= p * PixelCount(gray) as real
  {
    PercentileOfImage(gray, PercentileArgument(p));
    var t := HistogramPercentile(ImageHistogram(gray), PercentileArgument(p)).value;
    assert WhitePatchReference(gray, p) == Ok(BrightPixels(t));
    BrightShareOfThreshold(gray, t, p);
  }
}
