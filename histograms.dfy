/** Single-column histograms (CV_32FC1, one bin per row) and the running sums
    that both percentile searches walk over. Bins are real numbers: float
    rounding is not modelled. */
module Histograms {
  import opened CvCore

  /** cv::sum over the first k bins: h[0] + ... + h[k-1]. */
  function PrefixSum(h: seq<real>, k: nat): real
    requires k <= |h|
  {
    if k == 0 then 0.0 else PrefixSum(h, k - 1) + h[k - 1]
  }

  /** cv::sum over the whole histogram: its area. */
  function Area(h: seq<real>): real
  {
    PrefixSum(h, |h|)
  }

  /** Every bin holds a count, so none is negative. */
  predicate NonNegative(h: seq<real>)
  {
    forall i :: 0 <= i < |h| ==> 0.0 <= h[i]
  }

  /** Running sums of a histogram of counts never decrease. */
  lemma {:induction false} PrefixSumMonotone(h: seq<real>, i: nat, j: nat)
    requires NonNegative(h) && i <= j <= |h|
    ensures 0.0 <= PrefixSum(h, i) <= PrefixSum(h, j)
  {
    if i < j {
      PrefixSumMonotone(h, i, j - 1);
    } else if 0 < i {
      PrefixSumMonotone(h, 0, i);
    }
  }

  /** The area of a histogram of counts bounds every running sum. */
  lemma AreaBoundsPrefixSums(h: seq<real>, k: nat)
    requires NonNegative(h) && k <= |h|
    ensures 0.0 <= PrefixSum(h, k) <= Area(h)
  {
    PrefixSumMonotone(h, k, |h|);
  }

  /** The least index i < n whose running sum h[0] + ... + h[i] reaches t,
      or None when no running sum of the first n bins does. */
  function FirstReaching(h: seq<real>, t: real, n: nat): Option<nat>
    requires n <= |h|
  {
    if n == 0 then None
    else match FirstReaching(h, t, n - 1)
      case Some(i) => Some(i)
      case None => if PrefixSum(h, n) >= t then Some(n - 1) else None
  }

  /** The search finds the least reaching index, and finds none only when no
      running sum of the first n bins reaches t. */
  lemma {:induction false} FirstReachingIsLeast(h: seq<real>, t: real, n: nat)
    requires n <= |h|
    ensures var r := FirstReaching(h, t, n);
      && (r.Some? ==> r.value < n && PrefixSum(h, r.value + 1) >= t)
      && (r.Some? ==> forall k :: 1 <= k <= r.value ==> PrefixSum(h, k) < t)
      && (r.None? ==> forall k :: 1 <= k <= n ==> PrefixSum(h, k) < t)
  {
    if 0 < n {
      FirstReachingIsLeast(h, t, n - 1);
    }
  }

  /** Once found among the first n bins, the index stays the answer for more bins. */
  lemma {:induction false} FirstReachingStable(h: seq<real>, t: real, n: nat, m: nat)
    requires n <= m <= |h| && FirstReaching(h, t, n).Some?
    ensures FirstReaching(h, t, m) == FirstReaching(h, t, n)
  {
    if n < m {
      FirstReachingStable(h, t, n, m - 1);
    }
  }

  /** A histogram of counts always reaches any fraction p <= 1 of its area,
      so the search succeeds whenever there is at least one bin. */
  lemma FractionOfAreaIsReached(h: seq<real>, p: real)
    requires NonNegative(h) && 0 < |h| && p <= 1.0
    ensures FirstReaching(h, p * Area(h), |h|).Some?
  {
    AreaBoundsPrefixSums(h, |h|);
    assert p * Area(h) <= Area(h);
    FirstReachingIsLeast(h, p * Area(h), |h|);
  }
}
