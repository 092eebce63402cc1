/**
 The rising-edge search of autocrop.go: the samples of one scan line are
 smoothed and differentiated, and the edge is the peak of the first run of
 derivative values above the threshold. Without such a run the result is 0,
 the same value as an edge found at index 0.
 */
module EdgeSearch {
  import opened Filter

  /** Some derivative value is strictly above the threshold. */
  predicate HasEdge(d: seq<real>, thresh: real)
  {
    exists m :: 0 <= m < |d| && d[m] > thresh
  }

  /** The first index at or after `from` whose value is above the threshold, or `|d|`. */
  function FirstAbove(d: seq<real>, thresh: real, from: nat): (i: nat)
    requires from <= |d|
    ensures from <= i <= |d|
    ensures forall m :: from <= m < i ==> d[m] <= thresh
    ensures i < |d| ==> d[i] > thresh
    decreases |d| - from
  {
    if from == |d| || d[from] > thresh then from else FirstAbove(d, thresh, from + 1)
  }

  /** The end of the run of values above the threshold that starts at `from`. */
  function RunEnd(d: seq<real>, thresh: real, from: nat): (j: nat)
    requires from <= |d|
    ensures from <= j <= |d|
    ensures forall m :: from <= m < j ==> d[m] > thresh
    ensures j < |d| ==> d[j] <= thresh
    decreases |d| - from
  {
    if from == |d| || d[from] <= thresh then from else RunEnd(d, thresh, from + 1)
  }

  /**
   `k` is the edge the source looks for: inside the first run above the
   threshold, with the largest value of that run, and the earliest index
   that has it.
   */
  predicate IsFirstRunPeak(d: seq<real>, thresh: real, k: nat)
  {
    var i0 := FirstAbove(d, thresh, 0);
    i0 < |d| &&
    var j := RunEnd(d, thresh, i0);
    i0 <= k < j &&
    (forall m :: i0 <= m < j ==> d[m] <= d[k]) &&
    (forall m :: i0 <= m < k ==> d[m] < d[k])
  }

  /**
   The inner loop of the search: `best` is the earliest maximum of the run
   `[i0, i)` seen so far, and the scan stops at the first value not above
   the threshold. A later value replaces `best` only when strictly larger.
   */
  function RunPeak(d: seq<real>, thresh: real, i0: nat, i: nat, best: nat): (k: nat)
    requires i0 <= best < i <= |d|
    requires forall m :: i0 <= m < i ==> d[m] > thresh
    requires forall m :: i0 <= m < i ==> d[m] <= d[best]
    requires forall m :: i0 <= m < best ==> d[m] < d[best]
    ensures var j := RunEnd(d, thresh, i);
      i0 <= k < j &&
      (forall m :: i0 <= m < j ==> d[m] <= d[k]) &&
      (forall m :: i0 <= m < k ==> d[m] < d[k])
    decreases |d| - i
  {
    if i == |d| || d[i] <= thresh then best
    else RunPeak(d, thresh, i0, i + 1, if d[i] > d[best] then i else best)
  }

  /**
   The peak search over a derivative: 0 when nothing is above the
   threshold, and otherwise the earliest maximum of the first run. The
   source's inner loop re-reads the run's first value, which can never
   replace itself, so the scan here starts one after it.
   */
  function PeakIndex(d: seq<real>, thresh: real): (k: nat)
    ensures !HasEdge(d, thresh) ==> k == 0
    ensures HasEdge(d, thresh) ==> IsFirstRunPeak(d, thresh, k)
    ensures k == 0 || k < |d|
  {
    var i0 := FirstAbove(d, thresh, 0);
    if i0 == |d| then 0
    else
      assert RunEnd(d, thresh, i0) == RunEnd(d, thresh, i0 + 1);
      RunPeak(d, thresh, i0, i0 + 1, i0)
  }

  /** The first-run peak is unique, so the search returns the only index that has the property. */
  lemma {:induction false} PeakIndexUnique(d: seq<real>, thresh: real, k: nat)
    requires IsFirstRunPeak(d, thresh, k)
    ensures PeakIndex(d, thresh) == k
  {
    var i0 := FirstAbove(d, thresh, 0);
    assert d[i0] > thresh;
    assert IsFirstRunPeak(d, thresh, PeakIndex(d, thresh));
  }

  /**
   The result 0 is ambiguous: it is returned exactly when nothing is above
   the threshold, or when the first value is above it and is the largest of
   the first run.
   */
  lemma {:induction false} ZeroIsAmbiguous(d: seq<real>, thresh: real)
    ensures PeakIndex(d, thresh) == 0 <==>
      !HasEdge(d, thresh) ||
      (|d| > 0 && d[0] > thresh && forall m :: 0 <= m < RunEnd(d, thresh, 0) ==> d[m] <= d[0])
  {
    if |d| > 0 && d[0] > thresh && forall m :: 0 <= m < RunEnd(d, thresh, 0) ==> d[m] <= d[0] {
      assert FirstAbove(d, thresh, 0) == 0;
      assert IsFirstRunPeak(d, thresh, 0);
      PeakIndexUnique(d, thresh, 0);
    }
    if PeakIndex(d, thresh) == 0 && HasEdge(d, thresh) {
      assert IsFirstRunPeak(d, thresh, 0);
      assert FirstAbove(d, thresh, 0) == 0;
    }
  }

  /**
   `search`: smooth the samples with `alpha`, differentiate with the fixed
   smoothing `alphaD`, and take the peak. The edge lies inside the sampled
   window. At least two samples are needed: the smoother reads the first
   sample, and the derivative of a single value reads past the end.
   */
  function Search(samples: seq<real>, alpha: real, alphaD: real, thresh: real): (edge: nat)
    requires |samples| >= 2
    requires ValidAlpha(alpha) && ValidAlpha(alphaD)
    ensures edge < |samples|
    ensures var d := Differentiate(Lowpass(samples, alpha), alphaD);
      (!HasEdge(d, thresh) ==> edge == 0) && (HasEdge(d, thresh) ==> IsFirstRunPeak(d, thresh, edge))
  {
    PeakIndex(Differentiate(Lowpass(samples, alpha), alphaD), thresh)
  }

  /**
   A flat scan line has no edge, for any non-negative threshold: its
   derivative is 0 everywhere, so the search reports 0.
   */
  lemma {:induction false} FlatLineHasNoEdge(samples: seq<real>, alpha: real, alphaD: real, thresh: real, c: real)
    requires |samples| >= 2 && ValidAlpha(alpha) && ValidAlpha(alphaD)
    requires forall i :: 0 <= i < |samples| ==> samples[i] == c
    requires thresh >= 0.0
    ensures !HasEdge(Differentiate(Lowpass(samples, alpha), alphaD), thresh)
    ensures Search(samples, alpha, alphaD, thresh) == 0
  {
    LowpassConstant(samples, alpha, c);
    var s := Lowpass(samples, alpha);
    DifferentiateLinear(s, alphaD, c, 0.0);
  }
}
