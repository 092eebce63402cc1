/**
 Summary statistics of util/util.go: the mean, the average absolute
 deviation, the zero-anchored extremes and the plausible-range trim.
 `Mean` of an empty slice is 0/0 in the source; the model requires a
 non-empty input instead.
 */
module Stats {
  import opened SeqMath

  /** The arithmetic mean lies between the least and the greatest element. */
  function Mean(xs: seq<real>): (r: real)
    requires |xs| > 0
    ensures SeqMin(xs) <= r <= SeqMax(xs)
    ensures (forall i :: 0 <= i < |xs| ==> xs[i] == xs[0]) ==> r == xs[0]
  {
    MeanBetween(xs);
    MeanConstant(xs);
    Sum(xs) / (|xs| as real)
  }

  lemma {:induction false} MeanBetween(xs: seq<real>)
    requires |xs| > 0
    ensures SeqMin(xs) <= Sum(xs) / (|xs| as real) <= SeqMax(xs)
  {
    var n := |xs| as real;
    var s := Sum(xs);
    var lo, hi := SeqMin(xs), SeqMax(xs);
    SumAtLeast(xs, lo);
    SumAtMost(xs, hi);
    DivBetween(s, n, lo, s / n);
    DivBetween(s, n, s / n, hi);
  }

  lemma {:induction false} MeanConstant(xs: seq<real>)
    requires |xs| > 0
    ensures (forall i :: 0 <= i < |xs| ==> xs[i] == xs[0]) ==> Sum(xs) / (|xs| as real) == xs[0]
  {
    if forall i :: 0 <= i < |xs| ==> xs[i] == xs[0] {
      var n := |xs| as real;
      var s := Sum(xs);
      SumAtLeast(xs, xs[0]);
      SumAtMost(xs, xs[0]);
      DivCancel(n, xs[0], s);
    }
  }

  lemma DivCancel(n: real, c: real, s: real)
    requires n > 0.0 && s == n * c
    ensures s / n == c
  {}

  lemma DivBetween(s: real, n: real, lo: real, hi: real)
    requires n > 0.0
    requires n * lo <= s <= n * hi
    ensures lo <= s / n <= hi
  {
    var q := s / n;
    assert s == n * q;
    if q < lo {
      MulPos(n, lo - q);
    }
    if q > hi {
      MulPos(n, q - hi);
    }
  }

  /** The absolute deviation of every element from `m`. */
  function AbsDevs(xs: seq<real>, m: real): (ds: seq<real>)
    ensures |ds| == |xs|
  {
    seq(|xs|, i requires 0 <= i < |xs| => Abs(xs[i] - m))
  }

  /**
   The average absolute deviation from the mean: never negative, and zero
   exactly when every element is the same.
   */
  function AvgAbsDev(xs: seq<real>): (r: real)
    requires |xs| > 0
    ensures r >= 0.0
    ensures r == 0.0 <==> (forall i :: 0 <= i < |xs| ==> xs[i] == xs[0])
  {
    var m := Mean(xs);
    var ds := AbsDevs(xs, m);
    var n := |xs| as real;
    SumAtLeast(ds, 0.0);
    assert Sum(ds) / n >= 0.0 by {
      DivBetween(Sum(ds), n, 0.0, Sum(ds) / n);
    }
    AvgAbsDevZero(xs, m, ds);
    Sum(ds) / n
  }

  lemma {:induction false} AvgAbsDevZero(xs: seq<real>, m: real, ds: seq<real>)
    requires |xs| > 0
    requires m == Mean(xs)
    requires ds == AbsDevs(xs, m)
    ensures Sum(ds) / (|xs| as real) == 0.0 <==> (forall i :: 0 <= i < |xs| ==> xs[i] == xs[0])
  {
    var n := |xs| as real;
    var s := Sum(ds);
    if forall i :: 0 <= i < |xs| ==> xs[i] == xs[0] {
      assert m == xs[0];
      assert forall i :: 0 <= i < |ds| ==> ds[i] == 0.0;
      SumAtMost(ds, 0.0);
      SumAtLeast(ds, 0.0);
      DivCancel(n, 0.0, s);
    }
    if s / n == 0.0 {
      DivCancel(n, 0.0, s);
      assert s == 0.0 by {
        assert s == n * (s / n);
      }
      SumZeroOnlyIfAllZero(ds);
      assert forall i :: 0 <= i < |xs| ==> xs[i] == m by {
        forall i | 0 <= i < |xs| ensures xs[i] == m {
          assert ds[i] == 0.0;
        }
      }
    }
  }

  /**
   The extremes as the source computes them: both start at zero, so the
   minimum is never above 0 and the maximum never below 0. For an input of
   only positive values the reported minimum is 0, which is not an element.
   */
  method MinMax(xs: seq<real>) returns (lo: real, hi: real)
    ensures |xs| == 0 ==> lo == 0.0 && hi == 0.0
    ensures |xs| > 0 ==> lo == Min2(0.0, SeqMin(xs)) && hi == Max2(0.0, SeqMax(xs))
  {
    lo, hi := 0.0, 0.0;
    var t := 0;
    while t < |xs|
      invariant 0 <= t <= |xs|
      invariant lo <= 0.0 <= hi
      invariant t == 0 ==> lo == 0.0 && hi == 0.0
      invariant t > 0 ==> lo == Min2(0.0, PrefixMin(xs, t - 1)) && hi == Max2(0.0, PrefixMax(xs, t - 1))
    {
      var x := xs[t];
      if x > hi {
        hi := x;
      } else if x < lo {
        lo := x;
      }
      t := t + 1;
    }
  }

  /** A value Trim keeps: strictly between zero and the threshold. */
  predicate Plausible(y: real, thresh: real)
  {
    y < thresh && y > 0.0
  }

  /**
   Trim: `lo` is the first plausible index and `hi` one past the last;
   with no plausible entry the whole range `[0, |xs|)` is returned.
   */
  method Trim(xs: seq<real>, thresh: real) returns (lo: nat, hi: nat)
    ensures lo <= hi <= |xs|
    ensures forall t :: 0 <= t < lo ==> !Plausible(xs[t], thresh)
    ensures forall t :: hi <= t < |xs| ==> !Plausible(xs[t], thresh)
    ensures (exists t :: 0 <= t < |xs| && Plausible(xs[t], thresh)) ==>
      lo < hi && Plausible(xs[lo], thresh) && Plausible(xs[hi - 1], thresh)
    ensures (forall t :: 0 <= t < |xs| ==> !Plausible(xs[t], thresh)) ==> lo == 0 && hi == |xs|
  {
    hi := |xs|;
    lo := 0;
    var t := 0;
    while t < |xs|
      invariant 0 <= t <= |xs|
      invariant lo == 0
      invariant forall k :: 0 <= k < t ==> !Plausible(xs[k], thresh)
    {
      if Plausible(xs[t], thresh) {
        lo := t;
        break;
      }
      t := t + 1;
    }
    var u := |xs|;
    while u > 0
      invariant 0 <= u <= |xs|
      invariant hi == |xs|
      invariant forall k :: u <= k < |xs| ==> !Plausible(xs[k], thresh)
    {
      if Plausible(xs[u - 1], thresh) {
        hi := u;
        break;
      }
      u := u - 1;
    }
  }
}
