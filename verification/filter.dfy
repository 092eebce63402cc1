/**
 The one-pole low-pass filter and the smoothed central-difference
 derivative of util/util.go.

 The source computes the smoothing factor from a cutoff frequency `fc` as
 `1/(1/(2*pi*fc) + 1)`; for every positive `fc` that lies strictly between 0
 and 1, and that open interval is exactly what the model takes as `alpha`.
 The fixed cutoff 0.1 used inside `Differentiate` becomes the parameter
 `alphaD` for the same reason (pi is not a rational number).
 */
module Filter {
  import opened SeqMath

  predicate ValidAlpha(alpha: real)
  {
    0.0 < alpha < 1.0
  }

  /**
   The output of the filter at index `t`: the input at 0, and afterwards the
   previous output moved a fraction `alpha` of the way towards `x[t]`. This
   is the loop of the source, one iteration per index.
   */
  function LowpassAt(x: seq<real>, alpha: real, t: nat): real
    requires t < |x| && ValidAlpha(alpha)
  {
    if t == 0 then x[0] else Blend(LowpassAt(x, alpha, t - 1), x[t], alpha)
  }

  /** One step of the filter: `prev` moved a fraction `alpha` of the way towards `xt`. */
  function Blend(prev: real, xt: real, alpha: real): (r: real)
    requires ValidAlpha(alpha)
    ensures Min2(prev, xt) <= r <= Max2(prev, xt)
  {
    ConvexStep(prev, xt, alpha, Min2(prev, xt), Max2(prev, xt));
    prev + alpha * (xt - prev)
  }

  /**
   Exponential smoothing of a non-empty signal (the source indexes `x[0]`
   unconditionally). Every output is a convex combination of the inputs
   seen so far, so it lies between their least and greatest value.
   */
  function Lowpass(x: seq<real>, alpha: real): (y: seq<real>)
    requires |x| >= 1
    requires ValidAlpha(alpha)
    ensures |y| == |x|
    ensures y[0] == x[0]
    ensures forall t :: 0 <= t < |x| ==> PrefixMin(x, t) <= y[t] <= PrefixMax(x, t)
  {
    LowpassBounded(x, alpha);
    seq(|x|, t requires 0 <= t < |x| => LowpassAt(x, alpha, t))
  }

  lemma {:induction false} LowpassBounded(x: seq<real>, alpha: real)
    requires |x| >= 1 && ValidAlpha(alpha)
    ensures forall t :: 0 <= t < |x| ==> PrefixMin(x, t) <= LowpassAt(x, alpha, t) <= PrefixMax(x, t)
  {
    forall t | 0 <= t < |x|
      ensures PrefixMin(x, t) <= LowpassAt(x, alpha, t) <= PrefixMax(x, t)
    {
      LowpassAtBounded(x, alpha, t);
    }
  }

  /** Induction on the index: the step is a convex combination of two values
      that already lie between the prefix extremes. */
  lemma {:induction false} LowpassAtBounded(x: seq<real>, alpha: real, t: nat)
    requires t < |x| && ValidAlpha(alpha)
    ensures PrefixMin(x, t) <= LowpassAt(x, alpha, t) <= PrefixMax(x, t)
  {
    if t > 0 {
      LowpassAtBounded(x, alpha, t - 1);
    }
  }

  /** A step of the filter stays between any bounds its two ends share. */
  lemma ConvexStep(prev: real, xt: real, alpha: real, lo: real, hi: real)
    requires ValidAlpha(alpha)
    requires lo <= prev <= hi && lo <= xt <= hi
    ensures lo <= prev + alpha * (xt - prev) <= hi
  {
    MulNonneg(1.0 - alpha, prev - lo);
    MulNonneg(alpha, xt - lo);
    MulNonneg(1.0 - alpha, hi - prev);
    MulNonneg(alpha, hi - xt);
  }

  /** The filter is causal: filtering a prefix gives the prefix of the output. */
  lemma {:induction false} LowpassPrefix(x: seq<real>, alpha: real, k: nat)
    requires 1 <= k <= |x| && ValidAlpha(alpha)
    ensures Lowpass(x[..k], alpha) == Lowpass(x, alpha)[..k]
  {
    forall t | 0 <= t < k
      ensures LowpassAt(x[..k], alpha, t) == LowpassAt(x, alpha, t)
    {
      LowpassAtOfPrefix(x, alpha, k, t);
    }
  }

  lemma {:induction false} LowpassAtOfPrefix(x: seq<real>, alpha: real, k: nat, t: nat)
    requires t < k <= |x| && ValidAlpha(alpha)
    ensures LowpassAt(x[..k], alpha, t) == LowpassAt(x, alpha, t)
  {
    if t > 0 {
      LowpassAtOfPrefix(x, alpha, k, t - 1);
    }
  }

  /** A constant signal passes through the filter unchanged. */
  lemma {:induction false} LowpassConstant(x: seq<real>, alpha: real, c: real)
    requires |x| >= 1 && ValidAlpha(alpha)
    requires forall i :: 0 <= i < |x| ==> x[i] == c
    ensures Lowpass(x, alpha) == x
  {
    var y := Lowpass(x, alpha);
    forall t | 0 <= t < |x|
      ensures y[t] == x[t]
    {
      PrefixBounds(x, t);
    }
  }

  /**
   The raw derivative before smoothing: a one-sided difference at each end
   and a central difference, halved, everywhere in between.
   */
  function RawDiff(xs: seq<real>): (d: seq<real>)
    requires |xs| >= 2
    ensures |d| == |xs|
  {
    seq(|xs|, i requires 0 <= i < |xs| =>
      if i == 0 then xs[1] - xs[0]
      else if i == |xs| - 1 then xs[i] - xs[i-1]
      else (xs[i+1] - xs[i-1]) / 2.0)
  }

  /**
   Differentiate: empty input gives empty output; otherwise the raw
   derivative smoothed by the low-pass filter. A single-element input is
   outside the domain: the source reads `xs[1]` for it.
   */
  function Differentiate(xs: seq<real>, alphaD: real): (d: seq<real>)
    requires |xs| != 1
    requires ValidAlpha(alphaD)
    ensures |d| == |xs|
    ensures |xs| >= 2 ==> d[0] == xs[1] - xs[0]
    ensures |xs| >= 2 ==> forall t :: 0 <= t < |xs| ==> SeqMin(RawDiff(xs)) <= d[t] <= SeqMax(RawDiff(xs))
  {
    if |xs| == 0 then []
    else
      var raw := RawDiff(xs);
      var d := Lowpass(raw, alphaD);
      DifferentiateBounded(raw, alphaD, d);
      d
  }

  lemma {:induction false} DifferentiateBounded(raw: seq<real>, alphaD: real, d: seq<real>)
    requires |raw| >= 1 && ValidAlpha(alphaD)
    requires d == Lowpass(raw, alphaD)
    ensures forall t :: 0 <= t < |raw| ==> SeqMin(raw) <= d[t] <= SeqMax(raw)
  {
    forall t | 0 <= t < |raw|
      ensures SeqMin(raw) <= d[t] <= SeqMax(raw)
    {
      PrefixBounds(raw, t);
      var i :| 0 <= i <= t && raw[i] == PrefixMin(raw, t);
      var j :| 0 <= j <= t && raw[j] == PrefixMax(raw, t);
    }
  }

  /** On a line `xs[i] == c0 + c*i` the derivative is the slope `c` everywhere. */
  lemma {:induction false} DifferentiateLinear(xs: seq<real>, alphaD: real, c0: real, c: real)
    requires |xs| >= 2 && ValidAlpha(alphaD)
    requires forall i :: 0 <= i < |xs| ==> xs[i] == c0 + c * (i as real)
    ensures forall i :: 0 <= i < |xs| ==> RawDiff(xs)[i] == c
    ensures Differentiate(xs, alphaD) == seq(|xs|, _ => c)
  {
    var raw := RawDiff(xs);
    forall i | 0 <= i < |xs|
      ensures raw[i] == c
    {
      if i == 0 {
        assert xs[1] - xs[0] == c;
      } else if i == |xs| - 1 {
        assert xs[i] - xs[i-1] == c * (i as real) - c * ((i - 1) as real);
      } else {
        assert xs[i+1] - xs[i-1] == c * ((i + 1) as real) - c * ((i - 1) as real);
      }
    }
    LowpassConstant(raw, alphaD, c);
  }
}
