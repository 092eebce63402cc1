/**
 Basic arithmetic over sequences of reals shared by the signal utilities:
 sums, absolute value, and the least and greatest element of a sequence.
 All of them recurse on the last element, so that the value for a prefix
 `xs[..k+1]` is the value for `xs[..k]` combined with `xs[k]`.
 */
module SeqMath {

  function Abs(x: real): (r: real)
    ensures r >= 0.0
    ensures r == x || r == -x
  {
    if x < 0.0 then -x else x
  }

  lemma MulNonneg(a: real, b: real)
    requires a >= 0.0 && b >= 0.0
    ensures a * b >= 0.0
  {}

  lemma MulPos(a: real, b: real)
    requires a > 0.0 && b > 0.0
    ensures a * b > 0.0
  {}

  /**
   A nonzero number squares to at least some positive `p`. The bound is
   returned rather than stated as `e * e > 0`, a form the solver handles
   poorly next to other facts about `e * e`.
   */
  lemma SquareBound(e: real) returns (p: real)
    requires e != 0.0
    ensures p > 0.0 && e * e >= p
  {
    if e > 0.0 {
      p := ProductBound(e, e);
    } else {
      p := ProductBound(-e, -e);
      assert (-e) * (-e) == e * e;
    }
  }

  lemma ProductBound(a: real, b: real) returns (q: real)
    requires a > 0.0 && b > 0.0
    ensures q > 0.0 && a * b >= q
  {
    q := a * b;
  }

  lemma SquareNonneg(d: real)
    ensures d * d >= 0.0
  {
    if d < 0.0 {
      MulPos(-d, -d);
    } else {
      MulNonneg(d, d);
    }
  }

  function Min2(a: real, b: real): real
  {
    if a <= b then a else b
  }

  function Max2(a: real, b: real): real
  {
    if a >= b then a else b
  }

  /** The sum of the elements, added left to right. */
  function Sum(xs: seq<real>): real
  {
    if |xs| == 0 then 0.0 else Sum(xs[..|xs|-1]) + xs[|xs|-1]
  }

  /** The least of `x[0..t]`, inclusive of `x[t]`. */
  function PrefixMin(x: seq<real>, t: nat): real
    requires t < |x|
  {
    if t == 0 then x[0] else Min2(PrefixMin(x, t - 1), x[t])
  }

  /** The greatest of `x[0..t]`, inclusive of `x[t]`. */
  function PrefixMax(x: seq<real>, t: nat): real
    requires t < |x|
  {
    if t == 0 then x[0] else Max2(PrefixMax(x, t - 1), x[t])
  }

  /** `PrefixMin` and `PrefixMax` bound the prefix and are attained in it. */
  lemma {:induction false} PrefixBounds(x: seq<real>, t: nat)
    requires t < |x|
    ensures forall i :: 0 <= i <= t ==> PrefixMin(x, t) <= x[i] <= PrefixMax(x, t)
    ensures exists i :: 0 <= i <= t && x[i] == PrefixMin(x, t)
    ensures exists j :: 0 <= j <= t && x[j] == PrefixMax(x, t)
  {
    if t > 0 {
      PrefixBounds(x, t - 1);
      var i :| 0 <= i <= t - 1 && x[i] == PrefixMin(x, t - 1);
      var j :| 0 <= j <= t - 1 && x[j] == PrefixMax(x, t - 1);
      if x[t] < PrefixMin(x, t - 1) { i := t; }
      if x[t] > PrefixMax(x, t - 1) { j := t; }
      assert x[i] == PrefixMin(x, t);
      assert x[j] == PrefixMax(x, t);
    } else {
      assert x[0] == PrefixMin(x, 0) == PrefixMax(x, 0);
    }
  }

  /** The prefix extremes depend only on the prefix. */
  lemma {:induction false} PrefixBoundsOfPrefix(x: seq<real>, k: nat, t: nat)
    requires t < k <= |x|
    ensures PrefixMin(x[..k], t) == PrefixMin(x, t)
    ensures PrefixMax(x[..k], t) == PrefixMax(x, t)
  {
    if t > 0 {
      PrefixBoundsOfPrefix(x, k, t - 1);
    }
  }

  /** The least element of a non-empty sequence. */
  function SeqMin(xs: seq<real>): (m: real)
    requires |xs| > 0
    ensures forall i :: 0 <= i < |xs| ==> m <= xs[i]
  {
    PrefixBounds(xs, |xs| - 1);
    PrefixMin(xs, |xs| - 1)
  }

  /** The greatest element of a non-empty sequence. */
  function SeqMax(xs: seq<real>): (m: real)
    requires |xs| > 0
    ensures forall i :: 0 <= i < |xs| ==> xs[i] <= m
  {
    PrefixBounds(xs, |xs| - 1);
    PrefixMax(xs, |xs| - 1)
  }

  /** Every element at least `lo` makes the sum at least `|xs| * lo`. */
  lemma {:induction false} SumAtLeast(xs: seq<real>, lo: real)
    requires forall i :: 0 <= i < |xs| ==> lo <= xs[i]
    ensures Sum(xs) >= (|xs| as real) * lo
  {
    if |xs| > 0 {
      var p := xs[..|xs|-1];
      assert forall i :: 0 <= i < |p| ==> p[i] == xs[i];
      SumAtLeast(p, lo);
    }
  }

  /** Every element at most `hi` makes the sum at most `|xs| * hi`. */
  lemma {:induction false} SumAtMost(xs: seq<real>, hi: real)
    requires forall i :: 0 <= i < |xs| ==> xs[i] <= hi
    ensures Sum(xs) <= (|xs| as real) * hi
  {
    if |xs| > 0 {
      var p := xs[..|xs|-1];
      assert forall i :: 0 <= i < |p| ==> p[i] == xs[i];
      SumAtMost(p, hi);
    }
  }

  /** A sum of non-negative terms is zero only when every term is zero. */
  lemma {:induction false} SumZeroOnlyIfAllZero(xs: seq<real>)
    requires forall i :: 0 <= i < |xs| ==> xs[i] >= 0.0
    requires Sum(xs) == 0.0
    ensures forall i :: 0 <= i < |xs| ==> xs[i] == 0.0
  {
    if |xs| > 0 {
      var p := xs[..|xs|-1];
      assert forall i :: 0 <= i < |p| ==> p[i] == xs[i];
      SumAtLeast(p, 0.0);
      assert xs[|xs|-1] == 0.0;
      SumZeroOnlyIfAllZero(p);
    }
  }
}
