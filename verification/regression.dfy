/**
 The ordinary least-squares line fit of util/util.go (`LinearFit`).

 The independent variable is the index and the dependent variable the value;
 entries equal to zero are missing samples and are skipped, so the effective
 sample count is the number of nonzero entries. The source divides by that
 count and by the spread of the indices; both are nonzero exactly when there
 are at least two nonzero entries, which the model therefore requires. The
 squared correlation is written without a square root as
 `cov^2 / (varX * varY)`; when every nonzero value is the same, `varY` is 0
 and the source computes NaN, which the model reports as `None`.
 */
module Regression {
  import opened Wrappers
  import opened SeqMath

  /**
   Running sums over the nonzero entries: their count, and the sums of the
   index, the value, index times value, index squared and value squared.
   */
  datatype Moments = Moments(n: real, sx: real, sy: real, sxy: real, sx2: real, sy2: real)

  const NoMoments := Moments(0.0, 0.0, 0.0, 0.0, 0.0, 0.0)

  function NonzeroCount(xs: seq<real>): nat
  {
    if |xs| == 0 then 0
    else NonzeroCount(xs[..|xs|-1]) + (if xs[|xs|-1] == 0.0 then 0 else 1)
  }

  /** The sums of the source's loop; a zero entry leaves them untouched. */
  function Accumulate(xs: seq<real>): Moments
  {
    if |xs| == 0 then NoMoments
    else
      var p := Accumulate(xs[..|xs|-1]);
      var y := xs[|xs|-1];
      if y == 0.0 then p else AddPoint(p, (|xs| - 1) as real, y)
  }

  /** One iteration of the source's loop for a nonzero sample `y` at index `x`. */
  function AddPoint(m: Moments, x: real, y: real): Moments
  {
    Moments(m.n + 1.0, m.sx + x, m.sy + y, m.sxy + x * y, m.sx2 + x * x, m.sy2 + y * y)
  }

  /** `n*n` times the variance of the nonzero entries' indices, `n*sx2 - sx*sx`. */
  function Spread(m: Moments): real
  {
    m.n * m.sx2 - m.sx * m.sx
  }

  /**
   The normal equations of least squares for the line `a + b*i` over the
   nonzero entries: the residuals sum to zero and are uncorrelated with the
   index.
   */
  predicate NormalEquations(m: Moments, a: real, b: real)
  {
    m.sy == a * m.n + b * m.sx && m.sxy == a * m.sx + b * m.sx2
  }

  /** Intercept, slope and squared correlation (`None` where the source gets NaN). */
  datatype Fit = Fit(alpha: real, beta: real, r2: Option<real>)

  /**
   The least-squares fit over the nonzero entries. Its line satisfies the
   normal equations, which have no other solution, and the squared
   correlation, when defined, lies in [0, 1].
   */
  function LinearFit(xs: seq<real>): (f: Fit)
    requires NonzeroCount(xs) >= 2
    ensures NormalEquations(Accumulate(xs), f.alpha, f.beta)
    ensures forall a, b :: NormalEquations(Accumulate(xs), a, b) ==> a == f.alpha && b == f.beta
    ensures f.r2.Some? ==> 0.0 <= f.r2.value <= 1.0
  {
    var m := Accumulate(xs);
    AccumulateSpread(xs);
    FitSolvesNormalEquations(m);
    NormalUnique(m, FitOf(m).alpha, FitOf(m).beta);
    ResidualSquaresNonneg(xs, FitOf(m).alpha, FitOf(m).beta);
    FitCorrelationBounded(m);
    FitOf(m)
  }

  /** The per-sample averages the source computes: the sums divided by `n`. */
  datatype Means = Means(x: real, y: real, xy: real, x2: real, y2: real)
  {
    function Cov(): real { xy - x * y }
    function VarX(): real { x2 - x * x }
    function VarY(): real { y2 - y * y }
  }

  function MeansFrom(m: Moments): (u: Means)
    requires m.n > 0.0
    ensures m.sx == u.x * m.n && m.sy == u.y * m.n && m.sxy == u.xy * m.n
    ensures m.sx2 == u.x2 * m.n && m.sy2 == u.y2 * m.n
  {
    var n := m.n;
    Means(m.sx / n, m.sy / n, m.sxy / n, m.sx2 / n, m.sy2 / n)
  }

  /** The source's arithmetic: slope `cov/varX`, intercept through the means, r^2. */
  function FitOf(m: Moments): Fit
    requires m.n > 0.0 && Spread(m) > 0.0
  {
    var u := MeansFrom(m);
    VarXPositive(m, u);
    var beta := u.Cov() / u.VarX();
    Fit(u.y - beta * u.x, beta, SquaredCorrelation(u.Cov(), u.VarX(), u.VarY()))
  }

  /** `cov^2 / (varX * varY)`, or `None` where the source divides by a zero `varY`. */
  function SquaredCorrelation(cov: real, varX: real, varY: real): Option<real>
    requires varX > 0.0
  {
    if varY == 0.0 then None else Some(cov * cov / (varX * varY))
  }

  lemma FitSolvesNormalEquations(m: Moments)
    requires m.n > 0.0 && Spread(m) > 0.0
    ensures NormalEquations(m, FitOf(m).alpha, FitOf(m).beta)
  {
    var u := MeansFrom(m);
    VarXPositive(m, u);
    NormalFromMeans(m, u, FitOf(m).beta, FitOf(m).alpha);
  }

  lemma FitCorrelationBounded(m: Moments)
    requires m.n > 0.0 && Spread(m) > 0.0
    requires ResidualSquares(m, FitOf(m).alpha, FitOf(m).beta) >= 0.0
    ensures FitOf(m).r2.Some? ==> 0.0 <= FitOf(m).r2.value <= 1.0
  {
    var u := MeansFrom(m);
    VarXPositive(m, u);
    var f := FitOf(m);
    FitSolvesNormalEquations(m);
    DivTimes(u.Cov(), u.VarX(), f.beta);
    CorrelationAtSolution(m, u, f.alpha, f.beta);
  }

  /** At any solution of the normal equations, `cov^2 <= varX * varY`. */
  lemma CorrelationAtSolution(m: Moments, u: Means, a: real, b: real)
    requires m.n > 0.0 && u == MeansFrom(m) && u.VarX() > 0.0
    requires NormalEquations(m, a, b)
    requires a == u.y - b * u.x && b * u.VarX() == u.Cov()
    requires ResidualSquares(m, a, b) >= 0.0
    ensures SquaredCorrelation(u.Cov(), u.VarX(), u.VarY()).Some? ==>
      0.0 <= SquaredCorrelation(u.Cov(), u.VarX(), u.VarY()).value <= 1.0
  {
    var rest := ResidualsInMeans(m, u, a, b);
    CorrelationBounded(m.n, u.VarX(), u.VarY(), u.Cov(), b, rest, ResidualSquares(m, a, b));
  }

  // ---------------------------------------------------------------------------
  // The count and the spread of the indices

  lemma {:induction false} AccumulateCount(xs: seq<real>)
    ensures Accumulate(xs).n == NonzeroCount(xs) as real
  {
    if |xs| > 0 {
      AccumulateCount(xs[..|xs|-1]);
    }
  }

  /**
   For any point `x` at or beyond the end of `xs`, the sum of squared
   distances from `x` to the nonzero indices is at least their count.
   */
  lemma {:induction false} DistanceFromEnd(xs: seq<real>, x: real)
    requires x >= |xs| as real
    ensures SquaredDistance(Accumulate(xs), x) >= Accumulate(xs).n
  {
    if |xs| > 0 {
      DistanceFromEnd(xs[..|xs|-1], x);
      if xs[|xs|-1] != 0.0 {
        LastPoint(xs);
        DistanceStep(Accumulate(xs[..|xs|-1]), (|xs| - 1) as real, xs[|xs|-1], x);
        SquareAtLeastOne(x - (|xs| - 1) as real);
      }
    }
  }

  /** The sum of squared distances from `x` to the nonzero indices. */
  function SquaredDistance(m: Moments, x: real): real
  {
    m.sx2 - 2.0 * x * m.sx + m.n * x * x
  }

  lemma DistanceStep(m: Moments, i: real, y: real, x: real)
    ensures SquaredDistance(AddPoint(m, i, y), x) == SquaredDistance(m, x) + (x - i) * (x - i)
  {}

  lemma SpreadStep(m: Moments, i: real, y: real)
    ensures Spread(AddPoint(m, i, y)) == Spread(m) + SquaredDistance(m, i)
  {}

  /** The spread is never negative, and at least `n - 1`. */
  lemma {:induction false} SpreadAtLeast(xs: seq<real>)
    ensures Spread(Accumulate(xs)) >= 0.0
    ensures Spread(Accumulate(xs)) >= Accumulate(xs).n - 1.0
  {
    if |xs| > 0 {
      var p := xs[..|xs|-1];
      SpreadAtLeast(p);
      var y := xs[|xs|-1];
      if y != 0.0 {
        var m := Accumulate(p);
        var i := (|xs| - 1) as real;
        assert Accumulate(xs) == AddPoint(m, i, y);
        SpreadStep(m, i, y);
        DistanceFromEnd(p, i);
        AccumulateCount(p);
      }
    }
  }

  /** Two or more nonzero entries make the spread of the indices positive. */
  lemma {:induction false} AccumulateSpread(xs: seq<real>)
    requires NonzeroCount(xs) >= 2
    ensures Accumulate(xs).n >= 2.0
    ensures Spread(Accumulate(xs)) > 0.0
  {
    AccumulateCount(xs);
    SpreadAtLeast(xs);
  }

  lemma SquareAtLeastOne(d: real)
    requires d >= 1.0
    ensures d * d >= 1.0
  {
    MulNonneg(d - 1.0, d + 1.0);
  }

  // ---------------------------------------------------------------------------
  // From the source's means to the normal equations

  lemma VarXPositive(m: Moments, u: Means)
    requires m.n > 0.0 && Spread(m) > 0.0
    requires u == MeansFrom(m)
    ensures u.VarX() > 0.0
  {
    var sx, x2 := u.x, u.x2;
    assert Spread(m) == m.n * m.n * (x2 - sx * sx);
    if x2 - sx * sx <= 0.0 {
      MulNonneg(m.n * m.n, sx * sx - x2);
    }
  }

  lemma NormalFromMeans(m: Moments, u: Means, beta: real, alpha: real)
    requires m.n > 0.0
    requires u == MeansFrom(m)
    requires u.VarX() != 0.0
    requires beta == u.Cov() / u.VarX()
    requires alpha == u.y - beta * u.x
    ensures NormalEquations(m, alpha, beta)
  {
    assert beta * u.VarX() == u.Cov();
  }

  /** With a positive spread the normal equations determine the line. */
  lemma NormalUnique(m: Moments, alpha: real, beta: real)
    requires m.n > 0.0 && Spread(m) > 0.0
    requires NormalEquations(m, alpha, beta)
    ensures forall a, b :: NormalEquations(m, a, b) ==> a == alpha && b == beta
  {
    forall a, b | NormalEquations(m, a, b)
      ensures a == alpha && b == beta
    {
      var da, db := a - alpha, b - beta;
      assert da * m.n + db * m.sx == 0.0;
      assert da * m.sx + db * m.sx2 == 0.0;
      assert db * Spread(m) == 0.0 by {
        assert db * Spread(m) == m.n * (da * m.sx + db * m.sx2) - m.sx * (da * m.n + db * m.sx);
      }
      assert db == 0.0;
    }
  }

  // ---------------------------------------------------------------------------
  // The squared correlation lies in [0, 1]

  /** The sum of squared residuals from the line `a + b*i` over the nonzero entries. */
  function ResidualSquares(m: Moments, a: real, b: real): real
  {
    m.sy2 - 2.0 * a * m.sy - 2.0 * b * m.sxy + a * a * m.n + 2.0 * a * b * m.sx + b * b * m.sx2
  }

  lemma {:induction false} ResidualSquaresNonneg(xs: seq<real>, a: real, b: real)
    ensures ResidualSquares(Accumulate(xs), a, b) >= 0.0
  {
    if |xs| > 0 {
      var p := xs[..|xs|-1];
      ResidualSquaresNonneg(p, a, b);
      var y := xs[|xs|-1];
      if y != 0.0 {
        var m := Accumulate(p);
        var x := (|xs| - 1) as real;
        assert Accumulate(xs) == AddPoint(m, x, y);
        var e := y - a - b * x;
        ResidualStep(m, a, b, x, y, e);
        SquareNonneg(e);
      }
    }
  }

  lemma ResidualStep(m: Moments, a: real, b: real, x: real, y: real, e: real)
    requires e == y - a - b * x
    ensures ResidualSquares(AddPoint(m, x, y), a, b) == ResidualSquares(m, a, b) + e * e
  {}

  /**
   At the fitted line the residual sum of squares is `n * (varY - beta*cov)`
   and `beta*cov == cov^2/varX`, so `cov^2 <= varX * varY`.
   */
  lemma CorrelationBounded(n: real, varX: real, varY: real, cov: real, beta: real, rest: real, rs: real)
    requires n > 0.0 && varX > 0.0
    requires beta * varX == cov
    requires rest == varY - beta * cov
    requires rs == n * rest && rs >= 0.0
    ensures varY >= 0.0
    ensures varY != 0.0 ==> varX * varY > 0.0 && 0.0 <= cov * cov / (varX * varY) <= 1.0
    ensures SquaredCorrelation(cov, varX, varY).Some? ==> 0.0 <= SquaredCorrelation(cov, varX, varY).value <= 1.0
  {
    if rest < 0.0 {
      MulPos(n, -rest);
    }
    SlopeTimesCov(varX, cov, beta);
    if varY != 0.0 {
      var p := varX * varY;
      MulPos(varX, varY);
      CovSquaredAtMost(varX, varY, cov, beta);
      SquareNonneg(cov);
      DivAtMostOne(cov * cov, p);
      SquaredCorrelationValue(cov, varX, varY);
    }
  }

  /**
   At a solution of the normal equations the residual sum of squares is
   `n * rest` with `rest == varY - beta*cov`; `rest` is returned so that
   callers can use the product without expanding it.
   */
  lemma ResidualsInMeans(m: Moments, u: Means, a: real, b: real) returns (rest: real)
    requires m.n > 0.0 && u == MeansFrom(m)
    requires NormalEquations(m, a, b)
    requires a == u.y - b * u.x
    ensures rest == u.VarY() - b * u.Cov()
    ensures ResidualSquares(m, a, b) == m.n * rest
  {
    rest := u.VarY() - b * u.Cov();
    ResidualAtSolution(m.n, m.sx, m.sy, m.sxy, m.sx2, m.sy2, a, b);
    InMeans(m.n, m.sy2, m.sy, m.sxy, u.y2, u.y, u.xy, u.x, a, b);
  }

  /** At a solution of the normal equations half of the cross terms cancel the square terms. */
  lemma ResidualAtSolution(n: real, sx: real, sy: real, sxy: real, sx2: real, sy2: real, a: real, b: real)
    requires sy == a * n + b * sx && sxy == a * sx + b * sx2
    ensures sy2 - 2.0 * a * sy - 2.0 * b * sxy + a * a * n + 2.0 * a * b * sx + b * b * sx2
      == sy2 - a * sy - b * sxy
  {
    assert a * sy == a * a * n + a * b * sx;
    assert b * sxy == a * b * sx + b * b * sx2;
  }

  lemma InMeans(n: real, tY2: real, tY: real, tXY: real, y2: real, sy: real, xy: real, sx: real, a: real, b: real)
    requires tY2 == y2 * n && tY == sy * n && tXY == xy * n
    requires a == sy - b * sx
    ensures tY2 - a * tY - b * tXY == n * ((y2 - sy * sy) - b * (xy - sx * sy))
  {}

  lemma SquaredCorrelationValue(cov: real, varX: real, varY: real)
    requires varX > 0.0 && varY != 0.0
    ensures SquaredCorrelation(cov, varX, varY) == Some(cov * cov / (varX * varY))
  {}

  lemma DivTimes(c: real, v: real, q: real)
    requires v > 0.0 && q == c / v
    ensures q * v == c
  {}

  lemma SlopeTimesCov(varX: real, cov: real, b: real)
    requires varX > 0.0 && b * varX == cov
    ensures b * cov >= 0.0
  {
    assert b * cov == b * b * varX;
    SquareNonneg(b);
    MulNonneg(b * b, varX);
  }

  lemma CovSquaredAtMost(varX: real, varY: real, cov: real, b: real)
    requires varX > 0.0 && b * varX == cov
    requires varY - b * cov >= 0.0
    ensures cov * cov <= varX * varY
  {
    assert cov * cov == varX * (b * cov);
    MulNonneg(varX, varY - b * cov);
  }

  lemma DivAtMostOne(a: real, p: real)
    requires p > 0.0 && 0.0 <= a <= p
    ensures 0.0 <= a / p <= 1.0
  {
    var q := a / p;
    assert a == q * p;
    if q < 0.0 {
      MulPos(-q, p);
    }
    if q > 1.0 {
      MulPos(q - 1.0, p);
    }
  }

  // ---------------------------------------------------------------------------
  // Samples on an exact line

  /** Every nonzero entry lies on the line `a + b*i`. */
  predicate OnLine(xs: seq<real>, a: real, b: real)
  {
    forall i :: 0 <= i < |xs| && xs[i] != 0.0 ==> xs[i] == a + b * (i as real)
  }

  /**
   When the nonzero entries lie on a line, the fit recovers that line; the
   squared correlation is exactly 1 for a sloped line, and undefined (the
   source's NaN) for a flat one.
   */
  lemma {:induction false} ExactLineFit(xs: seq<real>, a: real, b: real)
    requires NonzeroCount(xs) >= 2
    requires OnLine(xs, a, b)
    ensures LinearFit(xs).alpha == a && LinearFit(xs).beta == b
    ensures LinearFit(xs).r2 == if b == 0.0 then None else Some(1.0)
  {
    var m := Accumulate(xs);
    AccumulateSpread(xs);
    LineMoments(xs, a, b);
    assert LinearFit(xs) == FitOf(m);
    FitAtExactLine(m, a, b);
  }

  lemma FitAtExactLine(m: Moments, a: real, b: real)
    requires m.n > 0.0 && Spread(m) > 0.0
    requires NormalEquations(m, a, b) && ResidualSquares(m, a, b) == 0.0
    ensures FitOf(m).alpha == a && FitOf(m).beta == b
    ensures FitOf(m).r2 == if b == 0.0 then None else Some(1.0)
  {
    FitSolvesNormalEquations(m);
    NormalUnique(m, FitOf(m).alpha, FitOf(m).beta);
    var u := MeansFrom(m);
    VarXPositive(m, u);
    DivTimes(u.Cov(), u.VarX(), b);
    var rest := ResidualsInMeans(m, u, a, b);
    PerfectCorrelation(m.n, u.VarX(), u.VarY(), u.Cov(), b, rest);
  }

  /** Sums over points on a line satisfy the normal equations with no residual. */
  lemma {:induction false} LineMoments(xs: seq<real>, a: real, b: real)
    requires OnLine(xs, a, b)
    ensures NormalEquations(Accumulate(xs), a, b)
    ensures ResidualSquares(Accumulate(xs), a, b) == 0.0
  {
    if |xs| > 0 {
      OnLinePrefix(xs, a, b);
      LineMoments(xs[..|xs|-1], a, b);
      LineNormalStep(xs, a, b);
      LineResidualStep(xs, a, b);
    }
  }

  lemma {:induction false} LineNormalStep(xs: seq<real>, a: real, b: real)
    requires |xs| > 0
    requires NormalEquations(Accumulate(xs[..|xs|-1]), a, b)
    requires xs[|xs|-1] != 0.0 ==> xs[|xs|-1] == a + b * ((|xs| - 1) as real)
    ensures NormalEquations(Accumulate(xs), a, b)
  {
    var y := xs[|xs|-1];
    if y != 0.0 {
      var m := Accumulate(xs[..|xs|-1]);
      var x := (|xs| - 1) as real;
      assert Accumulate(xs) == AddPoint(m, x, y);
      NormalStep(m, a, b, x, y);
    }
  }

  lemma {:induction false} LineResidualStep(xs: seq<real>, a: real, b: real)
    requires |xs| > 0
    requires ResidualSquares(Accumulate(xs[..|xs|-1]), a, b) == 0.0
    requires xs[|xs|-1] != 0.0 ==> xs[|xs|-1] == a + b * ((|xs| - 1) as real)
    ensures ResidualSquares(Accumulate(xs), a, b) == 0.0
  {
    var y := xs[|xs|-1];
    if y != 0.0 {
      var m := Accumulate(xs[..|xs|-1]);
      var x := (|xs| - 1) as real;
      assert Accumulate(xs) == AddPoint(m, x, y);
      ResidualStep(m, a, b, x, y, 0.0);
    }
  }

  lemma {:induction false} OnLinePrefix(xs: seq<real>, a: real, b: real)
    requires |xs| > 0 && OnLine(xs, a, b)
    ensures OnLine(xs[..|xs|-1], a, b)
    ensures xs[|xs|-1] != 0.0 ==> xs[|xs|-1] == a + b * ((|xs| - 1) as real)
  {
    var p := xs[..|xs|-1];
    forall i | 0 <= i < |p| && p[i] != 0.0
      ensures p[i] == a + b * (i as real)
    {
      assert p[i] == xs[i];
    }
  }

  lemma NormalStep(m: Moments, a: real, b: real, x: real, y: real)
    requires NormalEquations(m, a, b)
    requires y == a + b * x
    ensures NormalEquations(AddPoint(m, x, y), a, b)
  {
    assert x * y == a * x + b * (x * x);
  }

  /**
   With no residual, `varY == beta*cov` and `cov == beta*varX`: the squared
   correlation is 1 unless the slope is zero, where `varY` is zero too.
   */
  lemma PerfectCorrelation(n: real, varX: real, varY: real, cov: real, b: real, rest: real)
    requires n > 0.0 && varX > 0.0
    requires b * varX == cov
    requires rest == varY - b * cov && 0.0 == n * rest
    ensures SquaredCorrelation(cov, varX, varY) == if b == 0.0 then None else Some(1.0)
  {
    assert rest == 0.0 by {
      if rest > 0.0 {
        MulPos(n, rest);
      } else if rest < 0.0 {
        MulPos(n, -rest);
      }
    }
    assert varY == b * b * varX;
    if b != 0.0 {
      MulPos(b * b, varX);
      assert varY > 0.0;
      MulPos(varX, varY);
      assert cov * cov == varX * varY;
      SquaredCorrelationValue(cov, varX, varY);
      DivSelf(varX * varY);
    }
  }

  lemma DivSelf(p: real)
    requires p > 0.0
    ensures p / p == 1.0
  {}

  /**
   The squared correlation is exactly 1 if and only if every nonzero entry
   lies on the fitted line and that line is not flat.
   */
  lemma {:induction false} PerfectFitIff(xs: seq<real>)
    requires NonzeroCount(xs) >= 2
    ensures LinearFit(xs).r2 == Some(1.0) <==>
      OnLine(xs, LinearFit(xs).alpha, LinearFit(xs).beta) && LinearFit(xs).beta != 0.0
  {
    var f := LinearFit(xs);
    if OnLine(xs, f.alpha, f.beta) {
      ExactLineFit(xs, f.alpha, f.beta);
    }
    if f.r2 == Some(1.0) {
      var m := Accumulate(xs);
      AccumulateSpread(xs);
      assert f == FitOf(m);
      UnitCorrelationNoResidual(m);
      ZeroResidualOnLine(xs, f.alpha, f.beta);
    }
  }

  lemma UnitCorrelationNoResidual(m: Moments)
    requires m.n > 0.0 && Spread(m) > 0.0
    requires FitOf(m).r2 == Some(1.0)
    ensures ResidualSquares(m, FitOf(m).alpha, FitOf(m).beta) == 0.0
    ensures FitOf(m).beta != 0.0
  {
    var u := MeansFrom(m);
    VarXPositive(m, u);
    var f := FitOf(m);
    FitSolvesNormalEquations(m);
    DivTimes(u.Cov(), u.VarX(), f.beta);
    var rest := ResidualsInMeans(m, u, f.alpha, f.beta);
    UnitCorrelation(m.n, u.VarX(), u.VarY(), u.Cov(), f.beta, rest, ResidualSquares(m, f.alpha, f.beta));
  }

  lemma UnitCorrelation(n: real, varX: real, varY: real, cov: real, b: real, rest: real, rs: real)
    requires n > 0.0 && varX > 0.0
    requires b * varX == cov
    requires rest == varY - b * cov && rs == n * rest
    requires SquaredCorrelation(cov, varX, varY) == Some(1.0)
    ensures rs == 0.0 && b != 0.0
  {
    assert varY != 0.0;
    var p := varX * varY;
    assert cov * cov / p == 1.0;
    assert p != 0.0;
    assert cov * cov == p;
    assert varX * (b * cov) == varX * varY;
    CancelLeft(varX, b * cov, varY);
  }

  lemma CancelLeft(c: real, x: real, y: real)
    requires c != 0.0 && c * x == c * y
    ensures x == y
  {}

  // ---------------------------------------------------------------------------
  // What the squared correlation measures

  /**
   The total sum of squares: the squared deviations of the nonzero entries
   from their mean, that is, the residuals of the flat line through the mean.
   */
  function TotalSquares(m: Moments): real
    requires m.n > 0.0
  {
    ResidualSquares(m, m.sy / m.n, 0.0)
  }

  /**
   The squared correlation is the share of the total sum of squares that
   the fitted line explains, `1 - residual/total`; it is undefined exactly
   when the total is zero.
   */
  lemma {:induction false} R2Explained(xs: seq<real>)
    requires NonzeroCount(xs) >= 2
    ensures Accumulate(xs).n > 0.0
    ensures LinearFit(xs).r2.None? <==> TotalSquares(Accumulate(xs)) == 0.0
    ensures LinearFit(xs).r2.Some? ==>
      LinearFit(xs).r2.value
        == 1.0 - ResidualSquares(Accumulate(xs), LinearFit(xs).alpha, LinearFit(xs).beta) / TotalSquares(Accumulate(xs))
  {
    var m := Accumulate(xs);
    AccumulateSpread(xs);
    assert LinearFit(xs) == FitOf(m);
    var u := MeansFrom(m);
    VarXPositive(m, u);
    var f := FitOf(m);
    FitSolvesNormalEquations(m);
    DivTimes(u.Cov(), u.VarX(), f.beta);
    var rest := ResidualsInMeans(m, u, f.alpha, f.beta);
    FlatResidual(m, u);
    var tot := TotalSquares(m);
    assert tot == m.n * u.VarY();
    if u.VarY() != 0.0 {
      var rs := ResidualSquares(m, f.alpha, f.beta);
      R2AtFit(f.r2, m.n, u.Cov(), u.VarX(), u.VarY(), f.beta, rest, rs, tot);
    }
  }

  lemma R2AtFit(r2: Option<real>, n: real, cov: real, varX: real, varY: real, b: real, rest: real, rs: real, tot: real)
    requires n > 0.0 && varX > 0.0 && varY != 0.0
    requires r2 == SquaredCorrelation(cov, varX, varY)
    requires b * varX == cov
    requires rest == varY - b * cov && rs == n * rest
    requires tot == n * varY
    ensures r2.Some? && r2.value == 1.0 - rs / tot
  {
    SquaredCorrelationValue(cov, varX, varY);
    CorrelationAsExplained(n, varX, varY, cov, b, rest, rs, tot);
  }

  /** The flat line through the mean leaves `n * varY` as its residual sum of squares. */
  lemma FlatResidual(m: Moments, u: Means)
    requires m.n > 0.0 && u == MeansFrom(m)
    ensures m.sy / m.n == u.y
    ensures ResidualSquares(m, u.y, 0.0) == m.n * u.VarY()
  {
    assert ResidualSquares(m, u.y, 0.0) == m.sy2 - 2.0 * u.y * m.sy + u.y * u.y * m.n;
    assert u.y * m.sy == m.n * (u.y * u.y);
  }

  /** `cov^2/(varX*varY) == 1 - n*(varY - beta*cov) / (n*varY)` at the fitted slope. */
  lemma CorrelationAsExplained(n: real, varX: real, varY: real, cov: real, b: real, rest: real, rs: real, tot: real)
    requires n > 0.0 && varX > 0.0 && varY != 0.0
    requires b * varX == cov
    requires rest == varY - b * cov && rs == n * rest
    requires tot == n * varY
    ensures tot != 0.0
    ensures cov * cov / (varX * varY) == 1.0 - rs / tot
  {
    MulNonzero(varX, varY);
    var q := cov * cov / (varX * varY);
    ShareOfSlope(varX, varY, cov, b, q);
    var r := rs / tot;
    MulNonzero(n, varY);
    RatioCancel(n, rest, varY, r);
    ComplementShare(r, q, varY, b * cov);
  }

  lemma MulNonzero(x: real, y: real)
    requires x != 0.0 && y != 0.0
    ensures x * y != 0.0
  {}

  /** At the fitted slope `beta*cov` is the share `cov^2/(varX*varY)` of `varY`. */
  lemma ShareOfSlope(varX: real, varY: real, cov: real, b: real, q: real)
    requires varX > 0.0 && varY != 0.0 && b * varX == cov
    requires varX * varY != 0.0 && q == cov * cov / (varX * varY)
    ensures q * varY == b * cov
  {
    assert q * (varX * varY) == cov * cov;
    assert varX * (q * varY) == varX * (b * cov);
    CancelLeft(varX, q * varY, b * cov);
  }

  lemma RatioCancel(n: real, rest: real, varY: real, r: real)
    requires n > 0.0 && n * varY != 0.0 && r == (n * rest) / (n * varY)
    ensures r * varY == rest
  {
    assert r * (n * varY) == n * rest;
    assert n * (r * varY) == n * rest;
    CancelLeft(n, r * varY, rest);
  }

  lemma ComplementShare(r: real, q: real, v: real, bc: real)
    requires v != 0.0 && q * v == bc && r * v == v - bc
    ensures r == 1.0 - q
  {
    assert v * (r + q) == r * v + q * v;
    CancelLeft(v, r + q, 1.0);
  }

  /**
   The squared correlation is undefined (the source's NaN) exactly when the
   nonzero entries all have the same value.
   */
  lemma {:induction false} R2NoneIffFlat(xs: seq<real>)
    requires NonzeroCount(xs) >= 2
    ensures LinearFit(xs).r2.None? <==> exists c :: OnLine(xs, c, 0.0)
  {
    R2Explained(xs);
    var m := Accumulate(xs);
    if LinearFit(xs).r2.None? {
      ZeroResidualOnLine(xs, m.sy / m.n, 0.0);
    }
    if exists c :: OnLine(xs, c, 0.0) {
      var c :| OnLine(xs, c, 0.0);
      ExactLineFit(xs, c, 0.0);
    }
  }

  /** A zero residual sum of squares puts every nonzero entry on the line. */
  lemma {:induction false} ZeroResidualOnLine(xs: seq<real>, a: real, b: real)
    requires ResidualSquares(Accumulate(xs), a, b) == 0.0
    ensures OnLine(xs, a, b)
  {
    if |xs| > 0 {
      var p := xs[..|xs|-1];
      ZeroResidualStep(xs, a, b);
      ZeroResidualOnLine(p, a, b);
      OnLineExtend(xs, a, b);
    }
  }

  lemma {:induction false} ZeroResidualStep(xs: seq<real>, a: real, b: real)
    requires |xs| > 0
    requires ResidualSquares(Accumulate(xs), a, b) == 0.0
    ensures ResidualSquares(Accumulate(xs[..|xs|-1]), a, b) == 0.0
    ensures xs[|xs|-1] != 0.0 ==> xs[|xs|-1] == a + b * ((|xs| - 1) as real)
  {
    if xs[|xs|-1] != 0.0 {
      ZeroResidualLastPoint(xs, a, b);
    } else {
      LastZero(xs);
    }
  }

  lemma {:induction false} ZeroResidualLastPoint(xs: seq<real>, a: real, b: real)
    requires |xs| > 0 && xs[|xs|-1] != 0.0
    requires ResidualSquares(Accumulate(xs), a, b) == 0.0
    ensures ResidualSquares(Accumulate(xs[..|xs|-1]), a, b) == 0.0
    ensures xs[|xs|-1] == a + b * ((|xs| - 1) as real)
  {
    ResidualSquaresNonneg(xs[..|xs|-1], a, b);
    LastPoint(xs);
    ZeroResidualSplit(Accumulate(xs[..|xs|-1]), Accumulate(xs), a, b, (|xs| - 1) as real, xs[|xs|-1],
      xs[|xs|-1] - a - b * ((|xs| - 1) as real));
  }

  /** A zero total of non-negative parts: the earlier sum and the new residual are both zero. */
  lemma ZeroResidualSplit(m: Moments, next: Moments, a: real, b: real, x: real, y: real, e: real)
    requires next == AddPoint(m, x, y)
    requires ResidualSquares(m, a, b) >= 0.0
    requires ResidualSquares(next, a, b) == 0.0
    requires e == y - a - b * x
    ensures ResidualSquares(m, a, b) == 0.0 && y == a + b * x
  {
    ResidualStep(m, a, b, x, y, e);
    SquareNonneg(e);
    if e != 0.0 {
      var p := SquareBound(e);
    }
  }

  lemma {:induction false} OnLineExtend(xs: seq<real>, a: real, b: real)
    requires |xs| > 0 && OnLine(xs[..|xs|-1], a, b)
    requires xs[|xs|-1] != 0.0 ==> xs[|xs|-1] == a + b * ((|xs| - 1) as real)
    ensures OnLine(xs, a, b)
  {
    var p := xs[..|xs|-1];
    forall i | 0 <= i < |xs| && xs[i] != 0.0
      ensures xs[i] == a + b * (i as real)
    {
      if i < |p| {
        assert xs[i] == p[i];
      }
    }
  }

  // ---------------------------------------------------------------------------
  // Only the nonzero samples matter

  /** `xs` and `ys` have the same nonzero entries at the same indices. */
  predicate SameNonzeroPairs(xs: seq<real>, ys: seq<real>)
  {
    |xs| == |ys| && forall t :: 0 <= t < |xs| && (xs[t] != 0.0 || ys[t] != 0.0) ==> xs[t] == ys[t]
  }

  /**
   The fit sees only the pairs `(i, xs[i])` with a nonzero value: two inputs
   with the same such pairs have the same sums, count and fit.
   */
  lemma {:induction false} SameNonzeroPairsSameFit(xs: seq<real>, ys: seq<real>)
    requires SameNonzeroPairs(xs, ys)
    ensures Accumulate(xs) == Accumulate(ys)
    ensures NonzeroCount(xs) == NonzeroCount(ys)
    ensures NonzeroCount(xs) >= 2 ==> LinearFit(xs) == LinearFit(ys)
  {
    SameNonzeroPairsSameSums(xs, ys);
    AccumulateCount(xs);
    AccumulateCount(ys);
  }

  lemma {:induction false} SameNonzeroPairsSameSums(xs: seq<real>, ys: seq<real>)
    requires SameNonzeroPairs(xs, ys)
    ensures Accumulate(xs) == Accumulate(ys)
  {
    if |xs| > 0 {
      var k := |xs| - 1;
      assert SameNonzeroPairs(xs[..k], ys[..k]) by {
        forall t | 0 <= t < k && (xs[..k][t] != 0.0 || ys[..k][t] != 0.0)
          ensures xs[..k][t] == ys[..k][t]
        {
          assert xs[..k][t] == xs[t] && ys[..k][t] == ys[t];
        }
      }
      SameNonzeroPairsSameSums(xs[..k], ys[..k]);
    }
  }

  /** Appending zeros leaves the sums, and so the fit, unchanged. */
  lemma {:induction false} TrailingZeros(xs: seq<real>, k: nat)
    ensures Accumulate(xs + seq(k, _ => 0.0)) == Accumulate(xs)
  {
    if k > 0 {
      var z := xs + seq(k, _ => 0.0);
      assert z[..|z|-1] == xs + seq(k - 1, _ => 0.0);
      TrailingZeros(xs, k - 1);
    } else {
      assert xs + seq(0, _ => 0.0) == xs;
    }
  }

  // ---------------------------------------------------------------------------
  // Filling gaps from the fitted line

  /** Every entry of `ys` is the entry of `xs`, or fills a zero of `xs` with the line `a + b*t`. */
  predicate FilledFromLine(xs: seq<real>, ys: seq<real>, a: real, b: real)
  {
    |xs| == |ys| &&
    forall t :: 0 <= t < |xs| ==> ys[t] == xs[t] || (xs[t] == 0.0 && ys[t] == a + b * (t as real))
  }

  /**
   Filling zero entries with points of the fitted line leaves the fit's line
   unchanged: the added points have no residual, so the normal equations
   still hold, and they have a unique solution.
   */
  lemma {:induction false} FillKeepsFit(xs: seq<real>, ys: seq<real>)
    requires NonzeroCount(xs) >= 2
    requires FilledFromLine(xs, ys, LinearFit(xs).alpha, LinearFit(xs).beta)
    ensures NonzeroCount(ys) >= 2
    ensures LinearFit(ys).alpha == LinearFit(xs).alpha && LinearFit(ys).beta == LinearFit(xs).beta
  {
    var a, b := LinearFit(xs).alpha, LinearFit(xs).beta;
    NonzeroCountGrows(xs, ys, a, b);
    FillKeepsNormal(xs, ys, a, b);
  }

  /** A line that solves the normal equations of `xs` solves those of the filled `ys`. */
  lemma {:induction false} FillKeepsNormal(xs: seq<real>, ys: seq<real>, a: real, b: real)
    requires FilledFromLine(xs, ys, a, b)
    requires NormalEquations(Accumulate(xs), a, b)
    ensures NormalEquations(Accumulate(ys), a, b)
  {
    FillSameResiduals(xs, ys, a, b);
    GapIsResidual(xs, a, b);
    GapIsResidual(ys, a, b);
    NormalFromGaps(Accumulate(xs), Accumulate(ys), a, b);
  }

  lemma NormalFromGaps(mx: Moments, my: Moments, a: real, b: real)
    requires NormalEquations(mx, a, b)
    requires GapSum(my, a, b) == GapSum(mx, a, b) && GapMoment(my, a, b) == GapMoment(mx, a, b)
    ensures NormalEquations(my, a, b)
  {}

  /** How far the sums are from satisfying the first normal equation for `a + b*i`. */
  function GapSum(m: Moments, a: real, b: real): real
  {
    m.sy - a * m.n - b * m.sx
  }

  /** How far the sums are from satisfying the second normal equation for `a + b*i`. */
  function GapMoment(m: Moments, a: real, b: real): real
  {
    m.sxy - a * m.sx - b * m.sx2
  }

  lemma {:induction false} NonzeroCountGrows(xs: seq<real>, ys: seq<real>, a: real, b: real)
    requires FilledFromLine(xs, ys, a, b)
    ensures NonzeroCount(ys) >= NonzeroCount(xs)
  {
    if |xs| > 0 {
      var k := |xs| - 1;
      FilledFromLinePrefix(xs, ys, a, b);
      NonzeroCountGrows(xs[..k], ys[..k], a, b);
    }
  }

  lemma {:induction false} FilledFromLinePrefix(xs: seq<real>, ys: seq<real>, a: real, b: real)
    requires |xs| > 0 && FilledFromLine(xs, ys, a, b)
    ensures FilledFromLine(xs[..|xs|-1], ys[..|ys|-1], a, b)
  {
    var k := |xs| - 1;
    forall t | 0 <= t < k
      ensures ys[..k][t] == xs[..k][t] || (xs[..k][t] == 0.0 && ys[..k][t] == a + b * (t as real))
    {
      assert xs[..k][t] == xs[t] && ys[..k][t] == ys[t];
    }
  }

  /** The residual of entry `k` from the line `a + b*i`; a zero entry is skipped and has none. */
  function Residual(xs: seq<real>, k: nat, a: real, b: real): real
    requires k < |xs|
  {
    if xs[k] == 0.0 then 0.0 else xs[k] - a - b * (k as real)
  }

  /** The sum of the residuals of the nonzero entries. */
  function ResidualSum(xs: seq<real>, a: real, b: real): real
    decreases |xs|
  {
    if |xs| == 0 then 0.0
    else ResidualSum(xs[..|xs|-1], a, b) + Residual(xs, |xs| - 1, a, b)
  }

  /** The sum of the residuals of the nonzero entries, each weighted by its index. */
  function ResidualMoment(xs: seq<real>, a: real, b: real): real
    decreases |xs|
  {
    if |xs| == 0 then 0.0
    else ResidualMoment(xs[..|xs|-1], a, b) + ((|xs| - 1) as real) * Residual(xs, |xs| - 1, a, b)
  }

  /** The gaps of the accumulated sums are the residual sums, entry by entry. */
  lemma {:induction false} GapIsResidual(xs: seq<real>, a: real, b: real)
    ensures GapSum(Accumulate(xs), a, b) == ResidualSum(xs, a, b)
    ensures GapMoment(Accumulate(xs), a, b) == ResidualMoment(xs, a, b)
  {
    if |xs| > 0 {
      var k := |xs| - 1;
      GapIsResidual(xs[..k], a, b);
      if xs[k] != 0.0 {
        GapLastPoint(xs, a, b);
      } else {
        LastZero(xs);
      }
    }
  }

  lemma {:induction false} GapLastPoint(xs: seq<real>, a: real, b: real)
    requires |xs| > 0 && xs[|xs|-1] != 0.0
    ensures GapSum(Accumulate(xs), a, b)
      == GapSum(Accumulate(xs[..|xs|-1]), a, b) + Residual(xs, |xs| - 1, a, b)
    ensures GapMoment(Accumulate(xs), a, b)
      == GapMoment(Accumulate(xs[..|xs|-1]), a, b) + ((|xs| - 1) as real) * Residual(xs, |xs| - 1, a, b)
  {
    LastPoint(xs);
    GapSumLast(xs, a, b);
    GapMomentLast(xs, a, b);
  }

  lemma {:induction false} GapSumLast(xs: seq<real>, a: real, b: real)
    requires |xs| > 0 && xs[|xs|-1] != 0.0
    requires Accumulate(xs) == AddPoint(Accumulate(xs[..|xs|-1]), (|xs| - 1) as real, xs[|xs|-1])
    ensures GapSum(Accumulate(xs), a, b)
      == GapSum(Accumulate(xs[..|xs|-1]), a, b) + Residual(xs, |xs| - 1, a, b)
  {
    GapSumStep(Accumulate(xs[..|xs|-1]), a, b, (|xs| - 1) as real, xs[|xs|-1], Residual(xs, |xs| - 1, a, b));
  }

  lemma {:induction false} GapMomentLast(xs: seq<real>, a: real, b: real)
    requires |xs| > 0 && xs[|xs|-1] != 0.0
    requires Accumulate(xs) == AddPoint(Accumulate(xs[..|xs|-1]), (|xs| - 1) as real, xs[|xs|-1])
    ensures GapMoment(Accumulate(xs), a, b)
      == GapMoment(Accumulate(xs[..|xs|-1]), a, b) + ((|xs| - 1) as real) * Residual(xs, |xs| - 1, a, b)
  {
    GapMomentStep(Accumulate(xs[..|xs|-1]), a, b, (|xs| - 1) as real, xs[|xs|-1],
      Residual(xs, |xs| - 1, a, b), ((|xs| - 1) as real) * Residual(xs, |xs| - 1, a, b));
  }

  lemma {:induction false} LastPoint(xs: seq<real>)
    requires |xs| > 0 && xs[|xs|-1] != 0.0
    ensures Accumulate(xs) == AddPoint(Accumulate(xs[..|xs|-1]), (|xs| - 1) as real, xs[|xs|-1])
  {}

  lemma {:induction false} LastZero(xs: seq<real>)
    requires |xs| > 0 && xs[|xs|-1] == 0.0
    ensures Accumulate(xs) == Accumulate(xs[..|xs|-1])
  {}

  /**
   Filling zeros with points of the line changes no residual sum: a kept
   entry contributes what it did, and a filled one lies on the line.
   */
  lemma {:induction false} FillSameResiduals(xs: seq<real>, ys: seq<real>, a: real, b: real)
    requires FilledFromLine(xs, ys, a, b)
    ensures ResidualSum(ys, a, b) == ResidualSum(xs, a, b)
    ensures ResidualMoment(ys, a, b) == ResidualMoment(xs, a, b)
  {
    if |xs| > 0 {
      var k := |xs| - 1;
      FilledFromLinePrefix(xs, ys, a, b);
      FillSameResiduals(xs[..k], ys[..k], a, b);
      assert Residual(ys, k, a, b) == Residual(xs, k, a, b);
    }
  }

  lemma GapStep(m: Moments, a: real, b: real, x: real, y: real, e: real, d: real)
    requires e == y - a - b * x && d == x * e
    ensures GapSum(AddPoint(m, x, y), a, b) == GapSum(m, a, b) + e
    ensures GapMoment(AddPoint(m, x, y), a, b) == GapMoment(m, a, b) + d
  {
    GapSumStep(m, a, b, x, y, e);
    GapMomentStep(m, a, b, x, y, e, d);
  }

  lemma GapSumStep(m: Moments, a: real, b: real, x: real, y: real, e: real)
    requires e == y - a - b * x
    ensures GapSum(AddPoint(m, x, y), a, b) == GapSum(m, a, b) + e
  {
    SumStep(m.sy, m.n, m.sx, a, b, x, y, e);
  }

  lemma GapMomentStep(m: Moments, a: real, b: real, x: real, y: real, e: real, d: real)
    requires e == y - a - b * x && d == x * e
    ensures GapMoment(AddPoint(m, x, y), a, b) == GapMoment(m, a, b) + d
  {
    MomentStep(m.sxy, m.sx, m.sx2, a, b, x, y, e, d);
  }

  lemma SumStep(sy: real, n: real, sx: real, a: real, b: real, x: real, y: real, e: real)
    requires e == y - a - b * x
    ensures (sy + y) - a * (n + 1.0) - b * (sx + x) == (sy - a * n - b * sx) + e
  {
    assert a * (n + 1.0) == a * n + a;
    assert b * (sx + x) == b * sx + b * x;
  }

  lemma MomentStep(sxy: real, sx: real, sx2: real, a: real, b: real, x: real, y: real, e: real, d: real)
    requires e == y - a - b * x && d == x * e
    ensures (sxy + x * y) - a * (sx + x) - b * (sx2 + x * x) == (sxy - a * sx - b * sx2) + d
  {
    assert d == x * y - x * a - x * (b * x);
  }
}
