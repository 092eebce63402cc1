/**
 The sequential part of `Analyze` in autocrop.go: the rows and columns
 sampled, the edges found along each, and the assembly of the crop
 rectangle and the angle from the four per-side results.

 The source starts one goroutine per sample index; each writes only its
 own index of the four result slices, so the model runs them in order.
 */
module Analyzer {
  import opened SeqMath
  import opened Stats
  import opened Sampling

  /**
   The `i`-th of `n` sample positions across a side of length `d`,
   `i*d/n` in the source's integer division; it lies inside the side.
   */
  function SamplePos(i: nat, n: nat, d: nat): (p: nat)
    requires i < n
    ensures d > 0 ==> p < d
  {
    SamplePosFloor(i, n, d);
    i * d / n
  }

  /** The position is the floor of `i*d/n`: the largest `p` with `p*n <= i*d`, and below `d`. */
  lemma SamplePosFloor(i: nat, n: nat, d: nat)
    requires i < n
    ensures (i * d / n) * n <= i * d < (i * d / n + 1) * n
    ensures 0 <= i * d / n
    ensures d > 0 ==> i * d / n < d
  {
    var m := i * d;
    MulLeq(0, i, d);
    DivFloor(m, n);
    if d > 0 {
      MulLeq(i, n - 1, d);
      assert (n - 1) * d == d * n - d;
      MulCancelLess(m / n, d, n);
    }
  }

  lemma DivFloor(m: int, n: int)
    requires m >= 0 && n > 0
    ensures 0 <= m / n && (m / n) * n <= m < (m / n + 1) * n
  {}

  lemma MulLeq(a: int, b: int, n: int)
    requires a <= b && n >= 0
    ensures a * n <= b * n
  {
    assert b * n - a * n == (b - a) * n;
  }

  lemma MulCancelLess(x: int, y: int, n: int)
    requires n > 0 && x * n < y * n
    ensures x < y
  {
    if y <= x {
      MulLeq(y, x, n);
    }
  }

  /** Later sample indices never give earlier positions. */
  lemma SamplePosMonotone(i: nat, j: nat, n: nat, d: nat)
    requires i <= j < n
    ensures SamplePos(i, n, d) <= SamplePos(j, n, d)
  {
    var p, q := SamplePos(i, n, d), SamplePos(j, n, d);
    SamplePosFloor(i, n, d);
    SamplePosFloor(j, n, d);
    MulLeq(i, j, d);
    assert p * n <= i * d <= j * d < (q + 1) * n;
    MulCancelLess(p, q + 1, n);
  }

  /**
   The edges found for one sample index: left and right along a row, top
   and bottom along a column. The source keeps them in four slices; entry
   `i` of each slice is the matching field of sample `i`.
   */
  datatype Edges = Edges(left: nat, right: nat, top: nat, bottom: nat)

  /** The edges of sample `k`: along row `k*dy/n` and along column `k*dx/n`. */
  function SampleEdges(a: Analysis, dx: nat, dy: nat, n: nat, k: nat): (e: Edges)
    requires a.Valid() && dx >= 32 && dy >= 32 && k < n
    ensures InStrips(e, dx, dy)
  {
    var y, x := SamplePos(k, n, dy), SamplePos(k, n, dx);
    Edges(LeftEdge(a, dx, y), RightEdge(a, dx, y), TopEdge(a, dy, x), BottomEdge(a, dy, x))
  }

  /** Every edge lies inside the strip it was searched in. */
  predicate InStrips(e: Edges, dx: nat, dy: nat)
  {
    e.left < StripWidth(dx) && e.right < StripWidth(dx) && e.top < StripWidth(dy) && e.bottom < StripWidth(dy)
  }

  /** The body of one goroutine of `Analyze`: the four edges of sample `i`. */
  method AnalyzeSample(a: Analysis, dx: nat, dy: nat, n: nat, i: nat) returns (e: Edges)
    requires a.Valid() && dx >= 32 && dy >= 32 && i < n
    ensures e == SampleEdges(a, dx, dy, n, i)
    ensures InStrips(e, dx, dy)
  {
    var l, r := AnalyzeX(a, dx, SamplePos(i, n, dy));
    var t, b := AnalyzeY(a, dy, SamplePos(i, n, dx));
    e := Edges(l, r, t, b);
  }

  /**
   The fan-out of `Analyze`, run in order: entry `k` holds the edges of
   sample `k`, each inside its scanned strip.
   */
  method SampleSides(a: Analysis, dx: nat, dy: nat, n: nat) returns (edges: seq<Edges>)
    requires a.Valid() && dx >= 32 && dy >= 32
    ensures |edges| == n
    ensures forall k :: 0 <= k < n ==> edges[k] == SampleEdges(a, dx, dy, n, k)
    ensures forall k :: 0 <= k < n ==> InStrips(edges[k], dx, dy)
  {
    ghost var want := seq(n, k requires 0 <= k < n => SampleEdges(a, dx, dy, n, k));
    edges := [];
    var i := 0;
    while i < n
      invariant 0 <= i <= n
      invariant edges == want[..i]
    {
      var e := AnalyzeSample(a, dx, dy, n, i);
      TakeOneMore(want, i);
      edges := edges + [e];
      i := i + 1;
    }
    assert edges == want;
  }

  lemma {:induction false} TakeOneMore<T>(s: seq<T>, i: nat)
    requires i < |s|
    ensures s[..i + 1] == s[..i] + [s[i]]
  {}

  datatype Point = Point(x: int, y: int)

  /** The rectangle of all points with `min.x <= x < max.x` and `min.y <= y < max.y`. */
  datatype Rectangle = Rectangle(min: Point, max: Point)

  /**
   What the analysis of one side yields: its angle, the squared correlation
   of its fit, and the crop distance from that side in pixels.
   */
  datatype SideResult = SideResult(angle: real, confidence: real, crop: int)

  /**
   The transformation plan: the rotation angle, the crop rectangle, and the
   per-side confidences in top, right, bottom, left order.
   */
  datatype Transform = Transform(angle: real, bounds: Rectangle, confidence: seq<real>)

  /**
   The assembly of `Analyze`: the top and left crops are the rectangle's
   minimum, the right and bottom crops are measured back from `dx` and `dy`,
   and the angle is the unweighted mean of the four side angles.
   */
  function Assemble(top: SideResult, right: SideResult, bottom: SideResult, left: SideResult, dx: int, dy: int)
    : (t: Transform)
    ensures t.bounds.min == Point(left.crop, top.crop)
    ensures dx - t.bounds.max.x == right.crop && dy - t.bounds.max.y == bottom.crop
    ensures t.confidence == [top.confidence, right.confidence, bottom.confidence, left.confidence]
    ensures Min2(Min2(top.angle, right.angle), Min2(bottom.angle, left.angle)) <= t.angle
    ensures t.angle <= Max2(Max2(top.angle, right.angle), Max2(bottom.angle, left.angle))
    ensures top.angle == right.angle == bottom.angle == left.angle ==> t.angle == top.angle
    ensures t.angle == (top.angle + right.angle + bottom.angle + left.angle) / 4.0
  {
    var angles := [top.angle, right.angle, bottom.angle, left.angle];
    var angle := Mean(angles);
    AnglesBounds(angles);
    SumOfFour(angles);
    Transform(angle, Rectangle(Point(left.crop, top.crop), Point(dx - right.crop, dy - bottom.crop)),
      [top.confidence, right.confidence, bottom.confidence, left.confidence])
  }

  lemma {:induction false} AnglesBounds(angles: seq<real>)
    requires |angles| == 4
    ensures Min2(Min2(angles[0], angles[1]), Min2(angles[2], angles[3])) <= SeqMin(angles)
    ensures SeqMax(angles) <= Max2(Max2(angles[0], angles[1]), Max2(angles[2], angles[3]))
  {
    PrefixBounds(angles, 3);
  }

  /** The sum of four values, written out. */
  lemma {:induction false} SumOfFour(s: seq<real>)
    requires |s| == 4
    ensures Sum(s) == s[0] + s[1] + s[2] + s[3]
  {
    assert s[..3][..2] == s[..2];
    assert s[..2][..1] == s[..1];
    assert s[..1][..0] == [];
    assert Sum(s[..1]) == s[0];
    assert Sum(s[..2]) == s[0] + s[1];
    assert Sum(s[..3]) == s[0] + s[1] + s[2];
    assert s[..4] == s;
  }

  /**
   Nothing orders the corners: the rectangle is well formed exactly when
   the opposite crops together fit in the image.
   */
  lemma BoundsOrderedIff(top: SideResult, right: SideResult, bottom: SideResult, left: SideResult, dx: int, dy: int)
    ensures var t := Assemble(top, right, bottom, left, dx, dy);
      (t.bounds.min.x <= t.bounds.max.x <==> left.crop + right.crop <= dx) &&
      (t.bounds.min.y <= t.bounds.max.y <==> top.crop + bottom.crop <= dy)
  {}
}
