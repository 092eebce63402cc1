/**
 The image side of autocrop.go: grey values of pixels, the walks that fill
 a sample buffer along a row or a column, and the scans of a 1/16 strip at
 each end of a row (`analyzeX`) or column (`analyzeY`).

 The image is a total function from coordinates to 16-bit colours, so a
 coordinate just outside the picture (the right and bottom scans start one
 past the last pixel) still has a colour. Which colour that is depends on
 the concrete image type, so the model leaves it unconstrained.

 The scans read grey values through the conversion as written
 (`GrayAtAsWritten`), as the program does; `GrayAt` is the corrected
 conversion, kept beside it to state what was evidently intended.
 */
module Sampling {
  import opened Filter
  import opened EdgeSearch

  /** The largest channel value of the Go colour API (`ColorMax`). */
  const ColorMax: int := 0xFFFF

  type Channel = c: int | 0 <= c <= ColorMax
  type Byte = b: int | 0 <= b < 256

  /** The red, green and blue channels returned by `RGBA()`; alpha is never used. */
  datatype Color = Color(r: Channel, g: Channel, b: Channel)

  type Image = (int, int) -> Color

  /** The darkest of the three channels. */
  function Darkest(c: Color): Channel
  {
    if c.r <= c.g && c.r <= c.b then c.r else if c.g <= c.b then c.g else c.b
  }

  /** The brightest of the three channels. */
  function Brightest(c: Color): Channel
  {
    if c.r >= c.g && c.r >= c.b then c.r else if c.g >= c.b then c.g else c.b
  }

  /**
   The plain average of the three 16-bit channels, as the source computes
   it in `uint32`; it lies between the darkest and the brightest channel.
   */
  function Average16(c: Color): (v: Channel)
    ensures Darkest(c) <= v <= Brightest(c)
    ensures c.r == c.g == c.b ==> v == c.r
  {
    var sum := c.r + c.g + c.b;
    assert 3 * Darkest(c) <= sum <= 3 * Brightest(c);
    sum / 3
  }

  /**
   The grey value as written: the conversion to `uint8` keeps the low byte
   of the 16-bit average. It is right on true greys, whose channels repeat
   one byte twice.
   */
  function GrayAtAsWritten(c: Color): (v: Byte)
    ensures c.r == c.g == c.b && c.r % 257 == 0 ==> v == c.r / 257
  {
    Average16(c) % 256
  }

  /**
   The grey value as evidently intended: the high byte of the 16-bit
   average. It lies between the high bytes of the darkest and the brightest
   channel.
   */
  function GrayAt(c: Color): (v: Byte)
    ensures Darkest(c) / 256 <= v <= Brightest(c) / 256
    ensures c.r == c.g == c.b && c.r % 257 == 0 ==> v == c.r / 257
  {
    HighByteMonotone(Darkest(c), Average16(c));
    HighByteMonotone(Average16(c), Brightest(c));
    Average16(c) / 256
  }

  lemma HighByteMonotone(u: Channel, w: Channel)
    requires u <= w
    ensures u / 256 <= w / 256
  {}

  /** The two conversions split the average into its high and low byte. */
  lemma AverageBytes(c: Color)
    ensures Average16(c) == 256 * GrayAt(c) + GrayAtAsWritten(c)
  {}

  /** The corrected grey never gets darker when every channel gets brighter. */
  lemma GrayAtMonotone(c1: Color, c2: Color)
    requires c1.r <= c2.r && c1.g <= c2.g && c1.b <= c2.b
    ensures GrayAt(c1) <= GrayAt(c2)
  {
    HighByteMonotone(Average16(c1), Average16(c2));
  }

  /**
   The conversion as written breaks monotonicity: a grey one step brighter
   than 0x00FF reads as black, and a near-white reads as a mid grey.
   */
  lemma GrayAtAsWrittenCounterexample()
    ensures GrayAtAsWritten(Color(0x00FF, 0x00FF, 0x00FF)) == 255
    ensures GrayAtAsWritten(Color(0x0100, 0x0100, 0x0100)) == 0
    ensures GrayAtAsWritten(Color(0xFFFF, 0xFFFF, 0xFEFE)) == 169
    ensures GrayAt(Color(0xFFFF, 0xFFFF, 0xFEFE)) == 255
    ensures !(GrayAtAsWritten(Color(0x00FF, 0x00FF, 0x00FF)) <= GrayAtAsWritten(Color(0x0100, 0x0100, 0x0100)))
  {}

  /**
   The analysis parameters: the edge threshold, the smoothing factor that
   stands for the cutoff frequency `fc`, and the smoothing factor of the
   derivative (the fixed cutoff 0.1 of the source).
   */
  datatype Analysis = Analysis(img: Image, thresh: real, alpha: real, alphaD: real)
  {
    predicate Valid()
    {
      ValidAlpha(alpha) && ValidAlpha(alphaD)
    }
  }

  /** The grey values along row `y`, as the program reads them. */
  function Row(img: Image, y: int): int -> real
  {
    x => GrayAtAsWritten(img(x, y)) as real
  }

  /** The grey values along column `x`, as the program reads them. */
  function Column(img: Image, x: int): int -> real
  {
    y => GrayAtAsWritten(img(x, y)) as real
  }

  /** A walk goes one step at a time in either direction. */
  predicate ValidWalk(start: int, end: int, delta: int)
  {
    (delta == 1 && start <= end) || (delta == -1 && end <= start)
  }

  /** The `i`-th coordinate of a walk from `start`. */
  function Coordinate(start: int, delta: int, i: nat): int
    requires delta == 1 || delta == -1
  {
    if delta == 1 then start + i else start - i
  }

  /** The number of steps of a walk. */
  function Steps(start: int, end: int): (k: nat)
    ensures k == end - start || k == start - end
  {
    if start <= end then end - start else start - end
  }

  /** The `m` values a walk of `m` steps from `start` reads along a line. */
  function Strip(line: int -> real, start: int, delta: int, m: nat): (s: seq<real>)
    requires delta == 1 || delta == -1
    ensures |s| == m
  {
    seq(m, i requires 0 <= i < m => line(Coordinate(start, delta, i)))
  }

  /**
   The walk shared by `sampleX` and `sampleY`: sample `i` is the line's
   value at `start + i*delta`, for every step before `end`; the rest of the
   buffer is left as it was. A walk that cannot reach `end`, or that is
   longer than the buffer, is outside the domain (the source loops or
   indexes past the end).
   */
  method SampleLine(line: int -> real, samples: seq<real>, start: int, end: int, delta: int)
    returns (out: seq<real>)
    requires ValidWalk(start, end, delta)
    requires Steps(start, end) <= |samples|
    ensures |out| == |samples|
    ensures forall i :: 0 <= i < Steps(start, end) ==> out[i] == line(Coordinate(start, delta, i))
    ensures forall i :: Steps(start, end) <= i < |samples| ==> out[i] == samples[i]
  {
    out := samples;
    var x, i := start, 0;
    while x != end
      invariant 0 <= i <= Steps(start, end) && x == Coordinate(start, delta, i)
      invariant |out| == |samples|
      invariant forall k :: 0 <= k < i ==> out[k] == line(Coordinate(start, delta, k))
      invariant forall k :: i <= k < |samples| ==> out[k] == samples[k]
      decreases Steps(start, end) - i
    {
      out := out[i := line(x)];
      x, i := x + delta, i + 1;
    }
  }

  /** `sampleX`: grey values along row `y`, from column `start` towards `end`. */
  method SampleX(a: Analysis, samples: seq<real>, y: int, start: int, end: int, delta: int)
    returns (out: seq<real>)
    requires ValidWalk(start, end, delta)
    requires Steps(start, end) <= |samples|
    ensures |out| == |samples|
    ensures forall i :: 0 <= i < Steps(start, end) ==>
      out[i] == GrayAtAsWritten(a.img(Coordinate(start, delta, i), y)) as real
    ensures forall i :: Steps(start, end) <= i < |samples| ==> out[i] == samples[i]
  {
    out := SampleLine(Row(a.img, y), samples, start, end, delta);
  }

  /** `sampleY`: grey values along column `x`, from row `start` towards `end`. */
  method SampleY(a: Analysis, samples: seq<real>, x: int, start: int, end: int, delta: int)
    returns (out: seq<real>)
    requires ValidWalk(start, end, delta)
    requires Steps(start, end) <= |samples|
    ensures |out| == |samples|
    ensures forall i :: 0 <= i < Steps(start, end) ==>
      out[i] == GrayAtAsWritten(a.img(x, Coordinate(start, delta, i))) as real
    ensures forall i :: Steps(start, end) <= i < |samples| ==> out[i] == samples[i]
  {
    out := SampleLine(Column(a.img, x), samples, start, end, delta);
  }

  /** The width of the strip scanned at each end of a line of length `d`. */
  function StripWidth(d: nat): nat
  {
    d / 16
  }

  /** The left edge of row `y`: the search over columns `0 .. m-1`. */
  function LeftEdge(a: Analysis, dx: nat, y: int): nat
    requires a.Valid() && dx >= 32
  {
    Search(Strip(Row(a.img, y), 0, 1, StripWidth(dx)), a.alpha, a.alphaD, a.thresh)
  }

  /** The right edge of row `y`: the search over columns `dx, dx-1, .., dx-m+1`. */
  function RightEdge(a: Analysis, dx: nat, y: int): nat
    requires a.Valid() && dx >= 32
  {
    Search(Strip(Row(a.img, y), dx, -1, StripWidth(dx)), a.alpha, a.alphaD, a.thresh)
  }

  /** The top edge of column `x`: the search over rows `0 .. m-1`. */
  function TopEdge(a: Analysis, dy: nat, x: int): nat
    requires a.Valid() && dy >= 32
  {
    Search(Strip(Column(a.img, x), 0, 1, StripWidth(dy)), a.alpha, a.alphaD, a.thresh)
  }

  /** The bottom edge of column `x`: the search over rows `dy, dy-1, .., dy-m+1`. */
  function BottomEdge(a: Analysis, dy: nat, x: int): nat
    requires a.Valid() && dy >= 32
  {
    Search(Strip(Column(a.img, x), dy, -1, StripWidth(dy)), a.alpha, a.alphaD, a.thresh)
  }

  /**
   `analyzeX`: the left edge is searched in columns `0 .. m-1` and the right
   edge in columns `dx, dx-1, .., dx-m+1`, where `m` is `dx/16`; the right
   walk starts one past the last column. Both edges are sample indices
   inside the strip. Images narrower than 32 pixels are outside the domain
   (a strip of fewer than two samples cannot be differentiated).
   */
  method AnalyzeX(a: Analysis, dx: nat, y: int) returns (left: nat, right: nat)
    requires a.Valid() && dx >= 32
    ensures left < StripWidth(dx) && right < StripWidth(dx)
    ensures left == LeftEdge(a, dx, y) && right == RightEdge(a, dx, y)
  {
    var m := dx / 16;
    var samples := seq(m, _ => 0.0);
    samples := SampleX(a, samples, y, 0, m, 1);
    assert samples == Strip(Row(a.img, y), 0, 1, m);
    left := Search(samples, a.alpha, a.alphaD, a.thresh);
    samples := SampleX(a, samples, y, dx, dx - m, -1);
    assert samples == Strip(Row(a.img, y), dx, -1, m);
    right := Search(samples, a.alpha, a.alphaD, a.thresh);
  }

  /** `analyzeY`: the same scans down column `x`, for the top and bottom edges. */
  method AnalyzeY(a: Analysis, dy: nat, x: int) returns (top: nat, bottom: nat)
    requires a.Valid() && dy >= 32
    ensures top < StripWidth(dy) && bottom < StripWidth(dy)
    ensures top == TopEdge(a, dy, x) && bottom == BottomEdge(a, dy, x)
  {
    var m := dy / 16;
    var samples := seq(m, _ => 0.0);
    samples := SampleY(a, samples, x, 0, m, 1);
    assert samples == Strip(Column(a.img, x), 0, 1, m);
    top := Search(samples, a.alpha, a.alphaD, a.thresh);
    samples := SampleY(a, samples, x, dy, dy - m, -1);
    assert samples == Strip(Column(a.img, x), dy, -1, m);
    bottom := Search(samples, a.alpha, a.alphaD, a.thresh);
  }

  /**
   The right-hand scan reads the column just outside the image first and
   never reads the leftmost columns it does not reach: it covers exactly
   `dx-m+1 .. dx`.
   */
  lemma RightScanColumns(line: int -> real, dx: nat, m: nat, i: nat)
    requires i < m
    ensures Strip(line, dx, -1, m)[i] == line(dx - i)
    ensures dx - m < dx - i <= dx
  {
    assert Coordinate(dx, -1, i) == dx - i;
  }
}
