/**
 The three passes of `Clean` in util/util.go, which turns a noisy edge
 profile into one that follows a straight line:

 1. the chunk pass splits the signal into blocks of `chunkSize` entries and
    zeroes every block whose window has an average absolute deviation above
    `chunkMeanDev`; near the end (fewer than 8 entries left) the window is
    the whole remainder, but only one block is zeroed;
 2. the residual pass fits a line and zeroes every entry further than
    `regressionDev` from it;
 3. the fill pass fits a line again (zeros are skipped) and replaces every
    zero by the value of that line.

 Each pass is given as a pure function, and `Clean` is the loop version of
 the source, proved equal to their composition. Every window of the chunk
 pass starts at or after the blocks zeroed before it, so each decision is
 made on the original values, which is what lets the pure definition read
 the input only.
 */
module Cleaner {
  import opened SeqMath
  import opened Stats
  import opened Regression

  /** The literal 8 of the source's test `len(xs)-t < 8`. */
  const TailLength: nat := 8

  /**
   The chunk sizes the source handles: 0 never advances the loop, and above
   8 the slice `xs[t:t+chunkSize]` can reach past the end.
   */
  predicate ValidChunkSize(cs: int)
  {
    1 <= cs <= TailLength
  }

  // ---------------------------------------------------------------------------
  // Blocks

  /** The block starts: 0, cs, 2*cs, ... */
  predicate IsBlockStart(t: nat, cs: nat)
    requires cs >= 1
    decreases t
  {
    t == 0 || (t >= cs && IsBlockStart(t - cs, cs))
  }

  /** The first index of the block holding `i`. */
  function ChunkStart(i: nat, cs: nat): (t: nat)
    requires cs >= 1
    ensures t <= i < t + cs
    ensures IsBlockStart(t, cs)
    decreases i
  {
    if i < cs then 0 else ChunkStart(i - cs, cs) + cs
  }

  /** A block start `t` is the start of the block of every index in `[t, t + cs)`. */
  lemma {:induction false} BlockOf(i: nat, t: nat, cs: nat)
    requires cs >= 1 && IsBlockStart(t, cs) && t <= i < t + cs
    ensures ChunkStart(i, cs) == t
    decreases t
  {
    if t > 0 {
      BlockOf(i - cs, t - cs, cs);
    }
  }

  /**
   The end of the window measured for the block at `t`: the rest of the
   signal when fewer than 8 entries are left, otherwise the block itself.
   */
  function WindowEnd(len: nat, t: nat, cs: nat): (e: nat)
    requires t < len && ValidChunkSize(cs)
    ensures t < e <= len
    ensures len - t < TailLength ==> e == len
    ensures len - t >= TailLength ==> e == t + cs
  {
    if len - t < TailLength then len else t + cs
  }

  /** The end of the block at `t` that is zeroed: `copy` stops at the shorter of the two. */
  function BlockEnd(len: nat, t: nat, cs: nat): nat
  {
    if t + cs < len then t + cs else len
  }

  /** The window of the block at `t` deviates more than `chunkMeanDev`. */
  predicate NoisyWindow(xs: seq<real>, t: nat, cs: nat, chunkMeanDev: real)
    requires t < |xs| && ValidChunkSize(cs)
  {
    AvgAbsDev(xs[t..WindowEnd(|xs|, t, cs)]) > chunkMeanDev
  }

  /**
   The chunk pass: every entry of a block is zeroed exactly when the
   block's window is noisy, and kept otherwise; nothing else changes.
   */
  function ChunkPass(xs: seq<real>, chunkMeanDev: real, cs: nat): (ys: seq<real>)
    requires ValidChunkSize(cs)
    ensures |ys| == |xs|
    ensures forall t: nat, i: nat :: IsBlockStart(t, cs) && t <= i < t + cs && i < |xs| ==>
      ys[i] == if NoisyWindow(xs, t, cs, chunkMeanDev) then 0.0 else xs[i]
  {
    var ys := seq(|xs|, i requires 0 <= i < |xs| =>
      if NoisyWindow(xs, ChunkStart(i, cs), cs, chunkMeanDev) then 0.0 else xs[i]);
    assert forall t: nat, i: nat :: IsBlockStart(t, cs) && t <= i < t + cs && i < |xs| ==>
      ys[i] == if NoisyWindow(xs, t, cs, chunkMeanDev) then 0.0 else xs[i]
    by {
      forall t: nat, i: nat | IsBlockStart(t, cs) && t <= i < t + cs && i < |xs|
        ensures ys[i] == if NoisyWindow(xs, t, cs, chunkMeanDev) then 0.0 else xs[i]
      {
        BlockOf(i, t, cs);
      }
    }
    ys
  }

  /**
   A block whose window is constant is never zeroed when `chunkMeanDev` is
   not negative, since its average absolute deviation is 0.
   */
  lemma {:induction false} ConstantChunkKept(xs: seq<real>, chunkMeanDev: real, cs: nat, t: nat)
    requires ValidChunkSize(cs) && IsBlockStart(t, cs) && t < |xs|
    requires chunkMeanDev >= 0.0
    requires forall j :: t <= j < WindowEnd(|xs|, t, cs) ==> xs[j] == xs[t]
    ensures forall i :: t <= i < BlockEnd(|xs|, t, cs) ==> ChunkPass(xs, chunkMeanDev, cs)[i] == xs[i]
  {
    var w := xs[t..WindowEnd(|xs|, t, cs)];
    assert forall j :: 0 <= j < |w| ==> w[j] == w[0];
    assert !NoisyWindow(xs, t, cs, chunkMeanDev);
  }

  // ---------------------------------------------------------------------------
  // The residual and fill passes

  /** The value of the fitted line at index `t`. */
  function Predicted(f: Fit, t: nat): real
  {
    f.alpha + f.beta * (t as real)
  }

  /**
   The residual pass: entries further than `regressionDev` from the line
   become 0, the others are kept, so every surviving nonzero entry lies
   within `regressionDev` of the line.
   */
  function ResidualPass(xs: seq<real>, f: Fit, regressionDev: real): (ys: seq<real>)
    ensures |ys| == |xs|
    ensures forall t :: 0 <= t < |xs| ==> ys[t] == xs[t] || ys[t] == 0.0
    ensures forall t :: 0 <= t < |xs| && ys[t] != 0.0 ==> Abs(Predicted(f, t) - ys[t]) <= regressionDev
    ensures forall t :: 0 <= t < |xs| && Abs(Predicted(f, t) - xs[t]) > regressionDev ==> ys[t] == 0.0
    ensures forall t :: 0 <= t < |xs| && Abs(Predicted(f, t) - xs[t]) <= regressionDev ==> ys[t] == xs[t]
  {
    seq(|xs|, t requires 0 <= t < |xs| =>
      if Abs(Predicted(f, t) - xs[t]) > regressionDev then 0.0 else xs[t])
  }

  /** The fill pass: nonzero entries are kept and zeros take the value of the line. */
  function FillPass(xs: seq<real>, f: Fit): (ys: seq<real>)
    ensures FilledFromLine(xs, ys, f.alpha, f.beta)
    ensures forall t :: 0 <= t < |xs| && xs[t] != 0.0 ==> ys[t] == xs[t]
    ensures forall t :: 0 <= t < |xs| && xs[t] == 0.0 ==> ys[t] == Predicted(f, t)
  {
    seq(|xs|, t requires 0 <= t < |xs| => if xs[t] == 0.0 then Predicted(f, t) else xs[t])
  }

  // ---------------------------------------------------------------------------
  // Clean

  /**
   The inputs on which both fits of `Clean` are defined: at least two
   nonzero entries survive the chunk pass, and at least two survive the
   residual pass. With fewer the source divides by zero.
   */
  predicate CleanWellPosed(xs: seq<real>, regressionDev: real, chunkMeanDev: real, cs: int)
  {
    ValidChunkSize(cs) &&
    var c := ChunkPass(xs, chunkMeanDev, cs);
    NonzeroCount(c) >= 2 &&
    NonzeroCount(ResidualPass(c, LinearFit(c), regressionDev)) >= 2
  }

  /** The three passes in the source's order. */
  function Cleaned(xs: seq<real>, regressionDev: real, chunkMeanDev: real, cs: int): (ys: seq<real>)
    requires CleanWellPosed(xs, regressionDev, chunkMeanDev, cs)
    ensures |ys| == |xs|
  {
    var c := ChunkPass(xs, chunkMeanDev, cs);
    var r := ResidualPass(c, LinearFit(c), regressionDev);
    FillPass(r, LinearFit(r))
  }

  /**
   `Clean` as the source runs it, on a copy of the signal: the chunk loop,
   the first fit and the residual loop, the second fit and the fill loop.
   `cutoff` is accepted and never read, as in the source.
   */
  method Clean(xs: seq<real>, cutoff: real, regressionDev: real, chunkMeanDev: real, chunkSize: int)
    returns (ys: seq<real>)
    requires CleanWellPosed(xs, regressionDev, chunkMeanDev, chunkSize)
    ensures ys == Cleaned(xs, regressionDev, chunkMeanDev, chunkSize)
    ensures |ys| == |xs|
  {
    var c := ZeroNoisyChunks(xs, chunkMeanDev, chunkSize);
    var r := ZeroOutliers(c, LinearFit(c), regressionDev);
    ys := FillGaps(r, LinearFit(r));
  }

  /** The chunk loop: blocks advance by `cs` until the end is passed. */
  method ZeroNoisyChunks(xs: seq<real>, chunkMeanDev: real, cs: nat) returns (ys: seq<real>)
    requires ValidChunkSize(cs)
    ensures ys == ChunkPass(xs, chunkMeanDev, cs)
  {
    ys := xs;
    var t: nat := 0;
    while t < |ys|
      invariant |ys| == |xs|
      invariant IsBlockStart(t, cs) && t < |xs| + cs
      invariant forall i :: 0 <= i < |xs| && i < t ==> ys[i] == ChunkPass(xs, chunkMeanDev, cs)[i]
      invariant forall i :: t <= i < |xs| ==> ys[i] == xs[i]
      decreases |xs| + cs - t
    {
      var next := ZeroChunk(xs, ys, chunkMeanDev, cs, t);
      ChunkStep(xs, ys, next, chunkMeanDev, cs, t);
      ys := next;
      t := t + cs;
    }
  }

  /**
   One iteration of the chunk loop: measure the window of the block at
   `t` and zero the block when the window is noisy. The entries from `t`
   on are still the original ones, so the window is that of the input.
   */
  method ZeroChunk(xs: seq<real>, ys: seq<real>, chunkMeanDev: real, cs: nat, t: nat) returns (next: seq<real>)
    requires ValidChunkSize(cs) && t < |xs| == |ys|
    requires forall i :: t <= i < |xs| ==> ys[i] == xs[i]
    ensures |next| == |ys|
    ensures forall i :: 0 <= i < |ys| && !(t <= i < BlockEnd(|ys|, t, cs)) ==> next[i] == ys[i]
    ensures forall i :: t <= i < BlockEnd(|ys|, t, cs) ==>
      next[i] == if NoisyWindow(xs, t, cs, chunkMeanDev) then 0.0 else xs[i]
  {
    var e := WindowEnd(|ys|, t, cs);
    assert ys[t..e] == xs[t..e];
    var noisy := AvgAbsDev(ys[t..e]) > chunkMeanDev;
    next := ys;
    if noisy {
      var z := BlockEnd(|ys|, t, cs);
      next := seq(|ys|, j requires 0 <= j < |ys| => if t <= j < z then 0.0 else ys[j]);
    }
  }

  /** After the block at `t` is handled, every entry before the next block start is final. */
  lemma {:induction false} ChunkStep(xs: seq<real>, ys: seq<real>, next: seq<real>, chunkMeanDev: real, cs: nat, t: nat)
    requires ValidChunkSize(cs) && IsBlockStart(t, cs) && t < |xs| == |ys| == |next|
    requires forall i :: 0 <= i < t ==> ys[i] == ChunkPass(xs, chunkMeanDev, cs)[i]
    requires forall i :: t <= i < |xs| ==> ys[i] == xs[i]
    requires forall i :: 0 <= i < |ys| && !(t <= i < BlockEnd(|ys|, t, cs)) ==> next[i] == ys[i]
    requires forall i :: t <= i < BlockEnd(|ys|, t, cs) ==>
      next[i] == if NoisyWindow(xs, t, cs, chunkMeanDev) then 0.0 else xs[i]
    ensures IsBlockStart(t + cs, cs)
    ensures forall i :: 0 <= i < |xs| && i < t + cs ==> next[i] == ChunkPass(xs, chunkMeanDev, cs)[i]
    ensures forall i :: t + cs <= i < |xs| ==> next[i] == xs[i]
  {
    assert IsBlockStart(t + cs, cs);
  }

  /** The residual loop, zeroing in place the entries too far from the line. */
  method ZeroOutliers(xs: seq<real>, f: Fit, regressionDev: real) returns (ys: seq<real>)
    ensures ys == ResidualPass(xs, f, regressionDev)
  {
    ys := xs;
    var t := 0;
    while t < |ys|
      invariant 0 <= t <= |ys| == |xs|
      invariant forall i :: 0 <= i < t ==> ys[i] == ResidualPass(xs, f, regressionDev)[i]
      invariant forall i :: t <= i < |ys| ==> ys[i] == xs[i]
    {
      if Abs(Predicted(f, t) - ys[t]) > regressionDev {
        ys := ys[t := 0.0];
      }
      t := t + 1;
    }
  }

  /** The fill loop, writing the line's value over every zero in place. */
  method FillGaps(xs: seq<real>, f: Fit) returns (ys: seq<real>)
    ensures ys == FillPass(xs, f)
  {
    ys := xs;
    var t := 0;
    while t < |ys|
      invariant 0 <= t <= |ys| == |xs|
      invariant forall i :: 0 <= i < t ==> ys[i] == FillPass(xs, f)[i]
      invariant forall i :: t <= i < |ys| ==> ys[i] == xs[i]
    {
      if ys[t] == 0.0 {
        ys := ys[t := Predicted(f, t)];
      }
      t := t + 1;
    }
  }

  // ---------------------------------------------------------------------------
  // Properties of the cleaned signal

  /**
   The cleaned signal has the same fitted line as the second fit: the
   entries it adds lie on that line.
   */
  lemma {:induction false} CleanedKeepsFit(xs: seq<real>, regressionDev: real, chunkMeanDev: real, cs: int)
    requires CleanWellPosed(xs, regressionDev, chunkMeanDev, cs)
    ensures var c := ChunkPass(xs, chunkMeanDev, cs);
            var r := ResidualPass(c, LinearFit(c), regressionDev);
            var ys := Cleaned(xs, regressionDev, chunkMeanDev, cs);
            NonzeroCount(ys) >= 2 &&
            LinearFit(ys).alpha == LinearFit(r).alpha && LinearFit(ys).beta == LinearFit(r).beta
  {
    var c := ChunkPass(xs, chunkMeanDev, cs);
    var r := ResidualPass(c, LinearFit(c), regressionDev);
    FillKeepsFit(r, FillPass(r, LinearFit(r)));
  }

  /** Zeroing entries keeps every remaining nonzero entry on the line. */
  lemma {:induction false} OnLineAfterZeroing(xs: seq<real>, ys: seq<real>, a: real, b: real)
    requires |ys| == |xs| && OnLine(xs, a, b)
    requires forall t :: 0 <= t < |xs| ==> ys[t] == xs[t] || ys[t] == 0.0
    ensures OnLine(ys, a, b)
  {
    forall t | 0 <= t < |ys| && ys[t] != 0.0
      ensures ys[t] == a + b * (t as real)
    {
      assert ys[t] == xs[t];
    }
  }

  /** The `n` values of the line `a + b * t`. */
  function LineValues(n: nat, a: real, b: real): (ys: seq<real>)
    ensures |ys| == n
  {
    seq(n, t requires 0 <= t < n => a + b * (t as real))
  }

  /** The residual pass removes nothing from a signal on the fitted line. */
  lemma {:induction false} ResidualKeepsLine(xs: seq<real>, f: Fit, regressionDev: real)
    requires OnLine(xs, f.alpha, f.beta) && regressionDev >= 0.0
    ensures ResidualPass(xs, f, regressionDev) == xs
  {
    var r := ResidualPass(xs, f, regressionDev);
    forall t | 0 <= t < |xs|
      ensures r[t] == xs[t]
    {
      if xs[t] != 0.0 {
        assert Predicted(f, t) - xs[t] == 0.0;
      }
    }
  }

  /** The fill pass completes a signal on the fitted line into the whole line. */
  lemma {:induction false} FillCompletesLine(xs: seq<real>, f: Fit)
    requires OnLine(xs, f.alpha, f.beta)
    ensures FillPass(xs, f) == LineValues(|xs|, f.alpha, f.beta)
  {
    var ys := FillPass(xs, f);
    var line := LineValues(|xs|, f.alpha, f.beta);
    forall t | 0 <= t < |xs|
      ensures ys[t] == line[t]
    {
    }
  }

  /**
   A signal whose nonzero entries lie on a line is cleaned into that line
   exactly, whatever the chunk pass removes, as long as two nonzero entries
   survive it and `regressionDev` is not negative: the residual pass removes
   nothing more and the fill pass completes the line.
   */
  lemma {:induction false} CleanRecoversLine(xs: seq<real>, a: real, b: real, regressionDev: real, chunkMeanDev: real, cs: int)
    requires ValidChunkSize(cs) && regressionDev >= 0.0
    requires OnLine(xs, a, b)
    requires NonzeroCount(ChunkPass(xs, chunkMeanDev, cs)) >= 2
    ensures CleanWellPosed(xs, regressionDev, chunkMeanDev, cs)
    ensures Cleaned(xs, regressionDev, chunkMeanDev, cs) == LineValues(|xs|, a, b)
  {
    var c := ChunkPass(xs, chunkMeanDev, cs);
    OnLineAfterZeroing(xs, c, a, b);
    ExactLineFit(c, a, b);
    var f := LinearFit(c);
    ResidualKeepsLine(c, f, regressionDev);
    assert ResidualPass(c, f, regressionDev) == c;
    assert CleanWellPosed(xs, regressionDev, chunkMeanDev, cs);
    FillCompletesLine(c, f);
    assert Cleaned(xs, regressionDev, chunkMeanDev, cs) == FillPass(c, f);
  }

  /**
   Cleaning is the identity on a signal with no zero entry that lies on a
   line, as long as the chunk pass keeps two of its entries.
   */
  lemma {:induction false} CleanFixedPoint(xs: seq<real>, a: real, b: real, regressionDev: real, chunkMeanDev: real, cs: int)
    requires ValidChunkSize(cs) && regressionDev >= 0.0
    requires forall t :: 0 <= t < |xs| ==> xs[t] != 0.0 && xs[t] == a + b * (t as real)
    requires NonzeroCount(ChunkPass(xs, chunkMeanDev, cs)) >= 2
    ensures CleanWellPosed(xs, regressionDev, chunkMeanDev, cs)
    ensures Cleaned(xs, regressionDev, chunkMeanDev, cs) == xs
  {
    LineWithoutZeros(xs, a, b);
    CleanRecoversLine(xs, a, b, regressionDev, chunkMeanDev, cs);
  }

  lemma {:induction false} LineWithoutZeros(xs: seq<real>, a: real, b: real)
    requires forall t :: 0 <= t < |xs| ==> xs[t] != 0.0 && xs[t] == a + b * (t as real)
    ensures OnLine(xs, a, b)
    ensures LineValues(|xs|, a, b) == xs
  {
    var line := LineValues(|xs|, a, b);
    forall t | 0 <= t < |xs|
      ensures line[t] == xs[t]
    {
    }
  }
}
