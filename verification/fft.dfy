/** The iterative radix-2 transforms and the window of
    lib/au-file-processing/include/fourier_transforms/fft.h, for a buffer of DIM = 2^m
    points over any ring of coefficients. Each stage has a pointwise reference
    definition; the methods follow the loops of the source and are proved to compute it. */
module Fft {
  import opened Powers
  import opened Rings
  import opened BitReverse
  import opened ComplexRing

  /** Blocks of L points tiling L Q points: the block holding p ends inside. */
  lemma BlockArith(p: nat, L: nat, Q: nat)
    requires L > 0 && p < L * Q
    ensures p % L <= p && p % L < L
    ensures p - p % L + L <= L * Q
    ensures (p / L) * L == p - p % L
  {
    var b := p / L;
    DivMod(p, L);
    if b >= Q {
      MulLe(L, Q, b);
      assert false;
    }
    MulStep(L, b, Q);
  }

  /** Where position p sits among the blocks of 2^s points that tile 2^m points. */
  lemma BlockPosition(p: nat, s: nat, m: nat)
    requires s <= m && p < Pow2(m)
    ensures p % Pow2(s) <= p && p % Pow2(s) < Pow2(s)
    ensures p - p % Pow2(s) + Pow2(s) <= Pow2(m)
    ensures (p / Pow2(s)) * Pow2(s) == p - p % Pow2(s)
  {
    Pow2Add(s, m - s);
    BlockArith(p, Pow2(s), Pow2(m - s));
  }

  /** A block that starts inside the buffer ends inside it. */
  lemma BlockEnd(b: nat, s: nat, m: nat)
    requires s <= m && b * Pow2(s) < Pow2(m)
    ensures b * Pow2(s) + Pow2(s) <= Pow2(m)
  {
    var L := Pow2(s);
    DivModUnique(b * L, L, b, 0);
    BlockPosition(b * L, s, m);
  }

  /** A twiddle index j 2^(m-s) with j below half a block of 2^s stays below DIM / 2. */
  lemma TwiddleBound(j: nat, s: nat, m: nat)
    requires 1 <= s <= m && j < Pow2(s - 1)
    ensures j * Pow2(m - s) < Pow2(m) / 2
  {
    Pow2Add(s - 1, m - s);
    Pow2Half(m);
    MulStep(Pow2(m - s), j, Pow2(s - 1));
  }

  // ---------------------------------------------------------------------------------
  // Decimation in time (lines 84-106)

  /** Entry p after DIT stage s (s >= 1): the butterfly of the block of 2^s points
      holding p pairs offset o < 2^(s-1) with o + 2^(s-1), twiddled by
      tf[o 2^(m-s)]. */
  function DitPoint<T>(R: Ops<T>, x: seq<T>, tf: seq<T>, m: nat, s: nat, p: nat): T
    requires 1 <= s <= m && |x| == Pow2(m) && |tf| == Pow2(m) / 2 && p < |x|
  {
    var L, H := Pow2(s), Pow2(s - 1);
    var o := p % L;
    BlockPosition(p, s, m);
    if o < H then
      TwiddleBound(o, s, m);
      R.add(x[p], R.mul(x[p + H], tf[o * Pow2(m - s)]))
    else
      TwiddleBound(o - H, s, m);
      R.sub(x[p - H], R.mul(x[p], tf[(o - H) * Pow2(m - s)]))
  }

  function DitStageOut<T>(R: Ops<T>, x: seq<T>, tf: seq<T>, m: nat, s: nat): (r: seq<T>)
    requires 1 <= s <= m && |x| == Pow2(m) && |tf| == Pow2(m) / 2
    ensures |r| == |x|
  {
    seq(|x|, p requires 0 <= p < |x| => DitPoint(R, x, tf, m, s, p))
  }

  /** Stages 1 to s applied in order. */
  function DitStages<T>(R: Ops<T>, y: seq<T>, tf: seq<T>, m: nat, s: nat): (r: seq<T>)
    requires s <= m && |y| == Pow2(m) && |tf| == Pow2(m) / 2
    ensures |r| == |y|
  {
    if s == 0 then y else DitStageOut(R, DitStages(R, y, tf, m, s - 1), tf, m, s)
  }

  /** The whole transform: bit-reversal reorder, then every stage. */
  function Dit<T>(R: Ops<T>, x: seq<T>, tf: seq<T>, m: nat): (r: seq<T>)
    requires |x| == Pow2(m) && |tf| == Pow2(m) / 2
    ensures |r| == |x|
  {
    DitStages(R, Permuted(x, m), tf, m, m)
  }

  /** The butterfly of block blk at offset j of DIT stage s: which two entries it
      reads, which twiddle, and the two entries of the stage's result it produces. */
  lemma DitButterfly<T>(R: Ops<T>, x: seq<T>, tf: seq<T>, m: nat, s: nat, blk: nat, k: nat, H: nat, j: nat, t: nat)
    requires 1 <= s <= m && |x| == Pow2(m) && |tf| == Pow2(m) / 2
    requires k == blk * Pow2(s) < Pow2(m) && H == Pow2(s - 1) && j < H && t == j * Pow2(m - s)
    ensures k + j + H < Pow2(m) && t < |tf|
    ensures DitStageOut(R, x, tf, m, s)[k + j] == R.add(x[k + j], R.mul(x[k + j + H], tf[t]))
    ensures DitStageOut(R, x, tf, m, s)[k + j + H] == R.sub(x[k + j], R.mul(x[k + j + H], tf[t]))
  {
    var L := Pow2(s);
    BlockEnd(blk, s, m);
    TwiddleBound(j, s, m);
    DivModUnique(k + j, L, blk, j);
    DivModUnique(k + j + H, L, blk, j + H);
  }

  /** The inner loop of lines 96-102: the butterflies of the block of currentSize =
      2^stage points starting at k. The entries before k already hold the stage's result
      (target), the rest still hold the input x; afterwards the block holds the result too. */
  method DitBlock<T>(R: Ops<T>, x: seq<T>, tf: seq<T>, m: nat, stage: nat, ghost target: seq<T>, ghost blk: nat,
                     k: nat, halfSize: nat, step: nat, y: seq<T>) returns (z: seq<T>)
    requires |x| == Pow2(m) && |tf| == Pow2(m) / 2 && stage <= m && step == m - stage
    requires k == blk * Pow2(stage) < |x|
    requires stage == 0 ==> target == x && halfSize == 0
    requires stage > 0 ==> target == DitStageOut(R, x, tf, m, stage) && halfSize == Pow2(stage - 1)
    requires |y| == |x| && forall p :: 0 <= p < |x| ==> y[p] == (if p < k then target[p] else x[p])
    ensures |z| == |x| && forall p :: 0 <= p < |x| ==> z[p] == (if p < k + Pow2(stage) then target[p] else x[p])
  {
    BlockEnd(blk, stage, m);
    assert stage > 0 ==> Pow2(stage) == halfSize + halfSize by {
      if stage > 0 { Pow2Half(stage); }
    }
    z := y;
    var j := 0;
    while j < halfSize
      invariant j <= halfSize && |z| == |x|
      invariant forall p :: 0 <= p < |x| ==>
        z[p] == (if p < k + j || k + halfSize <= p < k + halfSize + j then target[p] else x[p])
    {
      DitButterfly(R, x, tf, m, stage, blk, k, halfSize, j, j * Pow2(step));
      var u := z[k + j];
      var v := R.mul(z[k + j + halfSize], tf[j * Pow2(step)]);
      z := z[k + j := R.add(u, v)][k + j + halfSize := R.sub(u, v)];
      j := j + 1;
    }
  }

  /** One pass of the stage loop, lines 93-103: butterflies over blocks of
      currentSize = 2^stage. Stage 0 has halfSize 0 and changes nothing. */
  method DitStage<T>(R: Ops<T>, x: seq<T>, tf: seq<T>, m: nat, stage: nat) returns (y: seq<T>)
    requires |x| == Pow2(m) && |tf| == Pow2(m) / 2 && stage <= m
    ensures stage == 0 ==> y == x
    ensures stage > 0 ==> y == DitStageOut(R, x, tf, m, stage)
  {
    var problemSize := |x|;
    var currentSize := Pow2(stage);
    var step: nat := m - stage;
    var halfSize := currentSize / 2;
    ghost var target := if stage == 0 then x else DitStageOut(R, x, tf, m, stage);
    assert stage > 0 ==> halfSize == Pow2(stage - 1) by {
      if stage > 0 { Pow2Half(stage); }
    }
    y := x;
    var k := 0;
    ghost var blk := 0;
    while k < problemSize
      invariant k == blk * currentSize <= problemSize == |y|
      invariant forall p :: 0 <= p < problemSize ==> y[p] == (if p < k then target[p] else x[p])
    {
      y := DitBlock(R, x, tf, m, stage, target, blk, k, halfSize, step, y);
      BlockEnd(blk, stage, m);
      MulSucc(blk, currentSize);
      k := k + currentSize;
      blk := blk + 1;
    }
  }

  /** One pass of the stage loop after stages 1 to done, where done is stage - 1 or,
      for the pass of stage 0, none: afterwards stages 1 to stage are done. */
  method DitNextStage<T>(R: Ops<T>, ghost start: seq<T>, tf: seq<T>, m: nat, stage: nat, ghost done: nat, y: seq<T>)
    returns (z: seq<T>)
    requires stage <= m && |start| == Pow2(m) && |tf| == Pow2(m) / 2
    requires done == (if stage == 0 then 0 else stage - 1) && y == DitStages(R, start, tf, m, done)
    ensures z == DitStages(R, start, tf, m, stage)
  {
    z := DitStage(R, y, tf, m, stage);
  }

  /** Lines 85-106: reorder, then the stage loop of lines 92-104 for stage 0 to m;
      stage 0 has currentSize 1 and changes nothing. */
  method IterativeDit<T>(R: Ops<T>, x: seq<T>, tf: seq<T>, m: nat) returns (y: seq<T>)
    requires |x| == Pow2(m) && |tf| == Pow2(m) / 2
    ensures y == Dit(R, x, tf, m)
  {
    y := BitReverseReorder(x, m);
    ghost var start := y;
    var stages := m;
    var stage := 0;
    ghost var done: nat := 0;
    while stage <= stages
      invariant stage <= stages + 1 && done == (if stage == 0 then 0 else stage - 1)
      invariant y == DitStages(R, start, tf, m, done)
    {
      y := DitNextStage(R, start, tf, m, stage, done, y);
      done := stage;
      stage := stage + 1;
    }
    assert done == m;
  }


  // ---------------------------------------------------------------------------------
  // Decimation in frequency (lines 149-170)

  /** Entry p after DIF stage q (q < m), where the buffer is 2^q problems of 2^(m-q)
      points: the first half of a problem takes sums, the second half twiddled
      differences, with twiddle index (offset in the half) times 2^q. */
  function DifPoint<T>(R: Ops<T>, x: seq<T>, tf: seq<T>, m: nat, q: nat, p: nat): T
    requires q < m && |x| == Pow2(m) && |tf| == Pow2(m) / 2 && p < |x|
  {
    var P, H := Pow2(m - q), Pow2(m - q - 1);
    var o := p % P;
    BlockPosition(p, m - q, m);
    if o < H then
      R.add(x[p], x[p + H])
    else
      TwiddleBound(o - H, m - q, m);
      assert m - (m - q) == q;
      R.mul(tf[(o - H) * Pow2(q)], R.sub(x[p - H], x[p]))
  }

  function DifStageOut<T>(R: Ops<T>, x: seq<T>, tf: seq<T>, m: nat, q: nat): (r: seq<T>)
    requires q < m && |x| == Pow2(m) && |tf| == Pow2(m) / 2
    ensures |r| == |x|
  {
    seq(|x|, p requires 0 <= p < |x| => DifPoint(R, x, tf, m, q, p))
  }

  /** Stages 0 to q - 1 applied in order. */
  function DifStages<T>(R: Ops<T>, x: seq<T>, tf: seq<T>, m: nat, q: nat): (r: seq<T>)
    requires q <= m && |x| == Pow2(m) && |tf| == Pow2(m) / 2
    ensures |r| == |x|
  {
    if q == 0 then x else DifStageOut(R, DifStages(R, x, tf, m, q - 1), tf, m, q - 1)
  }

  /** The whole transform: every stage, then the bit-reversal reorder. */
  function Dif<T>(R: Ops<T>, x: seq<T>, tf: seq<T>, m: nat): (r: seq<T>)
    requires |x| == Pow2(m) && |tf| == Pow2(m) / 2
    ensures |r| == |x|
  {
    Permuted(DifStages(R, x, tf, m, m), m)
  }

  /** Where the butterfly of problem k at offset i of DIF stage q sits: both entries in
      the buffer, at offsets i and i + H of their problem, and its twiddle in the table. */
  lemma DifIndices(m: nat, q: nat, k: nat, first: nat, H: nat, i: nat, t: nat)
    requires q < m && k < Pow2(q) && first == k * Pow2(m - q) && H == Pow2(m - q - 1) && i < H && t == i * Pow2(q)
    ensures first + i + H < Pow2(m) && t < Pow2(m) / 2 && Pow2(m - q) == 2 * H
    ensures (first + i) % Pow2(m - q) == i && (first + i + H) % Pow2(m - q) == i + H
  {
    var P, Q := Pow2(m - q), Pow2(q);
    assert P == 2 * H by { Pow2Half(m - q); }
    assert first == P * k by { NatMulCommutes(k, P); }
    assert first + P <= Pow2(m) by {
      Pow2Split(q, m);
      MulStep(P, k, Q);
    }
    assert t < Pow2(m) / 2 by {
      TwiddleBound(i, m - q, m);
      assert m - (m - q) == q;
    }
    DivModUnique(first + i, P, k, i);
    DivModUnique(first + i + H, P, k, i + H);
  }

  /** The butterfly of problem k at offset i of DIF stage q: which two entries it reads,
      which twiddle, and the two entries of the stage's result it produces. */
  lemma DifButterfly<T>(R: Ops<T>, x: seq<T>, tf: seq<T>, m: nat, q: nat, k: nat, first: nat, H: nat, i: nat, t: nat)
    requires q < m && |x| == Pow2(m) && |tf| == Pow2(m) / 2
    requires k < Pow2(q) && first == k * Pow2(m - q) && H == Pow2(m - q - 1) && i < H && t == i * Pow2(q)
    ensures first + i + H < Pow2(m) && t < |tf|
    ensures DifStageOut(R, x, tf, m, q)[first + i] == R.add(x[first + i], x[first + i + H])
    ensures DifStageOut(R, x, tf, m, q)[first + i + H] == R.mul(tf[t], R.sub(x[first + i], x[first + i + H]))
  {
    DifIndices(m, q, k, first, H, i, t);
    assert m - (m - q) == q;
  }

  /** The inner loop of lines 157-163: the butterflies of problem k, whose entries start
      at k problemSize, with the twiddle index stepping by numOfProblem. The entries of the
      earlier problems already hold the stage's result, the rest still hold the input x. */
  method DifProblem<T>(R: Ops<T>, x: seq<T>, tf: seq<T>, m: nat, ghost q: nat, numOfProblem: nat, problemSize: nat,
                       k: nat, y: seq<T>) returns (z: seq<T>)
    requires |x| == Pow2(m) && |tf| == Pow2(m) / 2 && q < m
    requires numOfProblem == Pow2(q) && problemSize == Pow2(m - q) && k < numOfProblem
    requires |y| == |x| && forall p :: 0 <= p < |x| ==>
      y[p] == (if p < k * problemSize then DifStageOut(R, x, tf, m, q)[p] else x[p])
    ensures |z| == |x| && forall p :: 0 <= p < |x| ==>
      z[p] == (if p < (k + 1) * problemSize then DifStageOut(R, x, tf, m, q)[p] else x[p])
  {
    ghost var target := DifStageOut(R, x, tf, m, q);
    var halfSize := problemSize / 2;
    assert problemSize == 2 * halfSize && halfSize == Pow2(m - q - 1) by { Pow2Half(m - q); }
    var jFirst, jLast, jTwiddle := k * problemSize, k * problemSize + halfSize - 1, 0;
    z := y;
    var j := jFirst;
    ghost var i: nat := 0;
    while j <= jLast
      invariant i <= halfSize && j == jFirst + i && |z| == |x|
      invariant jTwiddle == i * numOfProblem
      invariant forall p :: 0 <= p < |x| ==>
        z[p] == (if p < j || jFirst + halfSize <= p < j + halfSize then target[p] else x[p])
    {
      DifButterfly(R, x, tf, m, q, k, jFirst, halfSize, i, jTwiddle);
      var W := tf[jTwiddle];
      var temp := z[j];
      z := z[j := R.add(temp, z[j + halfSize])][j + halfSize := R.mul(W, R.sub(temp, z[j + halfSize]))];
      MulSucc(i, numOfProblem);
      jTwiddle := jTwiddle + numOfProblem;
      j := j + 1;
      i := i + 1;
    }
    MulSucc(k, problemSize);
  }

  /** One pass of the while loop, lines 155-165, with numOfProblem = 2^q problems of
      problemSize = 2^(m-q) points. */
  method DifStage<T>(R: Ops<T>, x: seq<T>, tf: seq<T>, m: nat, ghost q: nat, numOfProblem: nat, problemSize: nat)
    returns (y: seq<T>)
    requires |x| == Pow2(m) && |tf| == Pow2(m) / 2 && q < m
    requires numOfProblem == Pow2(q) && problemSize == Pow2(m - q)
    ensures y == DifStageOut(R, x, tf, m, q)
  {
    ghost var target := DifStageOut(R, x, tf, m, q);
    y := x;
    var k := 0;
    while k < numOfProblem
      invariant k <= numOfProblem && |y| == |x|
      invariant forall p :: 0 <= p < |x| ==> y[p] == (if p < k * problemSize then target[p] else x[p])
    {
      y := DifProblem(R, x, tf, m, q, numOfProblem, problemSize, k, y);
      k := k + 1;
    }
    Pow2Add(q, m - q);
    assert k * problemSize == |x|;
  }

  /** Lines 150-170: halve the problem size until it is 1, then reorder. */
  method IterativeDif<T>(R: Ops<T>, x: seq<T>, tf: seq<T>, m: nat) returns (y: seq<T>)
    requires |x| == Pow2(m) && |tf| == Pow2(m) / 2
    ensures y == Dif(R, x, tf, m)
  {
    var problemSize, numOfProblem := |x|, 1;
    ghost var q := 0;
    y := x;
    while problemSize > 1
      invariant q <= m && problemSize == Pow2(m - q) && numOfProblem == Pow2(q)
      invariant y == DifStages(R, x, tf, m, q)
    {
      var halfSize := problemSize / 2;
      y := DifStage(R, y, tf, m, q, numOfProblem, problemSize);
      Pow2Half(m - q);
      numOfProblem := numOfProblem * 2;
      problemSize := halfSize;
      q := q + 1;
    }
    y := BitReverseReorder(y, m);
  }

  // ---------------------------------------------------------------------------------
  // Windowing (lines 188-197)

  /** Each sample scaled by the window coefficient at its index. */
  function Windowed(w: seq<real>, s: seq<Complex>): (r: seq<Complex>)
    requires |s| <= |w|
  {
    seq(|s|, i requires 0 <= i < |s| => Scale(w[i], s[i]))
  }

  /** Lines 188-197: the transform's lambda walks the buffer with a running index into
      the window; the window is a fixed array of DIM coefficients, so the buffer may not
      be longer. */
  method Windowing(w: seq<real>, s: seq<Complex>) returns (r: seq<Complex>)
    requires |s| <= |w|
    ensures |r| == |s|
    ensures forall i :: 0 <= i < |s| ==> r[i] == Scale(w[i], s[i])
    ensures r == Windowed(w, s)
  {
    r := [];
    var index := 0;
    while index < |s|
      invariant index <= |s| && |r| == index
      invariant forall i :: 0 <= i < index ==> r[i] == Scale(w[i], s[i])
    {
      r := r + [Scale(w[index], s[index])];
      index := index + 1;
    }
  }

  /** Windowing is undone by the reciprocal window wherever no coefficient is zero. */
  lemma WindowedRoundTrip(w: seq<real>, inv: seq<real>, s: seq<Complex>)
    requires |s| <= |w| && |s| <= |inv|
    requires forall i :: 0 <= i < |s| ==> w[i] != 0.0 && inv[i] == 1.0 / w[i]
    ensures Windowed(inv, Windowed(w, s)) == s
  {
    var r := Windowed(inv, Windowed(w, s));
    forall i | 0 <= i < |s|
      ensures r[i] == s[i]
    {
      assert inv[i] * (w[i] * s[i].re) == (inv[i] * w[i]) * s[i].re;
      assert inv[i] * (w[i] * s[i].im) == (inv[i] * w[i]) * s[i].im;
    }
  }
}
