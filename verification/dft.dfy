/** The discrete Fourier transform, and the theorem that the iterative
    decimation-in-time transform of fft.h computes it when the twiddle table holds the
    powers w^k of a root w with w^(DIM/2) = -1 (for the source's table, w is
    exp(-2 pi i / DIM), lines 14-18). */
module Dft {
  import opened Powers
  import opened Rings
  import opened BitReverse
  import opened Fft

  /** The strided indices c, c + d, ..., c + (L-1) d all lie below n. */
  predicate Fits(c: nat, d: nat, L: nat, n: nat)
    decreases L
  {
    L == 0 || (c < n && Fits(c + d, d, L - 1, n))
  }

  lemma {:induction false} FitsBound(c: nat, d: nat, L: nat, n: nat)
    requires L == 0 || c + (L - 1) * d < n
    ensures Fits(c, d, L, n)
    decreases L
  {
    if L > 1 {
      assert (c + d) + (L - 2) * d == c + (L - 1) * d;
      FitsBound(c + d, d, L - 1, n);
    }
  }

  /** The polynomial with coefficients x[c], x[c + d], ..., x[c + (L-1) d], evaluated at z
      by Horner's rule: x[c] + z (x[c + d] + z (...)). */
  function Eval<T>(R: Ops<T>, x: seq<T>, c: nat, d: nat, z: T, L: nat): T
    requires Fits(c, d, L, |x|)
    decreases L
  {
    if L == 0 then R.zero else R.add(x[c], R.mul(z, Eval(R, x, c + d, d, z, L - 1)))
  }

  /** The discrete Fourier transform X[t] = sum over r < DIM of x[r] (w^t)^r: the
      polynomial with coefficients x evaluated at the powers of w. */
  function Transform<T>(R: Ops<T>, x: seq<T>, w: T, m: nat): (r: seq<T>)
    requires |x| == Pow2(m)
    ensures |r| == |x|
  {
    FitsBound(0, 1, |x|, |x|);
    seq(|x|, t requires 0 <= t < |x| => Eval(R, x, 0, 1, Pow(R, w, t), |x|))
  }

  /** Entry k of the twiddle table, if there is one, is w^k. */
  ghost predicate TwiddleAt<T>(R: Ops<T>, tf: seq<T>, w: T, k: nat)
  {
    k < |tf| ==> tf[k] == Pow(R, w, k)
  }

  /** The twiddle table holds w^k at every index k. (Stated through TwiddleAt so that
      only the entries a proof names are expanded.) */
  ghost predicate IsTwiddleTable<T>(R: Ops<T>, tf: seq<T>, w: T)
  {
    forall k: nat :: TwiddleAt(R, tf, w, k)
  }

  // ---------------------------------------------------------------------------------
  // The even/odd split

  /** a + z (b + z (E + z O)) = (a + z^2 E) + z (b + z^2 O). */
  lemma HornerRegroup<T(!new)>(R: Ops<T>, a: T, b: T, E: T, O: T, z: T)
    requires IsCommRing(R)
    ensures var zz := R.mul(z, z);
      R.add(a, R.mul(z, R.add(b, R.mul(z, R.add(E, R.mul(z, O))))))
      == R.add(R.add(a, R.mul(zz, E)), R.mul(z, R.add(b, R.mul(zz, O))))
  {
    var zz := R.mul(z, z);
    var Q := R.mul(z, R.mul(zz, O));
    calc {
      R.mul(z, R.add(E, R.mul(z, O)));
      == { MulAdd(R, z, E, R.mul(z, O)); }
      R.add(R.mul(z, E), R.mul(z, R.mul(z, O)));
      == { MulAssoc(R, z, z, O); }
      R.add(R.mul(z, E), R.mul(zz, O));
    }
    calc {
      R.mul(z, R.add(b, R.add(R.mul(z, E), R.mul(zz, O))));
      == { MulAdd(R, z, b, R.add(R.mul(z, E), R.mul(zz, O))); }
      R.add(R.mul(z, b), R.mul(z, R.add(R.mul(z, E), R.mul(zz, O))));
      == { MulAdd(R, z, R.mul(z, E), R.mul(zz, O)); }
      R.add(R.mul(z, b), R.add(R.mul(z, R.mul(z, E)), Q));
      == { MulAssoc(R, z, z, E); }
      R.add(R.mul(z, b), R.add(R.mul(zz, E), Q));
    }
    MulAdd(R, z, b, R.mul(zz, O));
    calc {
      R.add(R.add(a, R.mul(zz, E)), R.add(R.mul(z, b), Q));
      == { AddSwapMiddle(R, a, R.mul(zz, E), R.mul(z, b), Q); }
      R.add(R.add(a, R.mul(z, b)), R.add(R.mul(zz, E), Q));
      == { AddAssoc(R, a, R.mul(z, b), R.add(R.mul(zz, E), Q)); }
      R.add(a, R.add(R.mul(z, b), R.add(R.mul(zz, E), Q)));
    }
  }

  /** A polynomial of degree below 2L is its even part at z^2 plus z times its odd part
      at z^2: the split behind every radix-2 butterfly. */
  lemma {:induction false} EvalSplit<T(!new)>(R: Ops<T>, x: seq<T>, c: nat, d: nat, z: T, L: nat)
    requires IsCommRing(R) && Fits(c, d, 2 * L, |x|)
    ensures Fits(c, 2 * d, L, |x|) && Fits(c + d, 2 * d, L, |x|)
    ensures Eval(R, x, c, d, z, 2 * L)
         == R.add(Eval(R, x, c, 2 * d, R.mul(z, z), L), R.mul(z, Eval(R, x, c + d, 2 * d, R.mul(z, z), L)))
    decreases L
  {
    if L == 0 {
      MulZero(R, z);
      AddZero(R, R.zero);
    } else {
      var zz, c1, c2, c3, d2, L1 := R.mul(z, z), c + d, c + 2 * d, c + 3 * d, 2 * d, L - 1;
      assert Fits(c1, d, 2 * L1 + 1, |x|) && Fits(c2, d, 2 * L1, |x|);
      EvalSplit(R, x, c2, d, z, L1);
      var E, O := Eval(R, x, c2, d2, zz, L1), Eval(R, x, c3, d2, zz, L1);
      assert Eval(R, x, c1, d, z, 2 * L1 + 1) == R.add(x[c1], R.mul(z, Eval(R, x, c2, d, z, 2 * L1)));
      assert Eval(R, x, c, d2, zz, L) == R.add(x[c], R.mul(zz, E));
      assert Eval(R, x, c1, d2, zz, L) == R.add(x[c1], R.mul(zz, O));
      HornerRegroup(R, x[c], x[c1], E, O, z);
    }
  }

  lemma NegNeg<T(!new)>(R: Ops<T>, a: T)
    requires IsCommRing(R)
    ensures R.neg(R.neg(a)) == a
  {
    AddNeg(R, a);
    AddComm(R, a, R.neg(a));
    NegUnique(R, R.neg(a), a);
  }

  /** If w^h = -1 then w^(2h) = 1 and w^(a+h) = -w^a. */
  lemma HalfTurn<T(!new)>(R: Ops<T>, w: T, h: nat, a: nat)
    requires IsCommRing(R) && Pow(R, w, h) == R.neg(R.one)
    ensures Pow(R, w, 2 * h) == R.one
    ensures Pow(R, w, a + h) == R.neg(Pow(R, w, a))
  {
    var m1 := R.neg(R.one);
    PowAdd(R, w, h, h);
    calc {
      R.mul(m1, m1);
      == { MulNeg(R, R.one, m1); }
      R.neg(R.mul(R.one, m1));
      == { MulOne(R, m1); }
      R.neg(m1);
      == { NegNeg(R, R.one); }
      R.one;
    }
    PowAdd(R, w, a, h);
    calc {
      R.mul(Pow(R, w, a), m1);
      == { MulComm(R, Pow(R, w, a), m1); }
      R.mul(m1, Pow(R, w, a));
      == { MulNeg(R, R.one, Pow(R, w, a)); }
      R.neg(R.mul(R.one, Pow(R, w, a)));
      == { MulOne(R, Pow(R, w, a)); }
      R.neg(Pow(R, w, a));
    }
  }

  /** c + (2^s - 1) 2^(m-s) < 2^m for every c < 2^(m-s). */
  lemma StridedFits(c: nat, s: nat, m: nat)
    requires s <= m && c < Pow2(m - s)
    ensures Fits(c, Pow2(m - s), Pow2(s), Pow2(m))
  {
    var L, D := Pow2(s), Pow2(m - s);
    Pow2Add(s, m - s);
    MulSucc(L - 1, D);
    FitsBound(c, D, L, Pow2(m));
  }

  /** (-a)(-a) = a a. */
  lemma NegSquare<T(!new)>(R: Ops<T>, a: T)
    requires IsCommRing(R)
    ensures R.mul(R.neg(a), R.neg(a)) == R.mul(a, a)
  {
    calc {
      R.mul(R.neg(a), R.neg(a));
      == { MulNeg(R, a, R.neg(a)); }
      R.neg(R.mul(a, R.neg(a)));
      == { MulComm(R, a, R.neg(a)); MulNeg(R, a, a); }
      R.neg(R.neg(R.mul(a, a)));
      == { NegNeg(R, R.mul(a, a)); }
      R.mul(a, a);
    }
  }

  /** Adding a negated product is subtracting the product. */
  lemma AddNegMul<T(!new)>(R: Ops<T>, a: T, b: T, c: T)
    requires IsCommRing(R)
    ensures R.add(a, R.mul(R.neg(b), c)) == R.sub(a, R.mul(b, c))
  {
    MulNeg(R, b, c);
    SubDef(R, a, R.mul(b, c));
  }

  // ---------------------------------------------------------------------------------
  // The radix-2 recursion the stages unroll

  /** What the first s DIT stages leave at offset t of block b (blocks of 2^s entries):
      for s = 0 the bit-reversed sample, otherwise the butterfly of offset t mod 2^(s-1)
      of the block's two halves, with the twiddle the stage loop reads from the table. */
  function Butterflies<T>(R: Ops<T>, x: seq<T>, tf: seq<T>, m: nat, s: nat, b: nat, t: nat): T
    requires s <= m && |x| == Pow2(m) && |tf| == Pow2(m) / 2 && t < Pow2(s)
    decreases s
  {
    if s == 0 then
      RevBound(b, m);
      x[Rev(b, m)]
    else
      var H := Pow2(s - 1);
      var u := if t < H then t else t - H;
      TwiddleBound(u, s, m);
      var E, O, W := Butterflies(R, x, tf, m, s - 1, 2 * b, u), Butterflies(R, x, tf, m, s - 1, 2 * b + 1, u), tf[u * Pow2(m - s)];
      if t < H then R.add(E, R.mul(O, W)) else R.sub(E, R.mul(O, W))
  }

  /** The buffer the recursion describes after s stages: entry p = b 2^s + t holds
      Butterflies(s, b, t). */
  function State<T>(R: Ops<T>, x: seq<T>, tf: seq<T>, m: nat, s: nat): (r: seq<T>)
    requires s <= m && |x| == Pow2(m) && |tf| == Pow2(m) / 2
    ensures |r| == |x|
  {
    seq(|x|, p requires 0 <= p < |x| => Butterflies(R, x, tf, m, s, p / Pow2(s), p % Pow2(s)))
  }

  /** Where entry p and its butterfly partner sit, in blocks of 2^s and of 2^(s-1). */
  lemma StepIndices(m: nat, s: nat, p: nat) returns (b: nat, o: nat, H: nat, L: nat)
    requires 1 <= s <= m && p < Pow2(m)
    ensures L == Pow2(s) && H == Pow2(s - 1) && L == 2 * H && H > 0
    ensures b == p / L && o == p % L && o < L && p - o + L <= Pow2(m)
  {
    L, H := Pow2(s), Pow2(s - 1);
    Pow2Half(s);
    DivMod(p, L);
    b, o := p / L, p % L;
    BlockPosition(p, s, m);
  }

  /** A DIT butterfly output in the first half of its block is the recursion's sum. */
  lemma StepLow<T>(R: Ops<T>, x: seq<T>, tf: seq<T>, m: nat, s: nat, p: nat)
    requires 1 <= s <= m && |x| == Pow2(m) && |tf| == Pow2(m) / 2 && p < |x|
    requires p % Pow2(s) < Pow2(s - 1)
    ensures DitPoint(R, State(R, x, tf, m, s - 1), tf, m, s, p) == State(R, x, tf, m, s)[p]
  {
    var b, o, H, L := StepIndices(m, s, p);
    LowHalf(p, L, H, b, o);
    var y := State(R, x, tf, m, s - 1);
    StateAt(R, x, tf, m, s - 1, p, 2 * b, o);
    StateAt(R, x, tf, m, s - 1, p + H, 2 * b + 1, o);
    StateAt(R, x, tf, m, s, p, b, o);
    DitLow(R, y, tf, m, s, p, H, o);
    ButterflyLow(R, x, tf, m, s, b, o, H);
  }

  /** A DIT butterfly output in the second half of its block is the recursion's
      difference. */
  lemma StepHigh<T>(R: Ops<T>, x: seq<T>, tf: seq<T>, m: nat, s: nat, p: nat)
    requires 1 <= s <= m && |x| == Pow2(m) && |tf| == Pow2(m) / 2 && p < |x|
    requires p % Pow2(s) >= Pow2(s - 1)
    ensures DitPoint(R, State(R, x, tf, m, s - 1), tf, m, s, p) == State(R, x, tf, m, s)[p]
  {
    var b, o, H, L := StepIndices(m, s, p);
    HighHalf(p, L, H, b, o);
    var y := State(R, x, tf, m, s - 1);
    StateAt(R, x, tf, m, s - 1, p - H, 2 * b, o - H);
    StateAt(R, x, tf, m, s - 1, p, 2 * b + 1, o - H);
    StateAt(R, x, tf, m, s, p, b, o);
    DitHigh(R, y, tf, m, s, p, H, o);
    ButterflyHigh(R, x, tf, m, s, b, o, H);
  }

  /** Entry p of the buffer after s stages is the recursion at block p / 2^s, offset p mod 2^s. */
  lemma StateAt<T>(R: Ops<T>, x: seq<T>, tf: seq<T>, m: nat, s: nat, p: nat, b: nat, o: nat)
    requires s <= m && |x| == Pow2(m) && |tf| == Pow2(m) / 2 && p < |x|
    requires b == p / Pow2(s) && o == p % Pow2(s)
    ensures o < Pow2(s) && State(R, x, tf, m, s)[p] == Butterflies(R, x, tf, m, s, b, o)
  {
  }

  /** The DIT stage at an entry p in the first half of its block. */
  lemma DitLow<T>(R: Ops<T>, y: seq<T>, tf: seq<T>, m: nat, s: nat, p: nat, H: nat, o: nat)
    requires 1 <= s <= m && |y| == Pow2(m) && |tf| == Pow2(m) / 2 && p < |y|
    requires H == Pow2(s - 1) && o == p % Pow2(s) && o < H
    ensures p + H < |y| && o * Pow2(m - s) < |tf|
    ensures DitPoint(R, y, tf, m, s, p) == R.add(y[p], R.mul(y[p + H], tf[o * Pow2(m - s)]))
  {
    BlockPosition(p, s, m);
    Pow2Half(s);
    TwiddleBound(o, s, m);
  }

  /** The DIT stage at an entry p in the second half of its block. */
  lemma DitHigh<T>(R: Ops<T>, y: seq<T>, tf: seq<T>, m: nat, s: nat, p: nat, H: nat, o: nat)
    requires 1 <= s <= m && |y| == Pow2(m) && |tf| == Pow2(m) / 2 && p < |y|
    requires H == Pow2(s - 1) && o == p % Pow2(s) && o >= H
    ensures p >= H && (o - H) * Pow2(m - s) < |tf|
    ensures DitPoint(R, y, tf, m, s, p) == R.sub(y[p - H], R.mul(y[p], tf[(o - H) * Pow2(m - s)]))
  {
    BlockPosition(p, s, m);
    Pow2Half(s);
    TwiddleBound(o - H, s, m);
  }

  /** The recursion at an offset o in the first half of a block. */
  lemma ButterflyLow<T>(R: Ops<T>, x: seq<T>, tf: seq<T>, m: nat, s: nat, b: nat, o: nat, H: nat)
    requires 1 <= s <= m && |x| == Pow2(m) && |tf| == Pow2(m) / 2 && H == Pow2(s - 1) && o < H
    ensures o < Pow2(s) && o * Pow2(m - s) < |tf|
    ensures Butterflies(R, x, tf, m, s, b, o)
         == R.add(Butterflies(R, x, tf, m, s - 1, 2 * b, o), R.mul(Butterflies(R, x, tf, m, s - 1, 2 * b + 1, o), tf[o * Pow2(m - s)]))
  {
    Pow2Half(s);
    TwiddleBound(o, s, m);
  }

  /** The recursion at an offset o in the second half of a block. */
  lemma ButterflyHigh<T>(R: Ops<T>, x: seq<T>, tf: seq<T>, m: nat, s: nat, b: nat, o: nat, H: nat)
    requires 1 <= s <= m && |x| == Pow2(m) && |tf| == Pow2(m) / 2 && H == Pow2(s - 1) && H <= o < 2 * H
    ensures o < Pow2(s) && (o - H) * Pow2(m - s) < |tf|
    ensures Butterflies(R, x, tf, m, s, b, o)
         == R.sub(Butterflies(R, x, tf, m, s - 1, 2 * b, o - H), R.mul(Butterflies(R, x, tf, m, s - 1, 2 * b + 1, o - H), tf[(o - H) * Pow2(m - s)]))
  {
    Pow2Half(s);
    TwiddleBound(o - H, s, m);
  }

  /** One DIT stage turns the recursion's buffer after s - 1 stages into the one after s. */
  lemma StateStep<T>(R: Ops<T>, x: seq<T>, tf: seq<T>, m: nat, s: nat)
    requires 1 <= s <= m && |x| == Pow2(m) && |tf| == Pow2(m) / 2
    ensures DitStageOut(R, State(R, x, tf, m, s - 1), tf, m, s) == State(R, x, tf, m, s)
  {
    var y, z := DitStageOut(R, State(R, x, tf, m, s - 1), tf, m, s), State(R, x, tf, m, s);
    forall p | 0 <= p < |x|
      ensures y[p] == z[p]
    {
      if p % Pow2(s) < Pow2(s - 1) {
        StepLow(R, x, tf, m, s, p);
      } else {
        StepHigh(R, x, tf, m, s, p);
      }
    }
  }

  /** Before any stage the buffer holds the bit-reversed input. */
  lemma StateZero<T>(R: Ops<T>, x: seq<T>, tf: seq<T>, m: nat)
    requires |x| == Pow2(m) && |tf| == Pow2(m) / 2
    ensures State(R, x, tf, m, 0) == Permuted(x, m)
  {
    var y, z := State(R, x, tf, m, 0), Permuted(x, m);
    forall p | 0 <= p < |x|
      ensures y[p] == z[p]
    {
      assert p / Pow2(0) == p && p % Pow2(0) == 0;
    }
  }

  /** After s stages of the iterative DIT loop the buffer is State(s). */
  lemma {:induction false} StagesComputeState<T>(R: Ops<T>, x: seq<T>, tf: seq<T>, m: nat, s: nat)
    requires s <= m && |x| == Pow2(m) && |tf| == Pow2(m) / 2
    ensures DitStages(R, Permuted(x, m), tf, m, s) == State(R, x, tf, m, s)
  {
    if s == 0 {
      StateZero(R, x, tf, m);
    } else {
      StagesComputeState(R, x, tf, m, s - 1);
      StateStep(R, x, tf, m, s);
    }
  }

  // ---------------------------------------------------------------------------------
  // The recursion computes transforms of strided sub-sequences

  lemma HalfSizes(s: nat, m: nat)
    requires 1 <= s <= m
    ensures Pow2(s) == 2 * Pow2(s - 1) && Pow2(m - (s - 1)) == 2 * Pow2(m - s) && m - (s - 1) == (m - s) + 1
  {
    Pow2Half(s);
    Pow2Half(m - s + 1);
  }

  lemma StageArith(s: nat, m: nat)
    requires 1 <= s <= m
    ensures Pow2(s) == 2 * Pow2(s - 1) && Pow2(m - (s - 1)) == 2 * Pow2(m - s)
    ensures Pow2(m - s) * Pow2(s - 1) == Pow2(m) / 2 && Pow2(m) == 2 * (Pow2(m) / 2)
  {
    Pow2Half(s);
    Pow2Half(m - s + 1);
    Pow2Add(m - s, s - 1);
    Pow2Half(m);
  }

  /** Position p at offset o < H of block b of L = 2H points, seen in blocks of H points:
      p is at offset o of half-block 2b, and its partner p + H at offset o of 2b + 1. */
  lemma LowHalf(p: nat, L: nat, H: nat, b: nat, o: nat)
    requires L == 2 * H && H > 0 && b == p / L && o == p % L && o < H
    ensures p / H == 2 * b && p % H == o && (p + H) / H == 2 * b + 1 && (p + H) % H == o
  {
    DivMod(p, L);
    assert b * L == (2 * b) * H;
    DivModUnique(p, H, 2 * b, o);
    DivModUnique(p + H, H, 2 * b + 1, o);
  }

  /** Position p at offset o >= H of block b of L = 2H points: p is at offset o - H of
      half-block 2b + 1, and its partner p - H at the same offset of 2b. */
  lemma HighHalf(p: nat, L: nat, H: nat, b: nat, o: nat)
    requires L == 2 * H && H > 0 && b == p / L && o == p % L && H <= o < L
    ensures p >= H && (p - H) / H == 2 * b && (p - H) % H == o - H && p / H == 2 * b + 1 && p % H == o - H
  {
    DivMod(p, L);
    assert b * L == (2 * b) * H;
    DivModUnique(p - H, H, 2 * b, o - H);
    DivModUnique(p, H, 2 * b + 1, o - H);
  }

  lemma RevSplit(b: nat, k: nat)
    ensures Rev(2 * b, k + 1) == Rev(b, k) && Rev(2 * b + 1, k + 1) == Pow2(k) + Rev(b, k)
  {
    assert (2 * b) / 2 == b && (2 * b + 1) / 2 == b;
  }

  lemma DoubleProduct(D: nat, u: nat)
    ensures D * u + D * u == (2 * D) * u && u * D == D * u
  {
  }

  lemma ExponentArith(D: nat, H: nat, t: nat, half: nat)
    requires D * H == half
    ensures 2 * (D * (t + H)) == (2 * D) * t + 2 * half
    ensures D * (t + H) == D * t + half
  {
  }

  /** The hypotheses of the transform theorem: a ring, a table of powers of w, and
      w^(DIM/2) = -1. */
  ghost predicate RootTable<T(!new)>(R: Ops<T>, tf: seq<T>, w: T, m: nat)
  {
    && IsCommRing(R)
    && |tf| == Pow2(m) / 2
    && IsTwiddleTable(R, tf, w)
    && (m >= 1 ==> Pow(R, w, Pow2(m) / 2) == R.neg(R.one))
  }

  /** With w^(DIM/2) = -1, the point of a block's second half is the negated point of
      its first half. */
  lemma HalfPeriod<T(!new)>(R: Ops<T>, w: T, m: nat, s: nat, D: nat, H: nat, t: nat)
    requires 1 <= s <= m && IsCommRing(R) && Pow(R, w, Pow2(m) / 2) == R.neg(R.one)
    requires D == Pow2(m - s) && H == Pow2(s - 1)
    ensures Pow(R, w, D * (t + H)) == R.neg(Pow(R, w, D * t))
  {
    var half := Pow2(m) / 2;
    StageArith(s, m);
    ExponentArith(D, H, t, half);
    HalfTurn(R, w, half, D * t);
  }

  /** The butterfly sum: E + O W, for the transforms E and O of the even and odd samples
      at W^2, is the transform of all samples at W. */
  lemma CombineLow<T(!new)>(R: Ops<T>, x: seq<T>, c: nat, D: nat, H: nat, W: T, E: T, O: T)
    requires IsCommRing(R) && Fits(c, D, 2 * H, |x|) && Fits(c, 2 * D, H, |x|) && Fits(c + D, 2 * D, H, |x|)
    requires E == Eval(R, x, c, 2 * D, R.mul(W, W), H) && O == Eval(R, x, c + D, 2 * D, R.mul(W, W), H)
    ensures R.add(E, R.mul(O, W)) == Eval(R, x, c, D, W, 2 * H)
  {
    EvalSplit(R, x, c, D, W, H);
    MulComm(R, O, W);
  }

  /** The butterfly difference: E - O W is the transform of all samples at -W, since
      (-W)^2 = W^2. */
  lemma CombineHigh<T(!new)>(R: Ops<T>, x: seq<T>, c: nat, D: nat, H: nat, W: T, E: T, O: T)
    requires IsCommRing(R) && Fits(c, D, 2 * H, |x|) && Fits(c, 2 * D, H, |x|) && Fits(c + D, 2 * D, H, |x|)
    requires E == Eval(R, x, c, 2 * D, R.mul(W, W), H) && O == Eval(R, x, c + D, 2 * D, R.mul(W, W), H)
    ensures R.sub(E, R.mul(O, W)) == Eval(R, x, c, D, R.neg(W), 2 * H)
  {
    NegSquare(R, W);
    EvalSplit(R, x, c, D, R.neg(W), H);
    AddNegMul(R, E, W, O);
    MulComm(R, O, W);
  }

  /** One level of the recursion, unfolded: the block's value at offset t combines the two
      halves at offset u with the twiddle tf[u D]. */
  lemma ButterfliesStep<T>(R: Ops<T>, x: seq<T>, tf: seq<T>, m: nat, s: nat, b: nat, t: nat, D: nat, H: nat, u: nat,
                           b0: nat, b1: nat, W: T, E: T, O: T)
    requires 1 <= s <= m && |x| == Pow2(m) && |tf| == Pow2(m) / 2
    requires H == Pow2(s - 1) && Pow2(s) == 2 * H && t < 2 * H && u == (if t < H then t else t - H)
    requires D == Pow2(m - s) && u * D < |tf| && tf[u * D] == W && b0 == 2 * b && b1 == 2 * b + 1
    requires E == Butterflies(R, x, tf, m, s - 1, b0, u) && O == Butterflies(R, x, tf, m, s - 1, b1, u)
    ensures Butterflies(R, x, tf, m, s, b, t) == if t < H then R.add(E, R.mul(O, W)) else R.sub(E, R.mul(O, W))
  {
  }

  /** The butterfly on the halves' transforms is the block's transform at W or at -W. */
  lemma CombineStep<T(!new)>(R: Ops<T>, x: seq<T>, c: nat, c1: nat, D: nat, D2: nat, H: nat, low: bool,
                             z: T, W: T, V: T, E: T, O: T)
    requires IsCommRing(R) && c1 == c + D && D2 == 2 * D && V == R.mul(W, W)
    requires z == (if low then W else R.neg(W))
    requires Fits(c, D, 2 * H, |x|) && Fits(c, D2, H, |x|) && Fits(c1, D2, H, |x|)
    requires E == Eval(R, x, c, D2, V, H)
    requires O == Eval(R, x, c1, D2, V, H)
    ensures (if low then R.add(E, R.mul(O, W)) else R.sub(E, R.mul(O, W))) == Eval(R, x, c, D, z, 2 * H)
  {
    if low {
      CombineLow(R, x, c, D, H, W, E, O);
    } else {
      CombineHigh(R, x, c, D, H, W, E, O);
    }
  }

  /** The arguments of the two recursive calls at block b, offset t: both halves are
      read at offset u = t mod 2^(s-1), with twice the stride and the square of the point. */
  lemma Children<T(!new)>(R: Ops<T>, x: seq<T>, w: T, m: nat, s: nat, b: nat, t: nat, c: nat, D: nat)
    returns (H: nat, u: nat, b0: nat, b1: nat, c1: nat, D2: nat, e: nat)
    requires 1 <= s <= m && |x| == Pow2(m) && t < Pow2(s)
    requires c == Rev(b, m - s) && D == Pow2(m - s)
    ensures H == Pow2(s - 1) && Pow2(s) == 2 * H && u == (if t < H then t else t - H) && u < H
    ensures b0 == 2 * b && b1 == 2 * b + 1 && c1 == c + D && D2 == 2 * D && e == D2 * u
    ensures c == Rev(b0, m - (s - 1)) && c1 == Rev(b1, m - (s - 1)) && D2 == Pow2(m - (s - 1))
    ensures Fits(c, D, 2 * H, |x|)
  {
    b0, b1, c1, D2 := 2 * b, 2 * b + 1, c + D, 2 * D;
    H, u, e := ChildOffset(m, s, t, D2);
    ChildStarts(b, c, D, m, s);
  }

  /** Each half holds H = 2^(s-1) points and is read at offset u = t mod H, which is
      exponent e = D2 u of the halves' stride D2. */
  lemma ChildOffset(m: nat, s: nat, t: nat, D2: nat) returns (H: nat, u: nat, e: nat)
    requires 1 <= s <= m && t < Pow2(s)
    ensures H == Pow2(s - 1) && Pow2(s) == 2 * H && u == (if t < H then t else t - H) && u < H
    ensures Pow2(m - (s - 1)) == 2 * Pow2(m - s) && e == D2 * u
  {
    H := Pow2(s - 1);
    HalfSizes(s, m);
    u := if t < H then t else t - H;
    e := D2 * u;
  }

  /** The halves of block b start at Rev(2 b) = c and Rev(2 b + 1) = c + 2^(m-s), and the
      block's points all lie in range. */
  lemma ChildStarts(b: nat, c: nat, D: nat, m: nat, s: nat)
    requires 1 <= s <= m && c == Rev(b, m - s) && D == Pow2(m - s)
    ensures c == Rev(2 * b, m - (s - 1)) && c + D == Rev(2 * b + 1, m - (s - 1))
    ensures Fits(c, D, Pow2(s), Pow2(m))
  {
    RevSplit(b, m - s);
    RevBound(b, m - s);
    StridedFits(c, s, m);
  }

  /** The twiddle the recursion reads at offset u is W = w^(D u); its square is the
      point of the halves, and the point of the block is W or -W. */
  lemma TwiddleFacts<T(!new)>(R: Ops<T>, tf: seq<T>, w: T, m: nat, s: nat, t: nat, D: nat, H: nat, u: nat, z: T,
                              D2: nat, e: nat)
    returns (W: T)
    requires 1 <= s <= m && RootTable(R, tf, w, m)
    requires D == Pow2(m - s) && H == Pow2(s - 1) && u < H && t == (if t < H then u else u + H) && z == Pow(R, w, D * t)
    requires D2 == 2 * D && e == D2 * u
    ensures W == Pow(R, w, D * u)
    ensures u * D < |tf| && tf[u * D] == W
    ensures R.mul(W, W) == Pow(R, w, e)
    ensures z == (if t < H then W else R.neg(W))
  {
    W := Pow(R, w, D * u);
    DoubleProduct(D, u);
    PowAdd(R, w, D * u, D * u);
    TwiddleBound(u, s, m);
    assert TwiddleAt(R, tf, w, u * D);
    if t >= H {
      HalfPeriod(R, w, m, s, D, H, u);
    }
  }

  /** The step of the induction below: from the halves' transforms to the block's. */
  lemma Combine<T(!new)>(R: Ops<T>, x: seq<T>, tf: seq<T>, w: T, m: nat, s: nat, b: nat, t: nat,
                         c: nat, D: nat, z: T, H: nat, u: nat, b0: nat, b1: nat, c1: nat, D2: nat, e: nat)
    requires 1 <= s <= m && |x| == Pow2(m) && RootTable(R, tf, w, m)
    requires D == Pow2(m - s) && H == Pow2(s - 1) && Pow2(s) == 2 * H && t < 2 * H && u == (if t < H then t else t - H)
    requires b0 == 2 * b && b1 == 2 * b + 1 && c1 == c + D && D2 == 2 * D
    requires z == Pow(R, w, D * t) && e == D2 * u
    requires Fits(c, D, 2 * H, |x|) && Fits(c, D2, H, |x|) && Fits(c1, D2, H, |x|)
    requires Butterflies(R, x, tf, m, s - 1, b0, u) == Eval(R, x, c, D2, Pow(R, w, e), H)
    requires Butterflies(R, x, tf, m, s - 1, b1, u) == Eval(R, x, c1, D2, Pow(R, w, e), H)
    ensures Butterflies(R, x, tf, m, s, b, t) == Eval(R, x, c, D, z, 2 * H)
  {
    var E, O := Butterflies(R, x, tf, m, s - 1, b0, u), Butterflies(R, x, tf, m, s - 1, b1, u);
    var W := TwiddleFacts(R, tf, w, m, s, t, D, H, u, z, D2, e);
    ButterfliesStep(R, x, tf, m, s, b, t, D, H, u, b0, b1, W, E, O);
    CombineStep(R, x, c, c1, D, D2, H, t < H, z, W, Pow(R, w, e), E, O);
  }

  /** A transform of size one is its single sample. */
  lemma SingleSample<T(!new)>(R: Ops<T>, x: seq<T>, tf: seq<T>, m: nat, b: nat, c: nat, D: nat, z: T)
    requires |x| == Pow2(m) && |tf| == Pow2(m) / 2 && IsCommRing(R) && c == Rev(b, m)
    ensures Fits(c, D, 1, |x|)
    ensures Butterflies(R, x, tf, m, 0, b, 0) == Eval(R, x, c, D, z, 1)
  {
    RevBound(b, m);
    MulZero(R, z);
    AddZero(R, x[c]);
  }

  /** The recursion at block b, offset t after s stages is the transform of size 2^s of
      the samples x[Rev(b) + r 2^(m-s)], evaluated at w^(2^(m-s) t). */
  lemma {:induction false} ButterfliesEval<T(!new)>(R: Ops<T>, x: seq<T>, tf: seq<T>, w: T, m: nat, s: nat, b: nat, t: nat,
                                                     c: nat, D: nat, z: T)
    requires s <= m && |x| == Pow2(m) && RootTable(R, tf, w, m) && t < Pow2(s)
    requires c == Rev(b, m - s) && D == Pow2(m - s) && z == Pow(R, w, D * t)
    ensures Fits(c, D, Pow2(s), |x|)
    ensures Butterflies(R, x, tf, m, s, b, t) == Eval(R, x, c, D, z, Pow2(s))
    decreases s, 1
  {
    if s == 0 {
      SingleSample(R, x, tf, m, b, c, D, z);
    } else {
      var H, u, b0, b1, c1, D2, e := Children(R, x, w, m, s, b, t, c, D);
      HalvesEval(R, x, tf, w, m, s, u, H, b0, b1, c, c1, D2, e, Pow(R, w, e));
      Combine(R, x, tf, w, m, s, b, t, c, D, z, H, u, b0, b1, c1, D2, e);
    }
  }

  /** The induction hypothesis for both halves of a block, at offset u. */
  lemma HalvesEval<T(!new)>(R: Ops<T>, x: seq<T>, tf: seq<T>, w: T, m: nat, s: nat, u: nat, H: nat,
                            b0: nat, b1: nat, c0: nat, c1: nat, D2: nat, e: nat, z2: T)
    requires 1 <= s <= m && |x| == Pow2(m) && RootTable(R, tf, w, m)
    requires H == Pow2(s - 1) && u < H && D2 == Pow2(m - (s - 1)) && e == D2 * u && z2 == Pow(R, w, e)
    requires c0 == Rev(b0, m - (s - 1)) && c1 == Rev(b1, m - (s - 1))
    ensures Fits(c0, D2, H, |x|) && Fits(c1, D2, H, |x|)
    ensures Butterflies(R, x, tf, m, s - 1, b0, u) == Eval(R, x, c0, D2, z2, H)
    ensures Butterflies(R, x, tf, m, s - 1, b1, u) == Eval(R, x, c1, D2, z2, H)
    decreases s, 0
  {
    ButterfliesEval(R, x, tf, w, m, s - 1, b0, u, c0, D2, z2);
    ButterfliesEval(R, x, tf, w, m, s - 1, b1, u, c1, D2, z2);
  }

  /** After the last stage the single block of 2^m points holds the whole transform. */
  lemma StateFinal<T(!new)>(R: Ops<T>, x: seq<T>, tf: seq<T>, w: T, m: nat)
    requires |x| == Pow2(m) && RootTable(R, tf, w, m)
    ensures State(R, x, tf, m, m) == Transform(R, x, w, m)
  {
    var y, z := State(R, x, tf, m, m), Transform(R, x, w, m);
    forall p | 0 <= p < |x|
      ensures y[p] == z[p]
    {
      DivModUnique(p, Pow2(m), 0, p);
      assert 1 * p == p;
      ButterfliesEval(R, x, tf, w, m, m, 0, p, 0, 1, Pow(R, w, p));
    }
  }

  /** The iterative decimation-in-time FFT computes the discrete Fourier transform
      X[t] = sum of x[r] w^(t r), whenever the twiddle table holds the powers of a w
      with w^(DIM/2) = -1. */
  lemma DitComputesTransform<T(!new)>(R: Ops<T>, x: seq<T>, tf: seq<T>, w: T, m: nat)
    requires |x| == Pow2(m) && RootTable(R, tf, w, m)
    ensures Dit(R, x, tf, m) == Transform(R, x, w, m)
  {
    StagesComputeState(R, x, tf, m, m);
    StateFinal(R, x, tf, w, m);
  }
}
