/** Bit-reversal permutation of the FFT (lib/au-file-processing/include/fourier_transforms/fft.h,
    lines 21-52): the table `bit_reverse_array` and the in-place reorder
    `bit_reverse_reorder`. A transform of DIM = 2^m points reverses m bits. */
module BitReverse {
  import opened Powers

  /** The low m bits of i, reversed: bit t of i becomes bit m - 1 - t. */
  function Rev(i: nat, m: nat): nat
  {
    if m == 0 then 0
    else if i % 2 == 0 then Rev(i / 2, m - 1)
    else Pow2(m - 1) + Rev(i / 2, m - 1)
  }

  /** A reversal of m bits lies below 2^m. (A lemma rather than a postcondition of Rev,
      so that proofs mentioning many reversals do not unfold powers of two for each.) */
  lemma {:induction false} RevBound(i: nat, m: nat)
    ensures Rev(i, m) < Pow2(m)
    decreases m
  {
    if m > 0 {
      RevBound(i / 2, m - 1);
    }
  }

  lemma DoubleMul(q: nat, a: nat)
    ensures (2 * q) * a == 2 * (q * a)
  {
  }

  /** Splitting i by 2q is splitting i / 2 by q, plus the low bit. */
  lemma HalveDivMod(i: nat, q: nat)
    requires q > 0
    ensures (i % (2 * q)) % 2 == i % 2
    ensures (i % (2 * q)) / 2 == (i / 2) % q
    ensures i / (2 * q) == (i / 2) / q
  {
    var a, r := i / (2 * q), i % (2 * q);
    DivMod(i, 2 * q);
    DoubleMul(q, a);
    DivMod(r, 2);
    var h := q * a + r / 2;
    assert i == 2 * h + r % 2;
    DivModUnique(i, 2, h, r % 2);
    DivModUnique(i / 2, q, a, r / 2);
  }

  /** Reversal peeled from the top bit: the top bit of i becomes the low bit of the
      result, and the remaining m - 1 bits are reversed one place higher. */
  lemma {:induction false} RevTopBit(i: nat, m: nat)
    requires m >= 1 && i < Pow2(m)
    ensures Rev(i, m) == 2 * Rev(i % Pow2(m - 1), m - 1) + i / Pow2(m - 1)
    decreases m
  {
    if m == 1 {
      assert i % 1 == 0 && i / 1 == i;
    } else {
      var q := Pow2(m - 2);
      assert Pow2(m - 1) == 2 * q;
      HalveDivMod(i, q);
      RevTopBit(i / 2, m - 1);
    }
  }

  /** Reversing twice gives back every index below 2^m. */
  lemma {:induction false} RevInvolution(i: nat, m: nat)
    requires i < Pow2(m)
    ensures Rev(Rev(i, m), m) == i
    decreases m
  {
    if m > 0 {
      var h := Pow2(m - 1);
      var low := Rev(i / 2, m - 1);
      var r := Rev(i, m);
      RevBound(i / 2, m - 1);
      Pow2Half(m);
      if i % 2 == 0 {
        DivModUnique(r, h, 0, low);
      } else {
        DivModUnique(r, h, 1, low);
      }
      RevTopBit(r, m);
      RevInvolution(i / 2, m - 1);
    }
  }

  /** Hence reversal is a bijection on [0, 2^m). */
  lemma RevInjective(i: nat, j: nat, m: nat)
    requires i < Pow2(m) && j < Pow2(m) && Rev(i, m) == Rev(j, m)
    ensures i == j
  {
    RevInvolution(i, m);
    RevInvolution(j, m);
  }

  /** The table entry for i: its reversal when that is larger, otherwise i itself. */
  function Scrambled(i: nat, m: nat): nat
  {
    if i < Rev(i, m) then Rev(i, m) else i
  }

  /** Every table entry lies between its index and 2^m. */
  lemma ScrambledBound(i: nat, m: nat)
    requires i < Pow2(m)
    ensures i <= Scrambled(i, m) < Pow2(m)
  {
    RevBound(i, m);
  }

  /** The shift loop of lines 28-33: the bits of i, taken from the low end, are shifted
      into j from the low end, m times. */
  method ReverseBits(i: nat, m: nat) returns (j: nat)
    ensures j == Rev(i, m)
  {
    j := 0;
    var b: nat := i;
    var bits: nat := m;
    while bits > 0
      invariant j * Pow2(bits) + Rev(b, bits) == Rev(i, m)
    {
      Pow2Half(bits);
      assert (2 * j + b % 2) * Pow2(bits - 1) == j * Pow2(bits) + (b % 2) * Pow2(bits - 1);
      j := 2 * j + b % 2;
      b := b / 2;
      bits := bits - 1;
    }
  }

  /** Lines 22-40: the table of 2^m entries; entry i keeps the larger of i and its
      reversal. */
  method BitReverseArray(m: nat) returns (scrambled: seq<nat>)
    ensures |scrambled| == Pow2(m)
    ensures forall i :: 0 <= i < |scrambled| ==> scrambled[i] == Scrambled(i, m)
    ensures forall i :: 0 <= i < |scrambled| ==> i <= scrambled[i] < Pow2(m)
  {
    var dim := Pow2(m);
    scrambled := seq(dim, _ => 0);
    var i: nat := 0;
    while i < dim
      invariant i <= dim && |scrambled| == dim
      invariant forall k :: 0 <= k < i ==> scrambled[k] == Scrambled(k, m)
      invariant forall k :: 0 <= k < i ==> k <= scrambled[k] < Pow2(m)
    {
      ScrambledBound(i, m);
      var j := ReverseBits(i, m);
      if i < j {
        scrambled := scrambled[i := j];
      } else {
        scrambled := scrambled[i := i];
      }
      i := i + 1;
    }
  }

  /** The reference reordering: entry i of the result is entry Rev(i) of w. */
  function Permuted<T>(w: seq<T>, m: nat): (r: seq<T>)
    requires |w| == Pow2(m)
    ensures |r| == |w|
  {
    seq(|w|, i requires 0 <= i < |w| => RevBound(i, m); w[Rev(i, m)])
  }

  /** Permuting twice is the identity. */
  lemma PermutedInvolution<T>(w: seq<T>, m: nat)
    requires |w| == Pow2(m)
    ensures Permuted(Permuted(w, m), m) == w
  {
    var p := Permuted(Permuted(w, m), m);
    forall i | 0 <= i < |w|
      ensures p[i] == w[i]
    {
      RevBound(i, m);
      RevInvolution(i, m);
    }
  }

  lemma SwapMultiset<T>(s: seq<T>, i: nat, j: nat)
    requires i < |s| && j < |s|
    ensures multiset(s[i := s[j]][j := s[i]]) == multiset(s)
  {
  }

  /** The state of the reorder loop after visiting the first i entries: every pair with
      a member below i has been swapped. */
  function Partial<T>(w: seq<T>, m: nat, i: nat): (r: seq<T>)
    requires |w| == Pow2(m)
    ensures |r| == |w|
  {
    seq(|w|, k requires 0 <= k < |w| => RevBound(k, m); if k < i || Rev(k, m) < i then w[Rev(k, m)] else w[k])
  }

  /** One visit of the loop: entry i is swapped with its partner exactly when the partner
      lies above i. */
  lemma PartialStep<T>(w: seq<T>, m: nat, i: nat)
    requires |w| == Pow2(m) && i < |w|
    ensures Rev(i, m) < |w|
    ensures var p, j := Partial(w, m, i), Rev(i, m);
      Partial(w, m, i + 1) == if i < j then p[i := p[j]][j := p[i]] else p
  {
    var p, q, j := Partial(w, m, i), Partial(w, m, i + 1), Rev(i, m);
    RevBound(i, m);
    RevInvolution(i, m);
    forall k | 0 <= k < |w| && k != i && k != j
      ensures q[k] == p[k]
    {
      RevBound(k, m);
      RevInvolution(k, m);
    }
    if i < j {
      assert q == p[i := p[j]][j := p[i]];
    } else {
      assert q == p;
    }
  }

  /** Lines 43-52: swap each entry with its reversal partner, once per pair. */
  method BitReverseReorder<T>(w: seq<T>, m: nat) returns (out: seq<T>)
    requires |w| == Pow2(m)
    ensures out == Permuted(w, m)
    ensures multiset(out) == multiset(w)
  {
    var scrambled := BitReverseArray(m);
    out := w;
    assert out == Partial(w, m, 0);
    var i: nat := 0;
    while i < |out|
      invariant i <= |out| == |w|
      invariant multiset(out) == multiset(w)
      invariant out == Partial(w, m, i)
    {
      var j := scrambled[i];
      PartialStep(w, m, i);
      if i < j {
        SwapMultiset(out, i, j);
        out := out[i := out[j]][j := out[i]];
      }
      i := i + 1;
    }
    assert out == Permuted(w, m);
  }
}
