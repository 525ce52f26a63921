/** Powers of two, the arithmetic behind shifts, word lanes and FFT sizes. */
module Powers {

  /** 2 to the power k, i.e. `1 << k`. */
  function Pow2(k: nat): (r: nat)
    ensures r >= 1
  {
    if k == 0 then 1 else 2 * Pow2(k - 1)
  }

  lemma {:induction false} Pow2Add(a: nat, b: nat)
    ensures Pow2(a + b) == Pow2(a) * Pow2(b)
    decreases a
  {
    if a > 0 {
      Pow2Add(a - 1, b);
      assert Pow2(a + b) == 2 * Pow2(a - 1 + b);
    }
  }

  /** 2^m is 2^q blocks of 2^(m-q). */
  lemma Pow2Split(q: nat, m: nat)
    requires q <= m
    ensures Pow2(m) == Pow2(m - q) * Pow2(q)
  {
    Pow2Add(m - q, q);
    assert m - q + q == m;
  }

  lemma NatMulCommutes(a: nat, b: nat)
    ensures a * b == b * a
  {
  }

  lemma {:induction false} Pow2Monotone(a: nat, b: nat)
    requires a <= b
    ensures Pow2(a) <= Pow2(b)
    decreases b
  {
    if a < b {
      Pow2Monotone(a, b - 1);
    }
  }

  lemma Pow2Half(k: nat)
    requires k >= 1
    ensures Pow2(k) == 2 * Pow2(k - 1)
    ensures Pow2(k) / 2 == Pow2(k - 1)
    ensures Pow2(k) % 2 == 0
  {
  }

  /** (n + 1) * p == n * p + p, a distributivity step the solver does not always find. */
  lemma MulSucc(n: nat, p: nat)
    ensures (n + 1) * p == n * p + p
  {
  }

  /** The quotient and remainder of n by d are the only a, b with n = d a + b, b < d. */
  lemma DivModUnique(n: nat, d: nat, a: nat, b: nat)
    requires d > 0 && n == d * a + b && b < d
    ensures n / d == a && n % d == b
  {
    var q := n / d;
    if q > a {
      MulStep(d, a, q);
    } else if q < a {
      MulStep(d, q, a);
    }
  }

  lemma MulLe(d: nat, x: nat, y: nat)
    requires x <= y
    ensures d * x <= d * y
  {
    assert d * y == d * x + d * (y - x);
  }

  lemma MulStep(d: nat, x: nat, y: nat)
    requires x < y
    ensures d * x + d <= d * y
  {
    MulLe(d, x + 1, y);
    assert d * (x + 1) == d * x + d;
  }

  /** Division with remainder by a positive divisor. */
  lemma DivMod(n: nat, d: nat)
    requires d > 0
    ensures n / d >= 0 && n == d * (n / d) + n % d && n % d < d
  {
  }
}
