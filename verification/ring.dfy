/** The arithmetic the transforms need, abstracted: a commutative ring given as a record
    of operations. The transforms of fft.h are written for any such record; the
    discrete Fourier transform theorem assumes the ring laws.

    Each law is a named predicate on its instance, so that the solver only uses the
    instances a proof names (through the lemmas below) and does not rewrite terms
    without end. */
module Rings {
  datatype Ops<!T> = Ops(add: (T, T) -> T, sub: (T, T) -> T, mul: (T, T) -> T, neg: T -> T, zero: T, one: T)

  ghost predicate AddCommutes<T>(R: Ops<T>, a: T, b: T) { R.add(a, b) == R.add(b, a) }
  ghost predicate AddAssociates<T>(R: Ops<T>, a: T, b: T, c: T) { R.add(R.add(a, b), c) == R.add(a, R.add(b, c)) }
  ghost predicate ZeroNeutral<T>(R: Ops<T>, a: T) { R.add(a, R.zero) == a }
  ghost predicate NegCancels<T>(R: Ops<T>, a: T) { R.add(a, R.neg(a)) == R.zero }
  ghost predicate SubAddsNeg<T>(R: Ops<T>, a: T, b: T) { R.sub(a, b) == R.add(a, R.neg(b)) }
  ghost predicate MulCommutes<T>(R: Ops<T>, a: T, b: T) { R.mul(a, b) == R.mul(b, a) }
  ghost predicate MulAssociates<T>(R: Ops<T>, a: T, b: T, c: T) { R.mul(R.mul(a, b), c) == R.mul(a, R.mul(b, c)) }
  ghost predicate OneNeutral<T>(R: Ops<T>, a: T) { R.mul(a, R.one) == a }
  ghost predicate Distributes<T>(R: Ops<T>, a: T, b: T, c: T) { R.mul(a, R.add(b, c)) == R.add(R.mul(a, b), R.mul(a, c)) }

  /** The commutative ring laws, with subtraction as adding the negation. */
  ghost predicate IsCommRing<T(!new)>(R: Ops<T>)
  {
    && (forall a, b :: AddCommutes(R, a, b))
    && (forall a, b, c :: AddAssociates(R, a, b, c))
    && (forall a :: ZeroNeutral(R, a))
    && (forall a :: NegCancels(R, a))
    && (forall a, b :: SubAddsNeg(R, a, b))
    && (forall a, b :: MulCommutes(R, a, b))
    && (forall a, b, c :: MulAssociates(R, a, b, c))
    && (forall a :: OneNeutral(R, a))
    && (forall a, b, c :: Distributes(R, a, b, c))
  }

  lemma AddComm<T(!new)>(R: Ops<T>, a: T, b: T)
    requires IsCommRing(R)
    ensures R.add(a, b) == R.add(b, a)
  {
    assert AddCommutes(R, a, b);
  }

  lemma AddAssoc<T(!new)>(R: Ops<T>, a: T, b: T, c: T)
    requires IsCommRing(R)
    ensures R.add(R.add(a, b), c) == R.add(a, R.add(b, c))
  {
    assert AddAssociates(R, a, b, c);
  }

  lemma AddZero<T(!new)>(R: Ops<T>, a: T)
    requires IsCommRing(R)
    ensures R.add(a, R.zero) == a && R.add(R.zero, a) == a
  {
    assert ZeroNeutral(R, a) && AddCommutes(R, R.zero, a);
  }

  lemma AddNeg<T(!new)>(R: Ops<T>, a: T)
    requires IsCommRing(R)
    ensures R.add(a, R.neg(a)) == R.zero
  {
    assert NegCancels(R, a);
  }

  lemma SubDef<T(!new)>(R: Ops<T>, a: T, b: T)
    requires IsCommRing(R)
    ensures R.sub(a, b) == R.add(a, R.neg(b))
  {
    assert SubAddsNeg(R, a, b);
  }

  lemma MulComm<T(!new)>(R: Ops<T>, a: T, b: T)
    requires IsCommRing(R)
    ensures R.mul(a, b) == R.mul(b, a)
  {
    assert MulCommutes(R, a, b);
  }

  lemma MulAssoc<T(!new)>(R: Ops<T>, a: T, b: T, c: T)
    requires IsCommRing(R)
    ensures R.mul(R.mul(a, b), c) == R.mul(a, R.mul(b, c))
  {
    assert MulAssociates(R, a, b, c);
  }

  lemma MulOne<T(!new)>(R: Ops<T>, a: T)
    requires IsCommRing(R)
    ensures R.mul(a, R.one) == a && R.mul(R.one, a) == a
  {
    assert OneNeutral(R, a) && MulCommutes(R, R.one, a);
  }

  lemma MulAdd<T(!new)>(R: Ops<T>, a: T, b: T, c: T)
    requires IsCommRing(R)
    ensures R.mul(a, R.add(b, c)) == R.add(R.mul(a, b), R.mul(a, c))
  {
    assert Distributes(R, a, b, c);
  }

  /** w^n by repeated multiplication. */
  function Pow<T>(R: Ops<T>, w: T, n: nat): T
  {
    if n == 0 then R.one else R.mul(Pow(R, w, n - 1), w)
  }

  /** w^(a+b) = w^a w^b. */
  lemma {:induction false} PowAdd<T(!new)>(R: Ops<T>, w: T, a: nat, b: nat)
    requires IsCommRing(R)
    ensures Pow(R, w, a + b) == R.mul(Pow(R, w, a), Pow(R, w, b))
    decreases b
  {
    if b == 0 {
      MulOne(R, Pow(R, w, a));
    } else {
      PowAdd(R, w, a, b - 1);
      MulAssoc(R, Pow(R, w, a), Pow(R, w, b - 1), w);
    }
  }

  /** w^(a b) = (w^a)^b. */
  lemma {:induction false} PowMul<T(!new)>(R: Ops<T>, w: T, a: nat, b: nat)
    requires IsCommRing(R)
    ensures Pow(R, w, a * b) == Pow(R, Pow(R, w, a), b)
    decreases b
  {
    if b > 0 {
      assert a * b == a * (b - 1) + a;
      PowAdd(R, w, a * (b - 1), a);
      PowMul(R, w, a, b - 1);
    }
  }

  lemma {:induction false} PowOfOne<T(!new)>(R: Ops<T>, n: nat)
    requires IsCommRing(R)
    ensures Pow(R, R.one, n) == R.one
  {
    if n > 0 {
      PowOfOne(R, n - 1);
      MulOne(R, R.one);
    }
  }

  lemma MulZero<T(!new)>(R: Ops<T>, a: T)
    requires IsCommRing(R)
    ensures R.mul(a, R.zero) == R.zero && R.mul(R.zero, a) == R.zero
  {
    var z := R.mul(a, R.zero);
    calc {
      R.add(z, z);
      == { MulAdd(R, a, R.zero, R.zero); }
      R.mul(a, R.add(R.zero, R.zero));
      == { AddZero(R, R.zero); }
      z;
    }
    calc {
      z;
      == { AddZero(R, z); }
      R.add(z, R.zero);
      == { AddNeg(R, z); }
      R.add(z, R.add(z, R.neg(z)));
      == { AddAssoc(R, z, z, R.neg(z)); }
      R.add(R.add(z, z), R.neg(z));
      == R.add(z, R.neg(z));
      == { AddNeg(R, z); }
      R.zero;
    }
    MulComm(R, R.zero, a);
  }

  /** The negation of a is the only b with a + b = 0. */
  lemma NegUnique<T(!new)>(R: Ops<T>, a: T, b: T)
    requires IsCommRing(R) && R.add(a, b) == R.zero
    ensures b == R.neg(a)
  {
    calc {
      b;
      == { AddZero(R, b); }
      R.add(b, R.zero);
      == { AddNeg(R, a); }
      R.add(b, R.add(a, R.neg(a)));
      == { AddAssoc(R, b, a, R.neg(a)); }
      R.add(R.add(b, a), R.neg(a));
      == { AddComm(R, b, a); }
      R.add(R.zero, R.neg(a));
      == { AddZero(R, R.neg(a)); }
      R.neg(a);
    }
  }

  /** A negated factor negates the product. */
  lemma MulNeg<T(!new)>(R: Ops<T>, a: T, b: T)
    requires IsCommRing(R)
    ensures R.mul(R.neg(a), b) == R.neg(R.mul(a, b))
  {
    calc {
      R.add(R.mul(a, b), R.mul(R.neg(a), b));
      == { MulComm(R, a, b); MulComm(R, R.neg(a), b); }
      R.add(R.mul(b, a), R.mul(b, R.neg(a)));
      == { MulAdd(R, b, a, R.neg(a)); }
      R.mul(b, R.add(a, R.neg(a)));
      == { AddNeg(R, a); }
      R.mul(b, R.zero);
      == { MulZero(R, b); }
      R.zero;
    }
    NegUnique(R, R.mul(a, b), R.mul(R.neg(a), b));
  }

  /** (a + b) + (c + d) regrouped as (a + c) + (b + d). */
  lemma AddSwapMiddle<T(!new)>(R: Ops<T>, a: T, b: T, c: T, d: T)
    requires IsCommRing(R)
    ensures R.add(R.add(a, b), R.add(c, d)) == R.add(R.add(a, c), R.add(b, d))
  {
    calc {
      R.add(R.add(a, b), R.add(c, d));
      == { AddAssoc(R, a, b, R.add(c, d)); }
      R.add(a, R.add(b, R.add(c, d)));
      == { AddAssoc(R, b, c, d); }
      R.add(a, R.add(R.add(b, c), d));
      == { AddComm(R, b, c); }
      R.add(a, R.add(R.add(c, b), d));
      == { AddAssoc(R, c, b, d); }
      R.add(a, R.add(c, R.add(b, d)));
      == { AddAssoc(R, a, c, R.add(b, d)); }
      R.add(R.add(a, c), R.add(b, d));
    }
  }
}
