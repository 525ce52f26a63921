/** Exact complex numbers standing in for `std::complex<FLOATING_TYPE>` of
    lib/au-file-processing/include/fourier_transforms/fft.h: the transform's index
    structure is modelled over an exact field, so rounding does not enter. */
module ComplexRing {
  import opened Rings

  datatype Complex = Complex(re: real, im: real)

  const Zero: Complex := Complex(0.0, 0.0)
  const One: Complex := Complex(1.0, 0.0)

  function Add(a: Complex, b: Complex): Complex
  {
    Complex(a.re + b.re, a.im + b.im)
  }

  function Neg(a: Complex): Complex
  {
    Complex(-a.re, -a.im)
  }

  function Sub(a: Complex, b: Complex): Complex
  {
    Complex(a.re - b.re, a.im - b.im)
  }

  function Mul(a: Complex, b: Complex): Complex
  {
    Complex(a.re * b.re - a.im * b.im, a.re * b.im + a.im * b.re)
  }

  /** A real coefficient times a complex value, as in `w[index] * c` of the window. */
  function Scale(k: real, a: Complex): Complex
  {
    Complex(k * a.re, k * a.im)
  }

  /** A real sample lifted to the complex plane (AUFile.cpp, line 117). */
  function FromReal(x: real): Complex
  {
    Complex(x, 0.0)
  }

  /** The complex numbers as a ring record for the generic transforms. */
  function Field(): Ops<Complex>
  {
    Ops(Add, Sub, Mul, Neg, Zero, One)
  }

  lemma ComplexMulAssoc(a: Complex, b: Complex, c: Complex)
    ensures Mul(Mul(a, b), c) == Mul(a, Mul(b, c))
  {
    assert Mul(Mul(a, b), c).re == Mul(a, Mul(b, c)).re;
    assert Mul(Mul(a, b), c).im == Mul(a, Mul(b, c)).im;
  }

  lemma ComplexMulDistributes(a: Complex, b: Complex, c: Complex)
    ensures Mul(a, Add(b, c)) == Add(Mul(a, b), Mul(a, c))
  {
    assert Mul(a, Add(b, c)).re == Add(Mul(a, b), Mul(a, c)).re;
    assert Mul(a, Add(b, c)).im == Add(Mul(a, b), Mul(a, c)).im;
  }

  /** Complex arithmetic satisfies every law the transform theorems assume. */
  lemma FieldIsCommRing()
    ensures IsCommRing(Field())
  {
    var R := Field();
    forall a, b, c
      ensures MulAssociates(R, a, b, c) && Distributes(R, a, b, c)
    {
      ComplexMulAssoc(a, b, c);
      ComplexMulDistributes(a, b, c);
    }
  }
}
