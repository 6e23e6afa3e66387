/** Complex numbers with exact real parts. */
module ComplexNumbers {
  import opened Rings

  datatype Complex = Complex(re: real, im: real)

  const ZERO := Complex(0.0, 0.0)
  const ONE := Complex(1.0, 0.0)

  function Plus(x: Complex, y: Complex): Complex {
    Complex(x.re + y.re, x.im + y.im)
  }

  function Negate(x: Complex): Complex {
    Complex(-x.re, -x.im)
  }

  function Product(x: Complex, y: Complex): Complex {
    Complex(x.re * y.re - x.im * y.im, x.re * y.im + x.im * y.re)
  }

  function Conjugate(x: Complex): Complex {
    Complex(x.re, -x.im)
  }

  /** The real number n. */
  function FromInt(n: int): Complex {
    Complex(n as real, 0.0)
  }

  /** The nearest integer to the real part. */
  function Round(x: Complex): int {
    (x.re + 0.5).Floor
  }

  function ComplexRing(): Ring<Complex> {
    Ring(ZERO, ONE, (x, y) => Plus(x, y), x => Negate(x), (x, y) => Product(x, y))
  }

  lemma RoundExact(n: int)
    ensures Round(FromInt(n)) == n
  {
  }

  lemma ProductAssociates(x: Complex, y: Complex, z: Complex)
    ensures Product(Product(x, y), z) == Product(x, Product(y, z))
  {
    var (a, b, c, d, e, f) := (x.re, x.im, y.re, y.im, z.re, z.im);
    assert (a * c - b * d) * e - (a * d + b * c) * f == a * (c * e - d * f) - b * (c * f + d * e);
    assert (a * c - b * d) * f + (a * d + b * c) * e == a * (c * f + d * e) + b * (c * e - d * f);
  }

  lemma ProductDistributes(x: Complex, y: Complex, z: Complex)
    ensures Product(x, Plus(y, z)) == Plus(Product(x, y), Product(x, z))
  {
    var (a, b, c, d, e, f) := (x.re, x.im, y.re, y.im, z.re, z.im);
    assert a * (c + e) - b * (d + f) == (a * c - b * d) + (a * e - b * f);
    assert a * (d + f) + b * (c + e) == (a * d + b * c) + (a * f + b * e);
  }

  lemma ProductCommutes(x: Complex, y: Complex)
    ensures Product(x, y) == Product(y, x) && Product(ONE, x) == x
  {
    assert x.re * y.re == y.re * x.re && x.im * y.im == y.im * x.im;
  }

  lemma SumLaws(x: Complex, y: Complex, z: Complex)
    ensures Plus(x, y) == Plus(y, x) && Plus(Plus(x, y), z) == Plus(x, Plus(y, z))
    ensures Plus(x, Negate(x)) == ZERO && Plus(ZERO, x) == x
  {
  }

  /** The complex numbers are a commutative ring. */
  lemma ComplexLaws()
    ensures ComplexRing().Laws()
  {
    hide Plus, Negate, Product;
    var R := ComplexRing();
    assert R.AddCommutes() by { forall x, y ensures R.add(x, y) == R.add(y, x) { SumLaws(x, y, y); } }
    assert R.AddAssociates() by {
      forall x, y, z ensures R.add(R.add(x, y), z) == R.add(x, R.add(y, z)) { SumLaws(x, y, z); }
    }
    assert R.AddInverts() by {
      forall x ensures R.add(x, R.neg(x)) == R.zero && R.add(R.zero, x) == x { SumLaws(x, x, x); }
    }
    assert R.MulCommutes() by { forall x, y ensures R.mul(x, y) == R.mul(y, x) { ProductCommutes(x, y); } }
    assert R.MulAssociates() by {
      forall x, y, z ensures R.mul(R.mul(x, y), z) == R.mul(x, R.mul(y, z)) { ProductAssociates(x, y, z); }
    }
    assert R.MulHasOne() by { forall x ensures R.mul(R.one, x) == x { ProductCommutes(x, x); } }
    assert R.MulDistributes() by {
      forall x, y, z ensures R.mul(x, R.add(y, z)) == R.add(R.mul(x, y), R.mul(x, z)) { ProductDistributes(x, y, z); }
    }
  }

  /** The whole numbers sit inside the complex numbers. */
  lemma FromIntIsHomomorphism(m: int, n: int)
    ensures FromInt(0) == ZERO && FromInt(1) == ONE
    ensures Plus(FromInt(m), FromInt(n)) == FromInt(m + n)
    ensures Product(FromInt(m), FromInt(n)) == FromInt(m * n)
  {
    assert (m as real) * (n as real) == (m * n) as real;
  }

  lemma {:induction false} TimesIsProduct(n: nat, x: Complex)
    ensures ComplexRing().Times(n, x) == Product(FromInt(n), x)
  {
    if n > 0 {
      TimesIsProduct(n - 1, x);
      assert FromInt(n) == Plus(FromInt(n - 1), ONE);
      ProductDistributes(x, FromInt(n - 1), ONE);
      ProductCommutes(x, FromInt(n - 1));
      ProductCommutes(x, FromInt(n));
      ProductCommutes(x, ONE);
    }
  }
}
