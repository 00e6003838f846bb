/** Exact complex arithmetic: the `kiss_fft_cpx` pairs and the non-FIXED_POINT
    macros of `_kiss_fft_guts.h`, over Dafny's `real`.

    Proofs that use these operations at scale hide their bodies and reason from
    the ring laws below, so that no nonlinear real term reaches the solver. */
module Complex {

  datatype Cpx = Cpx(r: real, i: real)

  const ZERO := Cpx(0.0, 0.0)
  const ONE := Cpx(1.0, 0.0)
  /** The imaginary unit and its conjugate. */
  const IMAG := Cpx(0.0, 1.0)

  /** C_ADD and C_ADDTO */
  function Add(a: Cpx, b: Cpx): Cpx { Cpx(a.r + b.r, a.i + b.i) }

  /** C_SUB and C_SUBFROM */
  function Sub(a: Cpx, b: Cpx): Cpx { Cpx(a.r - b.r, a.i - b.i) }

  /** C_MUL */
  function Mul(a: Cpx, b: Cpx): Cpx { Cpx(a.r * b.r - a.i * b.i, a.r * b.i + a.i * b.r) }

  /** S_MUL */
  function SMul(x: real, y: real): real { x * y }

  /** C_MULBYSCALAR */
  function Scale(a: Cpx, s: real): Cpx { Cpx(SMul(a.r, s), SMul(a.i, s)) }

  function Neg(a: Cpx): Cpx { Cpx(-a.r, -a.i) }

  function Conj(a: Cpx): Cpx { Cpx(a.r, -a.i) }

  lemma MulAssoc(a: Cpx, b: Cpx, c: Cpx)
    ensures Mul(Mul(a, b), c) == Mul(a, Mul(b, c))
  {
  }

  lemma MulComm(a: Cpx, b: Cpx)
    ensures Mul(a, b) == Mul(b, a)
  {
  }

  lemma MulDistributes(a: Cpx, b: Cpx, c: Cpx)
    ensures Mul(a, Add(b, c)) == Add(Mul(a, b), Mul(a, c))
    ensures Mul(Add(b, c), a) == Add(Mul(b, a), Mul(c, a))
  {
  }

  lemma MulUnits(a: Cpx)
    ensures Mul(a, ONE) == a == Mul(ONE, a)
    ensures Mul(a, ZERO) == ZERO == Mul(ZERO, a)
  {
  }

  lemma MulParts(a: Cpx, b: Cpx)
    ensures Mul(a, b) == Cpx(SMul(a.r, b.r) - SMul(a.i, b.i), SMul(a.r, b.i) + SMul(a.i, b.r))
    ensures Mul(a, Conj(b)) == Cpx(SMul(a.r, b.r) + SMul(a.i, b.i), SMul(a.i, b.r) - SMul(a.r, b.i))
  {
  }

  lemma SMulSums(x: real, y: real, z: real)
    ensures SMul(x + y, z) == SMul(x, z) + SMul(y, z)
    ensures SMul(x - y, z) == SMul(x, z) - SMul(y, z)
  {
  }

  /** The products with a twiddle entry and its conjugate share their real factors. */
  lemma ConjugatePair(a: Cpx, b: Cpx, y: Cpx)
    ensures var s, d := Add(a, b), Sub(a, b);
            && Add(Mul(a, y), Mul(b, Conj(y)))
               == Cpx(SMul(s.r, y.r) - SMul(d.i, y.i), SMul(s.i, y.r) + SMul(d.r, y.i))
            && Add(Mul(a, Conj(y)), Mul(b, y))
               == Cpx(SMul(s.r, y.r) + SMul(d.i, y.i), SMul(s.i, y.r) - SMul(d.r, y.i))
  {
    hide Mul, SMul;
    MulParts(a, y);
    MulParts(b, y);
    SMulSums(a.r, b.r, y.r);
    SMulSums(a.i, b.i, y.i);
    SMulSums(a.i, b.i, y.r);
    SMulSums(a.r, b.r, y.i);
  }

  lemma SMulHalf(x: real)
    ensures SMul(x, -0.5) == -(x * 0.5)
  {
  }

  /** Regrouping used whenever a twiddle factor is split in two. */
  lemma MulRegroup(a: Cpx, b: Cpx, c: Cpx)
    ensures Mul(a, Mul(b, c)) == Mul(Mul(a, b), c) == Mul(Mul(a, c), b)
  {
    hide *;
    MulAssoc(a, b, c);
    MulAssoc(a, c, b);
    MulComm(b, c);
  }

  lemma ConjMul(a: Cpx, b: Cpx)
    ensures Conj(Mul(a, b)) == Mul(Conj(a), Conj(b))
  {
  }

  /** |a|^2 */
  ghost function SquaredNorm(a: Cpx): real { Product(a.r, a.r) + Product(a.i, a.i) }

  ghost function Product(x: real, y: real): real { x * y }

  lemma ProductPositive(x: real, y: real)
    requires x > 0.0 && y > 0.0
    ensures Product(x, y) > 0.0
  {
    assert x * y > 0.0;
  }

  lemma SquareSign(x: real, y: real)
    requires x == y
    ensures Product(x, y) >= 0.0
    ensures x != 0.0 ==> Product(x, y) > 0.0
  {
    if x > 0.0 {
      ProductPositive(x, y);
    } else if x < 0.0 {
      ProductPositive(-x, -y);
      assert Product(x, y) == Product(-x, -y);
    }
  }

  lemma NormPositive(a: Cpx)
    requires a != ZERO
    ensures SquaredNorm(a) > 0.0
  {
    hide Product;
    SquareSign(a.r, a.r);
    SquareSign(a.i, a.i);
  }

  lemma ConjTimesSelf(a: Cpx)
    ensures Mul(Conj(a), a) == Cpx(SquaredNorm(a), 0.0)
  {
  }

  lemma ScaledZero(s: real, b: Cpx)
    requires s != 0.0 && Mul(Cpx(s, 0.0), b) == ZERO
    ensures b == ZERO
  {
  }

  /** The complex numbers have no zero divisors. */
  lemma NoZeroDivisors(a: Cpx, b: Cpx)
    requires Mul(a, b) == ZERO
    ensures a == ZERO || b == ZERO
  {
    hide *;
    if a != ZERO {
      ConjTimesSelf(a);
      NormPositive(a);
      MulAssoc(Conj(a), a, b);
      MulUnits(Conj(a));
      ScaledZero(SquaredNorm(a), b);
    }
  }
}
