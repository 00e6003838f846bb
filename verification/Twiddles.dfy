/** What the table built by `kiss_fft_alloc` has to satisfy: it lists the powers
    of a primitive root of unity, exp(-2*pi*i*t/n), or their conjugates in an
    inverse-configured state. */
module Twiddles {
  import opened Complex
  import opened Integers

  /** The table is multiplicative at the pair (i, j). */
  ghost predicate MultiplicativeAt(tw: seq<Cpx>, i: int, j: int)
    requires 0 <= i < |tw| && 0 <= j < |tw|
  {
    tw[(i + j) % |tw|] == Mul(tw[i], tw[j])
  }

  /** Negating the exponent conjugates the entry. */
  ghost predicate ConjugateAt(tw: seq<Cpx>, i: int)
    requires 0 <= i < |tw|
  {
    tw[-i % |tw|] == Conj(tw[i])
  }

  /** The only entry equal to one is the first. */
  ghost predicate PrimitiveAt(tw: seq<Cpx>, i: int)
    requires 0 <= i < |tw|
  {
    tw[i] == ONE <==> i == 0
  }

  ghost predicate ValidTwiddles(tw: seq<Cpx>, inverse: bool) {
    && |tw| > 0
    && (forall i, j | 0 <= i < |tw| && 0 <= j < |tw| :: MultiplicativeAt(tw, i, j))
    && (forall i | 0 <= i < |tw| :: ConjugateAt(tw, i))
    && (forall i | 0 <= i < |tw| :: PrimitiveAt(tw, i))
    && (|tw| % 4 == 0 ==> tw[|tw| / 4] == if inverse then IMAG else Conj(IMAG))
  }

  /** The table as a periodic function of any integer exponent. */
  function W(tw: seq<Cpx>, t: int): Cpx {
    if |tw| == 0 then ONE else tw[t % |tw|]
  }

  /** The exponents of the products that occur in a transform. */
  lemma WAdd(tw: seq<Cpx>, inverse: bool, a: int, b: int)
    requires ValidTwiddles(tw, inverse)
    ensures W(tw, a + b) == Mul(W(tw, a), W(tw, b))
  {
    hide Mul;
    ModAdd(a, b, |tw|);
    assert MultiplicativeAt(tw, a % |tw|, b % |tw|);
  }

  lemma WConj(tw: seq<Cpx>, inverse: bool, a: int)
    requires ValidTwiddles(tw, inverse)
    ensures W(tw, -a) == Conj(W(tw, a))
  {
    hide Mul, Conj;
    ModSub(0, a, |tw|);
    assert 0 % |tw| == 0;
    assert ConjugateAt(tw, a % |tw|);
  }

  lemma WPeriod(tw: seq<Cpx>, a: int, c: int)
    requires |tw| > 0
    ensures W(tw, a + |tw| * c) == W(tw, a)
  {
    ModShift(a, c, |tw|);
  }

  /** Reflecting an exponent within one period conjugates the entry. */
  lemma WReflect(tw: seq<Cpx>, inverse: bool, a: int)
    requires ValidTwiddles(tw, inverse)
    ensures W(tw, |tw| - a) == Conj(W(tw, a))
  {
    WConj(tw, inverse, a);
    WPeriod(tw, -a, 1);
  }

  lemma WUnity(tw: seq<Cpx>, inverse: bool, a: int)
    requires ValidTwiddles(tw, inverse)
    ensures W(tw, a) == ONE <==> a % |tw| == 0
  {
    assert PrimitiveAt(tw, a % |tw|);
  }

  lemma WZero(tw: seq<Cpx>, inverse: bool)
    requires ValidTwiddles(tw, inverse)
    ensures W(tw, 0) == ONE == W(tw, |tw|)
  {
    WUnity(tw, inverse, 0);
    WUnity(tw, inverse, |tw|);
  }

  /** If z*z == 1 and z is not 1 then z is -1. */
  lemma SquareRootOfUnity(z: Cpx)
    requires Mul(z, z) == ONE && z != ONE
    ensures z == Neg(ONE)
  {
    assert Mul(Sub(z, ONE), Add(z, ONE)) == ZERO;
    NoZeroDivisors(Sub(z, ONE), Add(z, ONE));
  }

  /** The half-turn entry. */
  lemma WHalf(tw: seq<Cpx>, inverse: bool, h: int)
    requires ValidTwiddles(tw, inverse) && |tw| == 2 * h
    ensures W(tw, h) == Neg(ONE)
  {
    assert |tw| > 0;
    hide *;
    DivModUnique(h, |tw|, 0, h);
    WAdd(tw, inverse, h, h);
    WZero(tw, inverse);
    WUnity(tw, inverse, h);
    SquareRootOfUnity(W(tw, h));
  }

  /** The third-of-a-turn entries: real part -1/2, and conjugate to each other. */
  lemma WThird(tw: seq<Cpx>, inverse: bool, h: int)
    requires ValidTwiddles(tw, inverse) && |tw| == 3 * h
    ensures W(tw, h).r == -0.5
    ensures W(tw, 2 * h) == Conj(W(tw, h)) && W(tw, 4 * h) == W(tw, h)
  {
    assert |tw| > 0;
    hide *;
    DivModUnique(h, |tw|, 0, h);
    var z := W(tw, h);
    WReflect(tw, inverse, h);
    WPeriod(tw, h, 1);
    WAdd(tw, inverse, h, h);
    WAdd(tw, inverse, 2 * h, h);
    WZero(tw, inverse);
    WUnity(tw, inverse, h);
    CubeRootOfUnity(z);
  }

  lemma CubeRootOfUnity(z: Cpx)
    requires Mul(z, z) == Conj(z) && Mul(Conj(z), z) == ONE && z != ONE
    ensures z.r == -0.5
  {
    var s := Add(Add(ONE, z), Conj(z));
    assert Mul(Sub(z, ONE), s) == ZERO by {
      hide Mul;
      MulDistributes(z, Add(ONE, z), Conj(z));
      MulDistributes(z, ONE, z);
      MulUnits(z);
      MulUnits(s);
      MulComm(z, Conj(z));
      SubDistributes(z, ONE, s);
    }
    NoZeroDivisors(Sub(z, ONE), s);
  }

  lemma SubDistributes(a: Cpx, b: Cpx, c: Cpx)
    ensures Mul(Sub(a, b), c) == Sub(Mul(a, c), Mul(b, c))
  {
  }

  /** The quarter-turn entries. */
  lemma WQuarter(tw: seq<Cpx>, inverse: bool, h: int)
    requires ValidTwiddles(tw, inverse) && |tw| == 4 * h
    ensures W(tw, h) == if inverse then IMAG else Conj(IMAG)
    ensures W(tw, 2 * h) == Neg(ONE)
    ensures W(tw, 3 * h) == Conj(W(tw, h))
  {
    assert h == |tw| / 4 && |tw| % 4 == 0;
    assert W(tw, h) == tw[h];
    hide *;
    WHalf(tw, inverse, 2 * h);
    WReflect(tw, inverse, h);
  }

  /** The fifth-of-a-turn entries come in conjugate pairs. */
  lemma WFifth(tw: seq<Cpx>, inverse: bool, h: int)
    requires ValidTwiddles(tw, inverse) && |tw| == 5 * h
    ensures W(tw, 3 * h) == Conj(W(tw, 2 * h)) && W(tw, 4 * h) == Conj(W(tw, h))
  {
    hide *;
    WReflect(tw, inverse, h);
    WReflect(tw, inverse, 2 * h);
    assert |tw| - h == 4 * h && |tw| - 2 * h == 3 * h;
  }
}
