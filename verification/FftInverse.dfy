/** The inverse-configured transform of the forward-configured transform is n times the input. */
module FftInverse {
  import opened Complex
  import opened Sums
  import opened Twiddles
  import opened Integers
  import opened Fourier
  import opened KissFft

  /** The tables kiss_fft_alloc builds for the two directions. */
  ghost predicate ConjugateTables(a: seq<Cpx>, b: seq<Cpx>) {
    |a| == |b| && forall i | 0 <= i < |a| :: b[i] == Conj(a[i])
  }

  lemma AllocTablesConjugate(turn: int -> Cpx, n: int, a: seq<Cpx>, b: seq<Cpx>)
    requires n > 0 && IsTurn(turn, n) && IsTableOf(a, turn, false, n) && IsTableOf(b, turn, true, n)
    ensures ConjugateTables(a, b) && ConjugateTables(b, a)
  {
    forall i | 0 <= i < n ensures b[i] == Conj(a[i]) {
      assert TurnNegates(turn, i);
    }
  }

  lemma WOfConjugate(a: seq<Cpx>, b: seq<Cpx>, inverse: bool, t: int)
    requires ValidTwiddles(a, inverse) && ConjugateTables(a, b)
    ensures W(b, t) == W(a, -t)
  {
    WConj(a, inverse, t);
  }

  /** The terms of a geometric sum over one full turn. */
  ghost function Powers(tw: seq<Cpx>, d: int): int -> Cpx {
    k => W(tw, d * k)
  }

  lemma {:induction false} SumOfOnes(f: int -> Cpx, n: nat)
    requires forall k :: 0 <= k < n ==> f(k) == ONE
    ensures Sum(f, n) == Cpx(n as real, 0.0)
  {
    if n > 0 {
      SumOfOnes(f, n - 1);
    }
  }

  lemma SumRotated(z: int -> Cpx, n: nat)
    requires z(n) == z(0)
    ensures Sum(Shift(z, 1), n) == Sum(z, n)
  {
    SumSplit(z, 1, n);
    assert Sum(z, n + 1) == Add(Sum(z, n), z(n));
    assert Sum(z, 1) == Add(Sum(z, 0), z(0)) == z(0);
  }

  lemma RotatedTerm(tw: seq<Cpx>, inverse: bool, d: int, k: int)
    requires ValidTwiddles(tw, inverse)
    ensures Mul(Powers(tw, d)(k), W(tw, d)) == Shift(Powers(tw, d), 1)(k)
  {
    hide Mul, ValidTwiddles, W;
    assert d * (k + 1) == d * k + d;
    WAdd(tw, inverse, d * k, d);
  }

  lemma FullTurn(tw: seq<Cpx>, d: int)
    requires |tw| > 0
    ensures Powers(tw, d)(|tw|) == Powers(tw, d)(0)
  {
    hide W;
    WPeriod(tw, 0, d);
    assert d * |tw| == |tw| * d && d * 0 == 0;
  }

  /** Multiplying by the ratio rotates the terms of the geometric sum. */
  lemma RatioKeepsSum(tw: seq<Cpx>, inverse: bool, d: int)
    requires ValidTwiddles(tw, inverse)
    ensures Mul(Sum(Powers(tw, d), |tw|), W(tw, d)) == Sum(Powers(tw, d), |tw|)
  {
    assert |tw| > 0;
    hide *;
    var z, n, w := Powers(tw, d), |tw|, W(tw, d);
    var scaled := k => Mul(z(k), w);
    SumScale(z, w, n);
    forall k | 0 <= k < n ensures scaled(k) == Shift(z, 1)(k) {
      RotatedTerm(tw, inverse, d, k);
    }
    SumCongruent(scaled, Shift(z, 1), n);
    FullTurn(tw, d);
    SumRotated(z, n);
  }

  /** Orthogonality of the table. */
  lemma Orthogonality(tw: seq<Cpx>, inverse: bool, d: int)
    requires ValidTwiddles(tw, inverse)
    ensures Sum(Powers(tw, d), |tw|) == if d % |tw| == 0 then Cpx(|tw| as real, 0.0) else ZERO
  {
    assert |tw| > 0;
    hide Mul, ValidTwiddles, W;
    var z, n := Powers(tw, d), |tw|;
    WUnity(tw, inverse, d);
    if d % n == 0 {
      forall k | 0 <= k < n ensures z(k) == ONE {
        PowerOfUnity(tw, inverse, d, k);
      }
      SumOfOnes(z, n);
    } else {
      var s := Sum(z, n);
      RatioKeepsSum(tw, inverse, d);
      SubDistributesRight(s, W(tw, d));
      NotOne(W(tw, d));
      NoZeroDivisors(s, Sub(W(tw, d), ONE));
    }
  }

  lemma PowerOfUnity(tw: seq<Cpx>, inverse: bool, d: int, k: int)
    requires ValidTwiddles(tw, inverse) && d % |tw| == 0
    ensures W(tw, d * k) == ONE
  {
    assert |tw| > 0;
    hide *;
    MultipleOf(d, k, |tw|);
    WUnity(tw, inverse, d * k);
  }

  lemma NotOne(a: Cpx)
    requires a != ONE
    ensures Sub(a, ONE) != ZERO
  {
  }

  lemma SubDistributesRight(a: Cpx, b: Cpx)
    ensures Mul(a, Sub(b, ONE)) == Sub(Mul(a, b), a)
  {
  }

  /** Entry (k, j) of the double sum that the round trip expands to. */
  ghost function Matrix(x: seq<Cpx>, tw: seq<Cpx>, l: int): (int, int) -> Cpx {
    (k, j) => Mul(At(x, j), W(tw, (j - l) * k))
  }

  lemma OuterTerm(x: seq<Cpx>, a: seq<Cpx>, b: seq<Cpx>, inverse: bool, l: int, k: int)
    requires ValidTwiddles(a, inverse) && ConjugateTables(a, b) && 0 <= k < |a|
    ensures DftTerm(Dft(x, a), b, l)(k) == RowSums(Matrix(x, a, l), |a|)(k)
  {
    hide Mul, ValidTwiddles, W;
    var f, c := DftTerm(x, a, k), W(b, k * l);
    WOfConjugate(a, b, inverse, k * l);
    SumScale(f, c, |a|);
    forall j: int ensures Mul(f(j), c) == Matrix(x, a, l)(k, j) {
      assert (j - l) * k == j * k + -(k * l);
      WAdd(a, inverse, j * k, -(k * l));
      MulAssoc(At(x, j), W(a, j * k), c);
    }
    SumCongruent(j => Mul(f(j), c), j => Matrix(x, a, l)(k, j), |a|);
  }

  lemma InnerSum(x: seq<Cpx>, tw: seq<Cpx>, inverse: bool, l: int, j: int)
    requires ValidTwiddles(tw, inverse) && 0 <= l < |tw| && 0 <= j < |tw|
    ensures ColSums(Matrix(x, tw, l), |tw|)(j)
         == if j == l then Mul(At(x, l), Cpx(|tw| as real, 0.0)) else ZERO
  {
    hide Mul, ValidTwiddles, W;
    var n, z := |tw|, Powers(tw, j - l);
    SumScale(z, At(x, j), n);
    forall k: int ensures Mul(z(k), At(x, j)) == Matrix(x, tw, l)(k, j) {
      MulComm(z(k), At(x, j));
    }
    SumCongruent(k => Mul(z(k), At(x, j)), k => Matrix(x, tw, l)(k, j), n);
    Orthogonality(tw, inverse, j - l);
    if j > l {
      DivModUnique(j - l, n, 0, j - l);
    } else if j < l {
      DivModUnique(j - l, n, -1, j - l + n);
    }
    MulComm(Sum(z, n), At(x, j));
    MulUnits(At(x, j));
  }

  /** Transforming with one table and then with its conjugate multiplies every sample by n. */
  lemma RoundTrip(x: seq<Cpx>, a: seq<Cpx>, b: seq<Cpx>, inverse: bool)
    requires ValidTwiddles(a, inverse) && ConjugateTables(a, b) && |x| == |a|
    ensures Dft(Dft(x, a), b) == seq(|x|, l requires 0 <= l < |x| => Scale(x[l], |x| as real))
  {
    hide Mul, ValidTwiddles, W;
    var n := |a|;
    forall l | 0 <= l < n ensures Dft(Dft(x, a), b)[l] == Scale(x[l], n as real) {
      var g := Matrix(x, a, l);
      forall k | 0 <= k < n ensures DftTerm(Dft(x, a), b, l)(k) == RowSums(g, n)(k) {
        OuterTerm(x, a, b, inverse, l, k);
      }
      SumCongruent(DftTerm(Dft(x, a), b, l), RowSums(g, n), n);
      SumSwap(g, n, n);
      forall j | 0 <= j < n
        ensures ColSums(g, n)(j) == if j == l then Mul(At(x, l), Cpx(n as real, 0.0)) else ZERO
      {
        InnerSum(x, a, inverse, l, j);
      }
      SumSingle(ColSums(g, n), n, l);
      MulByReal(x[l], n as real);
    }
  }

  lemma MulByReal(a: Cpx, s: real)
    ensures Mul(a, Cpx(s, 0.0)) == Scale(a, s)
  {
  }

  /** Both orders, for the states that kiss_fft_alloc returns. */
  lemma AllocatedRoundTrip(turn: int -> Cpx, n: int, fw: seq<Cpx>, inv: seq<Cpx>, x: seq<Cpx>)
    requires n > 0 && IsTurn(turn, n) && IsTableOf(fw, turn, false, n) && IsTableOf(inv, turn, true, n)
    requires |x| == n
    ensures Dft(Dft(x, fw), inv) == seq(n, l requires 0 <= l < n => Scale(x[l], n as real))
    ensures Dft(Dft(x, inv), fw) == seq(n, l requires 0 <= l < n => Scale(x[l], n as real))
  {
    hide IsTurn, Dft;
    AllocTablesConjugate(turn, n, fw, inv);
    TableIsValid(fw, turn, false, n);
    TableIsValid(inv, turn, true, n);
    RoundTrip(x, fw, inv, false);
    RoundTrip(x, inv, fw, true);
  }
}
