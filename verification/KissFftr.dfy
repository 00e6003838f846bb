/** `kiss_fftr.c`: the transform of 2n real samples through a complex transform of length n. */
module KissFftr {
  import opened Common
  import opened Complex
  import opened Sums
  import opened Twiddles
  import opened Integers
  import opened Fourier
  import opened FftWork
  import opened FftFactor
  import opened KissFft
  import opened FftInverse

  // ----- Tables of the three lengths n, 2n and 4n -----

  /** turn(t) stands for exp(2*pi*i*t/(4n)); the turns of length n. */
  function SubTurn(turn: int -> Cpx): int -> Cpx {
    t => turn(4 * t)
  }

  /** The table of the length-2n transform that the bins refer to. */
  function FullTable(turn: int -> Cpx, n: nat): seq<Cpx> {
    seq(2 * n, t => turn(-2 * t))
  }

  lemma QuadrupleMod(a: int, n: int)
    requires n > 0
    ensures (4 * a) % (4 * n) == 0 <==> a % n == 0
  {
    var q, r := a / n, a % n;
    assert 4 * a == q * (4 * n) + 4 * r;
    DivModUnique(4 * a, 4 * n, q, 4 * r);
  }

  lemma DoubleMod(a: int, n: int)
    requires n > 0
    ensures (2 * a) % (2 * n) == 2 * (a % n)
  {
    var q, r := a / n, a % n;
    assert 2 * a == q * (2 * n) + 2 * r;
    DivModUnique(2 * a, 2 * n, q, 2 * r);
  }

  lemma SubTurnIsTurn(turn: int -> Cpx, n: nat)
    requires n > 0 && IsTurn(turn, 4 * n)
    ensures IsTurn(SubTurn(turn), n)
  {
    var sub := SubTurn(turn);
    hide Mul;
    forall a, b ensures TurnsAdd(sub, a, b) {
      assert TurnsAdd(turn, 4 * a, 4 * b);
      assert 4 * (a + b) == 4 * a + 4 * b;
    }
    forall a ensures TurnNegates(sub, a) {
      assert TurnNegates(turn, 4 * a);
    }
    forall a ensures TurnCloses(sub, a, n) {
      assert TurnCloses(turn, 4 * a, 4 * n);
      QuadrupleMod(a, n);
    }
    if n % 4 == 0 {
      assert 4 * (n / 4) == n && (4 * n) / 4 == n && (4 * n) % 4 == 0;
    }
  }

  /** The turns of length 2n. */
  function HalfTurn(turn: int -> Cpx): int -> Cpx {
    t => turn(2 * t)
  }

  lemma HalfTurnIsTurn(turn: int -> Cpx, n: nat)
    requires n > 0 && IsTurn(turn, 4 * n)
    ensures IsTurn(HalfTurn(turn), 2 * n)
  {
    var half := HalfTurn(turn);
    hide Mul;
    forall a, b ensures TurnsAdd(half, a, b) {
      assert TurnsAdd(turn, 2 * a, 2 * b);
      assert 2 * (a + b) == 2 * a + 2 * b;
    }
    forall a ensures TurnNegates(half, a) {
      assert TurnNegates(turn, 2 * a);
    }
    forall a ensures TurnCloses(half, a, 2 * n) {
      assert TurnCloses(turn, 2 * a, 4 * n);
      DoubleMod(a, 2 * n);
    }
    if (2 * n) % 4 == 0 {
      assert 2 * ((2 * n) / 4) == n && (4 * n) / 4 == n && (4 * n) % 4 == 0;
    }
  }

  lemma FullTableIsTable(turn: int -> Cpx, n: nat)
    requires n > 0 && IsTurn(turn, 4 * n)
    ensures ValidTwiddles(FullTable(turn, n), false)
  {
    HalfTurnIsTurn(turn, n);
    var tw, half := FullTable(turn, n), HalfTurn(turn);
    forall t | 0 <= t < 2 * n ensures tw[t] == half(-t) {
      assert 2 * -t == -2 * t;
    }
    hide IsTurn, ValidTwiddles;
    TableIsValid(tw, half, false, 2 * n);
  }

  /** The table of length n is every second entry of the table of length 2n. */
  lemma EverySecond(turn: int -> Cpx, n: nat, sub: seq<Cpx>, t: int)
    requires n > 0 && IsTableOf(sub, SubTurn(turn), false, n)
    ensures W(sub, t) == W(FullTable(turn, n), 2 * t)
  {
    DoubleMod(t, n);
    var r := t % n;
    assert FullTable(turn, n)[2 * r] == turn(-2 * (2 * r));
    assert -2 * (2 * r) == 4 * -r;
  }

  // ----- Even and odd samples -----

  /** The real samples as complex ones. */
  function AsComplex(x: seq<real>): seq<Cpx> {
    seq(|x|, i requires 0 <= i < |x| => Cpx(x[i], 0.0))
  }

  /** Pairs of samples as complex numbers: timedata read as kiss_fft_cpx. */
  function Packed(x: seq<real>, n: nat): seq<Cpx>
    requires |x| == 2 * n
  {
    seq(n, j requires 0 <= j < n => Cpx(x[2 * j], x[2 * j + 1]))
  }

  /** Bin k of the even and of the odd samples. */
  ghost function Even(x: seq<real>, n: nat, tw: seq<Cpx>, k: int): Cpx {
    Bin(AsComplex(x), 0, 2, n, tw, 2, k)
  }

  ghost function Odd(x: seq<real>, n: nat, tw: seq<Cpx>, k: int): Cpx {
    Bin(AsComplex(x), 1, 2, n, tw, 2, k)
  }

  /** Bin k of the 2n-point transform from the bins of the even and odd samples. */
  lemma RealDecimation(x: seq<real>, n: nat, tw: seq<Cpx>, k: nat)
    requires n > 0 && |x| == |tw| == 2 * n && ValidTwiddles(tw, false)
    ensures DftBin(AsComplex(x), tw, k) == Add(Even(x, n, tw, k % n), Mul(Odd(x, n, tw, k % n), W(tw, k)))
  {
    assert |tw| > 0;
    hide *;
    DecimatedInTwo(x, n, tw, k);
    SumTwo(HalfPart(AsComplex(x), n, tw, k));
    WZero(tw, false);
    HalvesOf(x, n, tw, k, k % n);
    MulUnits(Even(x, n, tw, k % n));
  }

  lemma DecimatedInTwo(x: seq<real>, n: nat, tw: seq<Cpx>, k: nat)
    requires n > 0 && |x| == |tw| == 2 * n && ValidTwiddles(tw, false)
    ensures DftBin(AsComplex(x), tw, k) == Sum(HalfPart(AsComplex(x), n, tw, k), 2)
  {
    assert |AsComplex(x)| == 2 * n;
    hide *;
    var c := AsComplex(x);
    assert c[..|tw|] == c;
    BinIsDftBin(c, tw, k);
    TwoParts(c, n, tw, k, HalfPart(c, n, tw, k));
  }

  lemma TwoParts(c: seq<Cpx>, n: nat, tw: seq<Cpx>, k: nat, part: int -> Cpx)
    requires n > 0 && |tw| == 2 * n && ValidTwiddles(tw, false) && part == HalfPart(c, n, tw, k)
    ensures Bin(c, 0, 1, 2 * n, tw, 1, k) == Sum(part, 2)
  {
    hide *;
    forall q | 0 <= q < 2
      ensures part(q) == Mul(Bin(c, 0 + q * 1, 1 * 2, n, tw, 1 * 2, k % n), W(tw, q * 1 * k))
    {
      HalfPartMatches(c, n, tw, k, q);
    }
    DecimationInTime(c, 0, 1, 2, n, tw, false, 1, k, part);
  }

  ghost function HalfPart(c: seq<Cpx>, n: nat, tw: seq<Cpx>, k: int): int -> Cpx
    requires n > 0
  {
    q => Mul(Bin(c, q, 2, n, tw, 2, k % n), W(tw, q * k))
  }

  lemma HalfPartMatches(c: seq<Cpx>, n: nat, tw: seq<Cpx>, k: int, q: int)
    requires n > 0
    ensures HalfPart(c, n, tw, k)(q) == Mul(Bin(c, 0 + q * 1, 1 * 2, n, tw, 1 * 2, k % n), W(tw, q * 1 * k))
  {
    hide Mul, Bin, W;
  }

  lemma HalvesAre(x: seq<real>, n: nat, tw: seq<Cpx>, k: int)
    ensures Even(x, n, tw, k) == Bin(AsComplex(x), 0, 2, n, tw, 2, k)
    ensures Odd(x, n, tw, k) == Bin(AsComplex(x), 1, 2, n, tw, 2, k)
  {
  }

  lemma HalvesOf(x: seq<real>, n: nat, tw: seq<Cpx>, k: int, r: int)
    requires n > 0 && r == k % n
    ensures HalfPart(AsComplex(x), n, tw, k)(0) == Mul(Even(x, n, tw, r), W(tw, 0))
    ensures HalfPart(AsComplex(x), n, tw, k)(1) == Mul(Odd(x, n, tw, r), W(tw, k))
  {
    hide Mul, Bin, W;
    assert 0 * k == 0;
  }

  lemma SumTwo(f: int -> Cpx)
    ensures Sum(f, 2) == Add(f(0), f(1))
  {
    assert Sum(f, 1) == Add(Sum(f, 0), f(0));
    AddZero(f(0));
  }

  lemma AddZero(a: Cpx)
    ensures Add(ZERO, a) == a
  {
  }

  // ----- The bins of the packed samples -----

  lemma CombinedSum(f: int -> Cpx, a: int -> Cpx, b: int -> Cpx, u: Cpx, n: nat)
    requires forall j | 0 <= j < n :: f(j) == Add(a(j), Mul(b(j), u))
    ensures Sum(f, n) == Add(Sum(a, n), Mul(Sum(b, n), u))
  {
    hide Mul, Add;
    var c := j => Mul(b(j), u);
    SumScale(b, u, n);
    SumAdd(a, c, n);
    SumCongruent(f, j => Add(a(j), c(j)), n);
  }

  /** (a + b*u) * w */
  lemma CombinedTerm(a: Cpx, b: Cpx, u: Cpx, w: Cpx)
    ensures Mul(Add(a, Mul(b, u)), w) == Add(Mul(a, w), Mul(Mul(b, w), u))
  {
    hide *;
    MulDistributes(w, a, Mul(b, u));
    MulComm(w, a);
    MulComm(w, Mul(b, u));
    MulRegroup(w, b, u);
    MulRegroup(b, u, w);
    MulComm(Mul(b, u), w);
    MulAssoc(b, u, w);
  }

  lemma PackedPair(x: seq<real>, n: nat, j: nat)
    requires |x| == 2 * n && j < n
    ensures At(Packed(x, n), j) == Add(At(AsComplex(x), 0 + j * 2), Mul(At(AsComplex(x), 1 + j * 2), IMAG))
    ensures Conj(At(Packed(x, n), j)) == Add(At(AsComplex(x), 0 + j * 2), Mul(At(AsComplex(x), 1 + j * 2), Conj(IMAG)))
  {
  }

  /** The terms of the bins with the entries of the shorter table. */
  lemma SampleTerms(x: seq<real>, n: nat, turn: int -> Cpx, sub: seq<Cpx>, k: int, j: nat)
    requires n > 0 && IsTableOf(sub, SubTurn(turn), false, n)
    ensures var c, tw := AsComplex(x), FullTable(turn, n);
            && Term(c, 0, 2, tw, 2, k)(j) == Mul(At(c, 0 + j * 2), W(sub, j * k))
            && Term(c, 1, 2, tw, 2, k)(j) == Mul(At(c, 1 + j * 2), W(sub, j * k))
  {
    EverySecond(turn, n, sub, j * k);
    assert 2 * (j * k) == 2 * j * k;
    hide Mul, At, AsComplex, FullTable, W;
  }

  lemma DftTermIs(z: seq<Cpx>, tw: seq<Cpx>, k: int, j: int)
    ensures DftTerm(z, tw, k)(j) == Mul(At(z, j), W(tw, j * k))
  {
    hide Mul, At, W;
  }

  lemma PackedTerm(x: seq<real>, n: nat, turn: int -> Cpx, sub: seq<Cpx>, k: int, j: nat)
    requires n > 0 && |x| == 2 * n && IsTableOf(sub, SubTurn(turn), false, n) && j < n
    ensures var c, tw := AsComplex(x), FullTable(turn, n);
            DftTerm(Packed(x, n), sub, k)(j) == Add(Term(c, 0, 2, tw, 2, k)(j), Mul(Term(c, 1, 2, tw, 2, k)(j), IMAG))
  {
    hide *;
    var c := AsComplex(x);
    EverySecond(turn, n, sub, j * k);
    SampleTerms(x, n, turn, sub, k, j);
    DftTermIs(Packed(x, n), sub, k, j);
    PackedPair(x, n, j);
    CombinedTerm(At(c, 0 + j * 2), At(c, 1 + j * 2), IMAG, W(sub, j * k));
  }

  /** Bin k of the packed samples: the two real transforms side by side. */
  lemma PackedBin(x: seq<real>, n: nat, turn: int -> Cpx, sub: seq<Cpx>, k: int)
    requires n > 0 && |x| == 2 * n && IsTableOf(sub, SubTurn(turn), false, n)
    ensures var tw := FullTable(turn, n);
            DftBin(Packed(x, n), sub, k) == Add(Even(x, n, tw, k), Mul(Odd(x, n, tw, k), IMAG))
  {
    hide Mul, Add, W, Packed, AsComplex, FullTable;
    var c, tw := AsComplex(x), FullTable(turn, n);
    var f := DftTerm(Packed(x, n), sub, k);
    var a, b := Term(c, 0, 2, tw, 2, k), Term(c, 1, 2, tw, 2, k);
    forall j | 0 <= j < n ensures f(j) == Add(a(j), Mul(b(j), IMAG)) {
      PackedTerm(x, n, turn, sub, k, j);
    }
    CombinedSum(f, a, b, IMAG, n);
  }

  lemma ReflectedEntry(sub: seq<Cpx>, j: int, k: int)
    requires ValidTwiddles(sub, false)
    ensures Conj(W(sub, j * (|sub| - k))) == W(sub, j * k)
  {
    assert |sub| > 0;
    hide *;
    var n := |sub|;
    WConj(sub, false, j * (n - k));
    assert -(j * (n - k)) == j * k + n * -j;
    WPeriod(sub, j * k, -j);
  }

  lemma ReflectedTerm(x: seq<real>, n: nat, turn: int -> Cpx, sub: seq<Cpx>, k: int, j: nat)
    requires n > 0 && |x| == 2 * n && IsTableOf(sub, SubTurn(turn), false, n) && ValidTwiddles(sub, false) && j < n
    ensures var c, tw := AsComplex(x), FullTable(turn, n);
            Conj(DftTerm(Packed(x, n), sub, n - k)(j))
            == Add(Term(c, 0, 2, tw, 2, k)(j), Mul(Term(c, 1, 2, tw, 2, k)(j), Conj(IMAG)))
  {
    assert |sub| == n;
    hide *;
    var c := AsComplex(x);
    SampleTerms(x, n, turn, sub, k, j);
    DftTermIs(Packed(x, n), sub, n - k, j);
    ReflectedEntry(sub, j, k);
    PackedPair(x, n, j);
    ConjMul(At(Packed(x, n), j), W(sub, j * (n - k)));
    CombinedTerm(At(c, 0 + j * 2), At(c, 1 + j * 2), Conj(IMAG), W(sub, j * k));
  }

  /** The conjugate of bin n - k: the same with the opposite sign. */
  lemma ReflectedBin(x: seq<real>, n: nat, turn: int -> Cpx, sub: seq<Cpx>, k: int)
    requires n > 0 && |x| == 2 * n && IsTableOf(sub, SubTurn(turn), false, n) && ValidTwiddles(sub, false)
    ensures var tw := FullTable(turn, n);
            Conj(DftBin(Packed(x, n), sub, n - k)) == Add(Even(x, n, tw, k), Mul(Odd(x, n, tw, k), Conj(IMAG)))
  {
    hide Mul, Add, W, Packed, AsComplex, FullTable, ValidTwiddles;
    var c, tw := AsComplex(x), FullTable(turn, n);
    var f := DftTerm(Packed(x, n), sub, n - k);
    var g := j => Conj(f(j));
    var a, b := Term(c, 0, 2, tw, 2, k), Term(c, 1, 2, tw, 2, k);
    forall j | 0 <= j < n ensures g(j) == Add(a(j), Mul(b(j), Conj(IMAG))) {
      ReflectedTerm(x, n, turn, sub, k, j);
    }
    SumConj(f, g, n);
    CombinedSum(g, a, b, Conj(IMAG), n);
  }

  // ----- Real samples: reflected bins are conjugate -----

  lemma RealSample(x: seq<real>, i: int)
    ensures Conj(At(AsComplex(x), i)) == At(AsComplex(x), i) && At(AsComplex(x), i).i == 0.0
  {
  }

  lemma ReflectedExponent(tw: seq<Cpx>, n: nat, j: int, k: int)
    requires ValidTwiddles(tw, false) && |tw| == 2 * n
    ensures Conj(W(tw, 2 * j * k)) == W(tw, 2 * j * (n - k))
  {
    assert |tw| > 0;
    hide *;
    WConj(tw, false, 2 * j * k);
    assert 2 * j * (n - k) == -(2 * j * k) + (2 * n) * j;
    WPeriod(tw, -(2 * j * k), j);
  }

  /** Bin n - k of the samples with index base modulo 2 is the conjugate of bin k. */
  lemma HalfReflects(x: seq<real>, n: nat, tw: seq<Cpx>, base: int, k: int)
    requires ValidTwiddles(tw, false) && |tw| == 2 * n
    ensures Conj(Bin(AsComplex(x), base, 2, n, tw, 2, k)) == Bin(AsComplex(x), base, 2, n, tw, 2, n - k)
  {
    hide Mul, W, ValidTwiddles, AsComplex, At;
    var c := AsComplex(x);
    var f, g := Term(c, base, 2, tw, 2, k), Term(c, base, 2, tw, 2, n - k);
    forall j | 0 <= j < n ensures g(j) == Conj(f(j)) {
      RealSample(x, base + j * 2);
      ReflectedExponent(tw, n, j, k);
      ConjMul(At(c, base + j * 2), W(tw, 2 * j * k));
    }
    SumConj(f, g, n);
  }

  lemma {:induction false} SumReal(f: int -> Cpx, n: nat)
    requires forall j | 0 <= j < n :: f(j).i == 0.0
    ensures Sum(f, n).i == 0.0
    decreases n
  {
    if n > 0 {
      SumReal(f, n - 1);
    }
  }

  lemma FirstBinReal(x: seq<real>, n: nat, tw: seq<Cpx>, base: int)
    requires ValidTwiddles(tw, false)
    ensures Bin(AsComplex(x), base, 2, n, tw, 2, 0).i == 0.0
  {
    hide Mul, W, ValidTwiddles, AsComplex, At;
    var c := AsComplex(x);
    var f := Term(c, base, 2, tw, 2, 0);
    WZero(tw, false);
    forall j | 0 <= j < n ensures f(j).i == 0.0 {
      assert 2 * j * 0 == 0;
      RealSample(x, base + j * 2);
      MulUnits(At(c, base + j * 2));
    }
    SumReal(f, n);
  }

  // ----- The bins 0 to n -----

  /** Bin k of the length-2n transform of the real samples. */
  ghost function RealBin(x: seq<real>, turn: int -> Cpx, n: nat, k: int): Cpx {
    DftBin(AsComplex(x), FullTable(turn, n), k)
  }

  lemma EntryOfFullTable(turn: int -> Cpx, n: nat, k: nat)
    requires k < 2 * n
    ensures W(FullTable(turn, n), k) == turn(-2 * k)
  {
    DivModUnique(k, 2 * n, 0, k);
  }

  lemma FirstAndLastBin(x: seq<real>, n: nat, turn: int -> Cpx)
    requires n > 0 && |x| == 2 * n && IsTurn(turn, 4 * n)
    ensures var tw := FullTable(turn, n);
            var e, o := Even(x, n, tw, 0), Odd(x, n, tw, 0);
            && e.i == 0.0 && o.i == 0.0
            && RealBin(x, turn, n, 0) == Cpx(e.r + o.r, 0.0) && RealBin(x, turn, n, n) == Cpx(e.r - o.r, 0.0)
  {
    var tw := FullTable(turn, n);
    FullTableIsTable(turn, n);
    assert |tw| == 2 * n;
    hide *;
    RealBinIs(x, turn, n, 0);
    RealBinIs(x, turn, n, n);
    RealDecimation(x, n, tw, 0);
    RealDecimation(x, n, tw, n);
    DivModUnique(n, n, 1, 0);
    DivModUnique(0, n, 0, 0);
    FirstBinReal(x, n, tw, 0);
    FirstBinReal(x, n, tw, 1);
    HalvesAre(x, n, tw, 0);
    WZero(tw, false);
    WHalf(tw, false, n);
    RealSums(Even(x, n, tw, 0), Odd(x, n, tw, 0));
  }

  lemma RealBinIs(x: seq<real>, turn: int -> Cpx, n: nat, k: int)
    ensures RealBin(x, turn, n, k) == DftBin(AsComplex(x), FullTable(turn, n), k)
  {
    hide DftBin, AsComplex, FullTable;
  }

  lemma RealSums(e: Cpx, o: Cpx)
    requires e.i == 0.0 && o.i == 0.0
    ensures Add(e, Mul(o, ONE)) == Cpx(e.r + o.r, 0.0) && Add(e, Mul(o, Neg(ONE))) == Cpx(e.r - o.r, 0.0)
  {
  }

  /** Bins k and n - k from the even and odd bins k. */
  lemma PairOfBins(x: seq<real>, n: nat, turn: int -> Cpx, k: nat)
    requires n > 0 && |x| == 2 * n && IsTurn(turn, 4 * n) && 0 < k < n
    ensures var tw := FullTable(turn, n);
            var e, o := Even(x, n, tw, k), Mul(Odd(x, n, tw, k), turn(-2 * k));
            RealBin(x, turn, n, k) == Add(e, o) && RealBin(x, turn, n, n - k) == Conj(Sub(e, o))
  {
    var tw := FullTable(turn, n);
    FullTableIsTable(turn, n);
    assert |tw| == 2 * n;
    hide *;
    DivModUnique(k, n, 0, k);
    DivModUnique(n - k, n, 0, n - k);
    RealBinIs(x, turn, n, k);
    RealBinIs(x, turn, n, n - k);
    RealDecimation(x, n, tw, k);
    RealDecimation(x, n, tw, n - k);
    HalfReflects(x, n, tw, 0, k);
    HalfReflects(x, n, tw, 1, k);
    HalvesAre(x, n, tw, k);
    HalvesAre(x, n, tw, n - k);
    EntryOfFullTable(turn, n, k);
    ReflectedRoot(tw, n, k);
    ReflectedSum(Even(x, n, tw, k), Odd(x, n, tw, k), W(tw, k));
  }

  lemma ReflectedRoot(tw: seq<Cpx>, n: nat, k: int)
    requires ValidTwiddles(tw, false) && |tw| == 2 * n
    ensures W(tw, n - k) == Neg(Conj(W(tw, k)))
  {
    hide *;
    WAdd(tw, false, n, -k);
    WConj(tw, false, k);
    WHalf(tw, false, n);
    MinusOneTimes(Conj(W(tw, k)));
  }

  lemma MinusOneTimes(a: Cpx)
    ensures Mul(Neg(ONE), a) == Neg(a)
  {
  }

  lemma ReflectedSum(e: Cpx, o: Cpx, w: Cpx)
    ensures Add(Conj(e), Mul(Conj(o), Neg(Conj(w)))) == Conj(Sub(e, Mul(o, w)))
  {
  }

  // ----- kiss_fftr_alloc -----

  datatype RealState = RealState(substate: FftState, tmpbuf: array<Cpx>, superTwiddles: seq<Cpx>)

  /** What kiss_fftr_alloc sets up; super_twiddles[i] is turned a further quarter back. */
  ghost predicate IsRealState(st: RealState, turn: int -> Cpx, n: nat)
  {
    && n > 0 && st.substate.Valid() && st.substate.nfft == n && st.tmpbuf.Length == n
    && IsTableOf(st.substate.twiddles, SubTurn(turn), st.substate.inverse, n)
    && |st.superTwiddles| == n / 2
    && forall i | 0 <= i < n / 2 ::
         st.superTwiddles[i] == turn(if st.substate.inverse then 2 * (i + 1) + n else -(2 * (i + 1) + n))
  }

  /** None for an odd length (the source reports an error and returns no state). */
  method KissFftrAlloc(nfft: int, inverse: bool, turn: int -> Cpx) returns (st: Option<RealState>)
    requires 2 <= nfft <= INT_MAX && (nfft % 2 == 0 ==> IsTurn(turn, 2 * nfft))
    ensures st.Some? <==> nfft % 2 == 0
    ensures st.Some? ==> IsRealState(st.value, turn, nfft / 2) && st.value.substate.inverse == inverse
    ensures st.Some? ==> fresh(st.value.tmpbuf)
  {
    if nfft % 2 == 1 {
      return None;
    }
    var n := nfft / 2;
    SubTurnIsTurn(turn, n);
    hide IsTurn, ValidTwiddles, FftState.Valid;
    var substate := KissFftAlloc(n, inverse, SubTurn(turn));
    var tmpbuf := new Cpx[n];
    var superTwiddles := [];
    for i := 0 to n / 2
      invariant |superTwiddles| == i
      invariant forall j | 0 <= j < i ::
                  superTwiddles[j] == turn(if inverse then 2 * (j + 1) + n else -(2 * (j + 1) + n))
    {
      var phase := -(2 * (i + 1) + n);
      if inverse {
        phase := phase * -1;
      }
      superTwiddles := superTwiddles + [turn(phase)];
    }
    st := Some(RealState(substate, tmpbuf, superTwiddles));
  }

  // ----- kiss_fftr -----

  /** HALF_OF on both parts */
  function Half(a: Cpx): Cpx { Cpx(a.r * 0.5, a.i * 0.5) }

  /** The two bins computed from the packed bins k and n - k. */
  function UpperBin(zk: Cpx, znk: Cpx, s: Cpx): Cpx {
    Half(Add(Add(zk, Conj(znk)), Mul(Sub(zk, Conj(znk)), s)))
  }

  function LowerBin(zk: Cpx, znk: Cpx, s: Cpx): Cpx {
    Conj(Half(Sub(Add(zk, Conj(znk)), Mul(Sub(zk, Conj(znk)), s))))
  }

  lemma SuperEntry(turn: int -> Cpx, n: int, k: int)
    requires n > 0 && IsTurn(turn, 4 * n)
    ensures turn(-(2 * k + n)) == Mul(turn(-2 * k), Conj(IMAG))
    ensures turn(2 * k + n) == Mul(Conj(turn(-2 * k)), IMAG)
  {
    hide Mul;
    assert TurnsAdd(turn, -2 * k, -n) && TurnsAdd(turn, 2 * k, n);
    assert TurnNegates(turn, n) && TurnNegates(turn, 2 * k) && TurnNegates(turn, -2 * k);
    assert (4 * n) / 4 == n && (4 * n) % 4 == 0;
    assert -(2 * k) == -2 * k && -(-2 * k) == 2 * k;
    assert -2 * k + -n == -(2 * k + n);
  }

  /** (2*o*i) * (w*(-i)) == 2*o*w */
  lemma QuarterTurnsCancel(o: Cpx, w: Cpx)
    ensures Mul(Mul(o, IMAG), Mul(w, Conj(IMAG))) == Mul(o, w)
    ensures Mul(Mul(o, Conj(IMAG)), Mul(w, IMAG)) == Mul(o, w)
  {
  }

  lemma Halves(e: Cpx, p: Cpx)
    ensures Half(Add(Add(e, e), Add(p, p))) == Add(e, p)
    ensures Half(Sub(Add(e, e), Add(p, p))) == Sub(e, p)
  {
  }

  lemma SumAndDifference(e: Cpx, o: Cpx)
    ensures Add(Add(e, Mul(o, IMAG)), Add(e, Mul(o, Conj(IMAG)))) == Add(e, e)
    ensures Sub(Add(e, Mul(o, IMAG)), Add(e, Mul(o, Conj(IMAG)))) == Mul(Add(o, o), IMAG)
  {
  }

  lemma DoubleTimes(o: Cpx, w: Cpx)
    ensures Mul(Add(o, o), w) == Add(Mul(o, w), Mul(o, w))
  {
  }

  lemma ForwardAlgebra(e: Cpx, o: Cpx, w: Cpx)
    ensures var zk, rk, s := Add(e, Mul(o, IMAG)), Add(e, Mul(o, Conj(IMAG))), Mul(w, Conj(IMAG));
            && Half(Add(Add(zk, rk), Mul(Sub(zk, rk), s))) == Add(e, Mul(o, w))
            && Half(Sub(Add(zk, rk), Mul(Sub(zk, rk), s))) == Sub(e, Mul(o, w))
  {
    hide *;
    SumAndDifference(e, o);
    QuarterTurnsCancel(Add(o, o), w);
    DoubleTimes(o, w);
    Halves(e, Mul(o, w));
  }

  /** The pair of bins that one round of the loop writes is the pair of the real transform. */
  lemma RoundIsRight(x: seq<real>, n: nat, turn: int -> Cpx, sub: seq<Cpx>, k: nat)
    requires n > 0 && |x| == 2 * n && IsTurn(turn, 4 * n) && 0 < k < n
    requires IsTableOf(sub, SubTurn(turn), false, n) && ValidTwiddles(sub, false)
    ensures var z, s := Dft(Packed(x, n), sub), turn(-(2 * k + n));
            && |z| == n
            && UpperBin(z[k], z[n - k], s) == RealBin(x, turn, n, k)
            && LowerBin(z[k], z[n - k], s) == RealBin(x, turn, n, n - k)
  {
    PackedBins(x, n, turn, sub, k);
    hide *;
    var z := Dft(Packed(x, n), sub);
    var tw := FullTable(turn, n);
    SuperEntry(turn, n, k);
    PackedBin(x, n, turn, sub, k);
    ReflectedBin(x, n, turn, sub, k);
    PairOfBins(x, n, turn, k);
    BinsFrom(z[k], z[n - k], Even(x, n, tw, k), Odd(x, n, tw, k), turn(-2 * k));
  }

  lemma BinsFrom(zk: Cpx, znk: Cpx, e: Cpx, o: Cpx, w: Cpx)
    requires zk == Add(e, Mul(o, IMAG)) && Conj(znk) == Add(e, Mul(o, Conj(IMAG)))
    ensures UpperBin(zk, znk, Mul(w, Conj(IMAG))) == Add(e, Mul(o, w))
    ensures LowerBin(zk, znk, Mul(w, Conj(IMAG))) == Conj(Sub(e, Mul(o, w)))
  {
    ForwardAlgebra(e, o, w);
    hide Add, Sub, Mul, Conj, Half;
  }

  lemma PackedBins(x: seq<real>, n: nat, turn: int -> Cpx, sub: seq<Cpx>, k: nat)
    requires n > 0 && |x| == 2 * n && 0 <= k < n && |sub| == n
    ensures var z := Dft(Packed(x, n), sub);
            && |z| == n && z[k] == DftBin(Packed(x, n), sub, k)
            && (k > 0 ==> z[n - k] == DftBin(Packed(x, n), sub, n - k))
  {
    hide DftBin, Packed;
  }

  /** kiss_fft on the samples read as pairs. */
  method TransformPairs(st: RealState, timedata: array<real>, n: nat)
    requires st.substate.Valid() && st.substate.nfft == n && st.tmpbuf.Length == n && timedata.Length == 2 * n
    modifies st.tmpbuf
    ensures st.tmpbuf[..] == Dft(Packed(timedata[..], n), st.substate.twiddles)
  {
    hide FftState.Valid, Dft;
    var pairs := new Cpx[n](j requires 0 <= j < n reads timedata => Cpx(timedata[2 * j], timedata[2 * j + 1]));
    assert pairs[..n] == Packed(timedata[..], n);
    KissFft.KissFft(st.substate, pairs, st.tmpbuf);
    assert st.tmpbuf[..n] == st.tmpbuf[..];
  }

  lemma DcAndNyquist(x: seq<real>, n: nat, turn: int -> Cpx, sub: seq<Cpx>)
    requires n > 0 && |x| == 2 * n && IsTurn(turn, 4 * n)
    requires IsTableOf(sub, SubTurn(turn), false, n) && ValidTwiddles(sub, false)
    ensures var z := Dft(Packed(x, n), sub);
            && |z| == n && RealBin(x, turn, n, 0) == Cpx(z[0].r + z[0].i, 0.0)
            && RealBin(x, turn, n, n) == Cpx(z[0].r - z[0].i, 0.0)
  {
    TableLength(sub, SubTurn(turn), n);
    hide *;
    PackedBins(x, n, turn, sub, 0);
    FirstAndLastBin(x, n, turn);
    PackedBin(x, n, turn, sub, 0);
    RealParts(Even(x, n, FullTable(turn, n), 0), Odd(x, n, FullTable(turn, n), 0));
  }

  lemma RealParts(e: Cpx, o: Cpx)
    requires e.i == 0.0 && o.i == 0.0
    ensures Add(e, Mul(o, IMAG)) == Cpx(e.r, o.r)
  {
  }

  lemma StateTables(st: RealState, turn: int -> Cpx, n: nat)
    requires IsRealState(st, turn, n)
    ensures n > 0 && st.substate.Valid() && st.substate.nfft == n && st.tmpbuf.Length == n
    ensures |st.substate.twiddles| == n && ValidTwiddles(st.substate.twiddles, st.substate.inverse)
    ensures IsTableOf(st.substate.twiddles, SubTurn(turn), st.substate.inverse, n) && |st.superTwiddles| == n / 2
    ensures forall k | 0 < k <= n / 2 ::
              st.superTwiddles[k - 1] == turn(if st.substate.inverse then 2 * k + n else -(2 * k + n))
  {
    hide ValidTwiddles;
  }

  /** kiss_fftr: bins 0 to n; a state of the wrong direction is refused. */
  method KissFftr(st: RealState, timedata: array<real>, freqdata: array<Cpx>, ghost turn: int -> Cpx, ghost n: nat)
    requires IsRealState(st, turn, n) && IsTurn(turn, 4 * n)
    requires timedata.Length == 2 * n && freqdata.Length == n + 1 && st.tmpbuf != freqdata
    modifies st.tmpbuf, freqdata
    ensures if st.substate.inverse then freqdata[..] == old(freqdata[..])
            else forall k | 0 <= k <= n :: freqdata[k] == RealBin(timedata[..], turn, n, k)
  {
    if st.substate.inverse {
      return;
    }
    hide *;
    StateTables(st, turn, n);
    var ncfft := st.substate.nfft;
    ghost var x, sub := timedata[..], st.substate.twiddles;
    TransformPairs(st, timedata, ncfft);
    ghost var z := st.tmpbuf[..];
    DcAndNyquist(x, n, turn, sub);
    var tdc := st.tmpbuf[0];
    freqdata[0] := Cpx(tdc.r + tdc.i, 0.0);
    freqdata[ncfft] := Cpx(tdc.r - tdc.i, 0.0);
    forall k | 0 < k <= n / 2
      ensures UpperBin(z[k], z[n - k], st.superTwiddles[k - 1]) == RealBin(x, turn, n, k)
      ensures LowerBin(z[k], z[n - k], st.superTwiddles[k - 1]) == RealBin(x, turn, n, n - k)
    {
      RoundIsRight(x, n, turn, sub, k);
    }
    UnpackAll(st.tmpbuf, st.superTwiddles, freqdata, ncfft, k => RealBin(x, turn, n, k));
  }

  /** The loop over the pairs of bins. */
  method UnpackAll(tmpbuf: array<Cpx>, superTwiddles: seq<Cpx>, freqdata: array<Cpx>, ncfft: nat,
                   ghost bin: int -> Cpx)
    requires tmpbuf != freqdata && tmpbuf.Length == ncfft > 0 && freqdata.Length == ncfft + 1
    requires |superTwiddles| == ncfft / 2
    requires freqdata[0] == bin(0) && freqdata[ncfft] == bin(ncfft)
    requires forall k | 0 < k <= ncfft / 2 ::
               && UpperBin(tmpbuf[k], tmpbuf[ncfft - k], superTwiddles[k - 1]) == bin(k)
               && LowerBin(tmpbuf[k], tmpbuf[ncfft - k], superTwiddles[k - 1]) == bin(ncfft - k)
    modifies freqdata
    ensures forall k | 0 <= k <= ncfft :: freqdata[k] == bin(k)
  {
    hide *;
    for k := 1 to ncfft / 2 + 1
      invariant forall j | 0 <= j <= ncfft && (j < k || j > ncfft - k) :: freqdata[j] == bin(j)
    {
      var upper, lower := UnpackRound(tmpbuf[k], tmpbuf[ncfft - k], superTwiddles[k - 1]);
      freqdata[k] := upper;
      freqdata[ncfft - k] := lower;
    }
  }

  /** The body of the loop, without the divisions that are empty for exact numbers. */
  method UnpackRound(fpk: Cpx, other: Cpx, s: Cpx) returns (upper: Cpx, lower: Cpx)
    ensures upper == UpperBin(fpk, other, s) && lower == LowerBin(fpk, other, s)
  {
    hide Mul;
    var fpnk := Cpx(other.r, -other.i);
    var f1k := Add(fpk, fpnk);
    var f2k := Sub(fpk, fpnk);
    var tw := Mul(f2k, s);
    upper := Cpx((f1k.r + tw.r) * 0.5, (f1k.i + tw.i) * 0.5);
    lower := Cpx((f1k.r - tw.r) * 0.5, (tw.i - f1k.i) * 0.5);
  }

  // ----- kiss_fftri -----

  /** The two packed bins computed from the bins k and n - k. */
  function UpperPacked(fk: Cpx, fnk: Cpx, s: Cpx): Cpx {
    Add(Add(fk, Conj(fnk)), Mul(Sub(fk, Conj(fnk)), s))
  }

  function LowerPacked(fk: Cpx, fnk: Cpx, s: Cpx): Cpx {
    Conj(Sub(Add(fk, Conj(fnk)), Mul(Sub(fk, Conj(fnk)), s)))
  }

  /** What kiss_fftri leaves in tmpbuf; the middle bin of an even length is that of the second write. */
  function Repacked(f: seq<Cpx>, superTwiddles: seq<Cpx>, n: nat): (r: seq<Cpx>)
    requires n > 0 && |f| == n + 1 && |superTwiddles| == n / 2
    ensures |r| == n
  {
    seq(n, j requires 0 <= j < n =>
      if j == 0 then Cpx(f[0].r + f[n].r, f[0].r - f[n].r)
      else if j >= n - n / 2 then LowerPacked(f[n - j], f[j], superTwiddles[n - j - 1])
      else UpperPacked(f[j], f[n - j], superTwiddles[j - 1]))
  }

  method Repack(st: RealState, freqdata: array<Cpx>, n: nat)
    requires n > 0 && st.tmpbuf.Length == n && freqdata.Length == n + 1 && |st.superTwiddles| == n / 2
    requires st.tmpbuf != freqdata
    modifies st.tmpbuf
    ensures st.tmpbuf[..] == Repacked(freqdata[..], st.superTwiddles, n)
  {
    hide Add, Sub, Mul, Conj, UpperPacked, LowerPacked;
    var tmpbuf := st.tmpbuf;
    tmpbuf[0] := Cpx(freqdata[0].r + freqdata[n].r, freqdata[0].r - freqdata[n].r);
    ghost var r := Repacked(freqdata[..], st.superTwiddles, n);
    for k := 1 to n / 2 + 1
      invariant tmpbuf[0] == r[0]
      invariant forall j | 0 < j < k && j < n - n / 2 :: tmpbuf[j] == r[j]
      invariant forall j | n - k < j < n :: tmpbuf[j] == r[j]
    {
      var upper, lower := RepackRound(freqdata[k], freqdata[n - k], st.superTwiddles[k - 1]);
      tmpbuf[k] := upper;
      tmpbuf[n - k] := lower;
    }
    assert tmpbuf[..] == r;
  }

  method RepackRound(fk: Cpx, other: Cpx, s: Cpx) returns (upper: Cpx, lower: Cpx)
    ensures upper == UpperPacked(fk, other, s) && lower == LowerPacked(fk, other, s)
  {
    hide Mul;
    var fnkc := Cpx(other.r, -other.i);
    var fek := Add(fk, fnkc);
    var tmp := Sub(fk, fnkc);
    var fok := Mul(tmp, s);
    upper := Add(fek, fok);
    lower := Sub(fek, fok);
    lower := Cpx(lower.r, lower.i * -1.0);
  }

  lemma StateLength(st: FftState)
    requires st.Valid()
    ensures |st.twiddles| == st.nfft
  {
    hide ValidTwiddles;
  }

  /** kiss_fftri: the transform of the repacked bins, read as pairs of real samples. */
  method KissFftri(st: RealState, freqdata: array<Cpx>, timedata: array<real>, n: nat)
    requires n > 0 && st.substate.Valid() && st.substate.nfft == n && st.tmpbuf.Length == n
    requires |st.superTwiddles| == n / 2
    requires timedata.Length == 2 * n && freqdata.Length == n + 1 && st.tmpbuf != freqdata
    modifies st.tmpbuf, timedata
    ensures if !st.substate.inverse then timedata[..] == old(timedata[..])
            else Packed(timedata[..], n) == Dft(Repacked(freqdata[..], st.superTwiddles, n), st.substate.twiddles)
  {
    if !st.substate.inverse {
      return;
    }
    hide *;
    StateLength(st.substate);
    Repack(st, freqdata, n);
    var pairs := new Cpx[n];
    ghost var p := st.tmpbuf[..];
    assert st.tmpbuf[..n] == p;
    KissFft.KissFft(st.substate, st.tmpbuf, pairs);
    assert pairs[..n] == pairs[..];
    StorePairs(pairs, timedata, n);
  }

  /** The output of kiss_fft read as real samples. */
  method StorePairs(pairs: array<Cpx>, timedata: array<real>, n: nat)
    requires pairs.Length == n && timedata.Length == 2 * n
    modifies timedata
    ensures Packed(timedata[..], n) == pairs[..]
  {
    for j := 0 to n
      invariant forall i | 0 <= i < j :: timedata[2 * i] == pairs[i].r && timedata[2 * i + 1] == pairs[i].i
    {
      timedata[2 * j] := pairs[j].r;
      timedata[2 * j + 1] := pairs[j].i;
    }
    assert Packed(timedata[..], n) == pairs[..];
  }

  // ----- The round trip -----

  function Double(a: Cpx): Cpx { Add(a, a) }

  function Doubled(z: seq<Cpx>): (r: seq<Cpx>)
    ensures |r| == |z|
  {
    seq(|z|, i requires 0 <= i < |z| => Double(z[i]))
  }

  lemma {:induction false} SumDoubled(f: int -> Cpx, g: int -> Cpx, n: nat)
    requires forall j | 0 <= j < n :: g(j) == Double(f(j))
    ensures Sum(g, n) == Double(Sum(f, n))
    decreases n
  {
    if n > 0 {
      SumDoubled(f, g, n - 1);
    }
  }

  lemma DftDoubled(z: seq<Cpx>, tw: seq<Cpx>)
    requires |z| == |tw|
    ensures Dft(Doubled(z), tw) == Doubled(Dft(z, tw))
  {
    hide Mul, W, Add;
    forall k | 0 <= k < |tw| ensures DftBin(Doubled(z), tw, k) == Double(DftBin(z, tw, k)) {
      var f, g := DftTerm(z, tw, k), DftTerm(Doubled(z), tw, k);
      forall j | 0 <= j < |tw| ensures g(j) == Double(f(j)) {
        DoubleTimes(z[j], W(tw, j * k));
      }
      SumDoubled(f, g, |tw|);
    }
  }

  /** |w| == 1 */
  lemma UnitNorm(turn: int -> Cpx, n: int, a: int)
    requires n > 0 && IsTurn(turn, n)
    ensures Mul(turn(a), Conj(turn(a))) == ONE
  {
    hide Mul, Conj;
    assert TurnsAdd(turn, a, -a) && TurnNegates(turn, a) && TurnCloses(turn, 0, n);
    assert a + -a == 0 && 0 % n == 0;
  }

  lemma BackAlgebra(e: Cpx, o: Cpx, w: Cpx)
    requires Mul(w, Conj(w)) == ONE
    ensures var p := Mul(o, w);
            var fk, fc, s := Add(e, p), Sub(e, p), Mul(Conj(w), IMAG);
            && Add(Add(fk, fc), Mul(Sub(fk, fc), s)) == Double(Add(e, Mul(o, IMAG)))
            && Sub(Add(fk, fc), Mul(Sub(fk, fc), s)) == Double(Add(e, Mul(o, Conj(IMAG))))
  {
    var p := Mul(o, w);
    PlusMinus(e, p);
    Unwind(o, w);
    hide Mul, Conj, IMAG;
    DoubleTimes(p, Mul(Conj(w), IMAG));
    BackSums(e, Mul(o, IMAG), Mul(o, Conj(IMAG)));
    ConjImag(o);
  }

  lemma PlusMinus(e: Cpx, p: Cpx)
    ensures Add(Add(e, p), Sub(e, p)) == Add(e, e) && Sub(Add(e, p), Sub(e, p)) == Add(p, p)
  {
  }

  lemma Unwind(o: Cpx, w: Cpx)
    requires Mul(w, Conj(w)) == ONE
    ensures Mul(Mul(o, w), Mul(Conj(w), IMAG)) == Mul(o, IMAG)
  {
    hide *;
    MulAssoc(Mul(o, w), Conj(w), IMAG);
    MulAssoc(o, w, Conj(w));
    MulUnits(o);
  }

  lemma ConjImag(o: Cpx)
    ensures Mul(o, Conj(IMAG)) == Neg(Mul(o, IMAG))
  {
  }

  lemma BackSums(e: Cpx, p: Cpx, q: Cpx)
    ensures Add(Add(e, e), Add(p, p)) == Double(Add(e, p))
    ensures q == Neg(p) ==> Sub(Add(e, e), Add(p, p)) == Double(Add(e, q))
  {
  }

  /** One round of kiss_fftri on the bins of real samples gives twice the packed bins. */
  lemma BackRound(x: seq<real>, n: nat, turn: int -> Cpx, sub: seq<Cpx>, k: nat)
    requires n > 0 && |x| == 2 * n && IsTurn(turn, 4 * n) && 0 < k < n
    requires IsTableOf(sub, SubTurn(turn), false, n) && ValidTwiddles(sub, false)
    ensures var z, s := Dft(Packed(x, n), sub), turn(2 * k + n);
            var fk, fnk := RealBin(x, turn, n, k), RealBin(x, turn, n, n - k);
            |z| == n && UpperPacked(fk, fnk, s) == Double(z[k]) && LowerPacked(fk, fnk, s) == Double(z[n - k])
  {
    PackedBins(x, n, turn, sub, k);
    hide *;
    var z := Dft(Packed(x, n), sub);
    var tw := FullTable(turn, n);
    var e, o, w := Even(x, n, tw, k), Odd(x, n, tw, k), turn(-2 * k);
    SuperEntry(turn, n, k);
    PackedBin(x, n, turn, sub, k);
    ReflectedBin(x, n, turn, sub, k);
    PairOfBins(x, n, turn, k);
    UnitNorm(turn, 4 * n, -2 * k);
    PackedFrom(z[k], z[n - k], RealBin(x, turn, n, n - k), e, o, w);
  }

  lemma PackedFrom(zk: Cpx, znk: Cpx, fnk: Cpx, e: Cpx, o: Cpx, w: Cpx)
    requires zk == Add(e, Mul(o, IMAG)) && Conj(znk) == Add(e, Mul(o, Conj(IMAG)))
    requires fnk == Conj(Sub(e, Mul(o, w))) && Mul(w, Conj(w)) == ONE
    ensures UpperPacked(Add(e, Mul(o, w)), fnk, Mul(Conj(w), IMAG)) == Double(zk)
    ensures LowerPacked(Add(e, Mul(o, w)), fnk, Mul(Conj(w), IMAG)) == Double(znk)
  {
    BackAlgebra(e, o, w);
    TwiceConj(Sub(e, Mul(o, w)));
    TwiceConj(znk);
    hide Add, Sub, Mul, Conj;
  }

  lemma TwiceConj(a: Cpx)
    ensures Conj(Conj(a)) == a && Conj(Double(Conj(a))) == Double(a)
  {
  }

  lemma BackDc(x: seq<real>, n: nat, turn: int -> Cpx, sub: seq<Cpx>)
    requires n > 0 && |x| == 2 * n && IsTurn(turn, 4 * n)
    requires IsTableOf(sub, SubTurn(turn), false, n) && ValidTwiddles(sub, false)
    ensures var z, f0, fn := Dft(Packed(x, n), sub), RealBin(x, turn, n, 0), RealBin(x, turn, n, n);
            |z| == n && Cpx(f0.r + fn.r, f0.r - fn.r) == Double(z[0])
  {
    DcAndNyquist(x, n, turn, sub);
    hide RealBin, Dft, Packed;
  }

  /** The repacked bins of real samples are twice the transform of the packed samples. */
  lemma RepackedBins(x: seq<real>, n: nat, turn: int -> Cpx, sub: seq<Cpx>, f: seq<Cpx>, superTwiddles: seq<Cpx>)
    requires n > 0 && |x| == 2 * n && IsTurn(turn, 4 * n)
    requires IsTableOf(sub, SubTurn(turn), false, n) && ValidTwiddles(sub, false)
    requires |f| == n + 1 && forall k | 0 <= k <= n :: f[k] == RealBin(x, turn, n, k)
    requires |superTwiddles| == n / 2 && forall k | 0 < k <= n / 2 :: superTwiddles[k - 1] == turn(2 * k + n)
    ensures Repacked(f, superTwiddles, n) == Doubled(Dft(Packed(x, n), sub))
  {
    TableLength(sub, SubTurn(turn), n);
    hide *;
    var z := Dft(Packed(x, n), sub);
    assert |z| == n;
    var r := Repacked(f, superTwiddles, n);
    forall j | 0 <= j < n ensures r[j] == Doubled(z)[j] {
      DoubledEntry(z, j);
      RepackedEntry(f, superTwiddles, n, j);
      if j == 0 {
        BackFirst(x, n, turn, sub, f[0], f[n]);
      } else if j >= n - n / 2 {
        BackLower(x, n, turn, sub, j, superTwiddles[n - j - 1]);
      } else {
        BackUpper(x, n, turn, sub, j, superTwiddles[j - 1]);
      }
    }
    assert r == Doubled(z);
  }

  /** Entry j from the upper half of the loop's pairs. */
  lemma BackUpper(x: seq<real>, n: nat, turn: int -> Cpx, sub: seq<Cpx>, j: nat, s: Cpx)
    requires n > 0 && |x| == 2 * n && IsTurn(turn, 4 * n) && 0 < j < n && s == turn(2 * j + n)
    requires IsTableOf(sub, SubTurn(turn), false, n) && ValidTwiddles(sub, false) && |Dft(Packed(x, n), sub)| == n
    ensures UpperPacked(RealBin(x, turn, n, j), RealBin(x, turn, n, n - j), s) == Double(Dft(Packed(x, n), sub)[j])
  {
    hide *;
    BackRound(x, n, turn, sub, j);
  }

  lemma BackLower(x: seq<real>, n: nat, turn: int -> Cpx, sub: seq<Cpx>, j: nat, s: Cpx)
    requires n > 0 && |x| == 2 * n && IsTurn(turn, 4 * n) && 0 < j < n && s == turn(2 * (n - j) + n)
    requires IsTableOf(sub, SubTurn(turn), false, n) && ValidTwiddles(sub, false) && |Dft(Packed(x, n), sub)| == n
    ensures LowerPacked(RealBin(x, turn, n, n - j), RealBin(x, turn, n, j), s) == Double(Dft(Packed(x, n), sub)[j])
  {
    hide *;
    var k := n - j;
    BackRound(x, n, turn, sub, k);
    assert n - k == j;
  }

  lemma BackFirst(x: seq<real>, n: nat, turn: int -> Cpx, sub: seq<Cpx>, f0: Cpx, fn: Cpx)
    requires n > 0 && |x| == 2 * n && IsTurn(turn, 4 * n)
    requires IsTableOf(sub, SubTurn(turn), false, n) && ValidTwiddles(sub, false) && |Dft(Packed(x, n), sub)| == n
    requires f0 == RealBin(x, turn, n, 0) && fn == RealBin(x, turn, n, n)
    ensures Cpx(f0.r + fn.r, f0.r - fn.r) == Double(Dft(Packed(x, n), sub)[0])
  {
    hide *;
    BackDc(x, n, turn, sub);
  }

  lemma RepackedEntry(f: seq<Cpx>, superTwiddles: seq<Cpx>, n: nat, j: nat)
    requires n > 0 && |f| == n + 1 && |superTwiddles| == n / 2 && j < n
    ensures Repacked(f, superTwiddles, n)[j]
         == if j == 0 then Cpx(f[0].r + f[n].r, f[0].r - f[n].r)
            else if j >= n - n / 2 then LowerPacked(f[n - j], f[j], superTwiddles[n - j - 1])
            else UpperPacked(f[j], f[n - j], superTwiddles[j - 1])
  {
    hide LowerPacked, UpperPacked;
  }

  lemma DoubledEntry(z: seq<Cpx>, j: nat)
    requires j < |z|
    ensures Doubled(z)[j] == Double(z[j])
  {
    hide Double;
  }

  /** The forward table of length n. */
  function ForwardTable(turn: int -> Cpx, n: nat): seq<Cpx> {
    seq(n, i => SubTurn(turn)(-i))
  }

  /** kiss_fftri after kiss_fftr: what comes out of the bins of x is 2n times x. */
  lemma RealRoundTrip(x: seq<real>, n: nat, turn: int -> Cpx, st: RealState, f: seq<Cpx>, y: seq<real>)
    requires n > 0 && |x| == |y| == 2 * n && IsTurn(turn, 4 * n) && IsRealState(st, turn, n) && st.substate.inverse
    requires |f| == n + 1 && forall k | 0 <= k <= n :: f[k] == RealBin(x, turn, n, k)
    requires Packed(y, n) == Dft(Repacked(f, st.superTwiddles, n), st.substate.twiddles)
    ensures forall i | 0 <= i < 2 * n :: y[i] == (2 * n) as real * x[i]
  {
    var fw, inv, sub := ForwardTable(turn, n), st.substate.twiddles, SubTurn(turn);
    SubTurnIsTurn(turn, n);
    StateTables(st, turn, n);
    assert IsTableOf(fw, sub, false, n);
    hide *;
    TableIsValid(fw, sub, false, n);
    RepackedBins(x, n, turn, fw, f, st.superTwiddles);
    var p := Packed(x, n);
    AllocatedRoundTrip(sub, n, fw, inv, p);
    TableLength(fw, sub, n);
    assert |Dft(p, fw)| == n;
    DftDoubled(Dft(p, fw), inv);
    Unpack(x, y, n);
  }

  lemma TableLength(tw: seq<Cpx>, turn: int -> Cpx, n: nat)
    requires IsTableOf(tw, turn, false, n)
    ensures |tw| == n && forall z :: |Dft(z, tw)| == n
  {
  }

  lemma Unpack(x: seq<real>, y: seq<real>, n: nat)
    requires n > 0 && |x| == |y| == 2 * n
    requires Packed(y, n) == Doubled(seq(n, l requires 0 <= l < n => Scale(Packed(x, n)[l], n as real)))
    ensures forall i | 0 <= i < 2 * n :: y[i] == (2 * n) as real * x[i]
  {
    forall i | 0 <= i < 2 * n ensures y[i] == (2 * n) as real * x[i] {
      var j := i / 2;
      var a := Packed(x, n)[j];
      assert Packed(y, n)[j] == Double(Scale(a, n as real));
      assert i == 2 * j || i == 2 * j + 1;
      TwiceReal(n, x[i]);
    }
  }

  lemma TwiceReal(n: nat, v: real)
    ensures SMul(v, n as real) + SMul(v, n as real) == (2 * n) as real * v
  {
    assert (2 * n) as real == 2.0 * (n as real);
  }
}
