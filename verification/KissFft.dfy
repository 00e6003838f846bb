/** kiss_fft_alloc, kiss_fft and the round trip through an inverse-configured state. */
module KissFft {
  import opened Complex
  import opened Twiddles
  import opened Integers
  import opened Fourier
  import opened FftWork
  import opened FftFactor

  /** `turn(t)` stands for exp(2*pi*i*t/n): what `kf_cexp` computes with exact
      cosine and sine. */
  ghost predicate TurnsAdd(turn: int -> Cpx, a: int, b: int) {
    turn(a + b) == Mul(turn(a), turn(b))
  }

  ghost predicate TurnNegates(turn: int -> Cpx, a: int) {
    turn(-a) == Conj(turn(a))
  }

  ghost predicate TurnCloses(turn: int -> Cpx, a: int, n: int)
    requires n > 0
  {
    turn(a) == ONE <==> a % n == 0
  }

  ghost predicate IsTurn(turn: int -> Cpx, n: int)
    requires n > 0
  {
    && (forall a, b :: TurnsAdd(turn, a, b))
    && (forall a :: TurnNegates(turn, a))
    && (forall a :: TurnCloses(turn, a, n))
    && (n % 4 == 0 ==> turn(n / 4) == IMAG)
  }

  /** The table kiss_fft_alloc fills in. */
  ghost predicate IsTableOf(tw: seq<Cpx>, turn: int -> Cpx, inverse: bool, n: int) {
    && |tw| == n
    && forall i | 0 <= i < n :: tw[i] == turn(if inverse then i else -i)
  }

  lemma TurnPeriod(turn: int -> Cpx, n: int, a: int)
    requires n > 0 && IsTurn(turn, n)
    ensures turn(a) == turn(a % n) && turn(-a) == turn(-(a % n))
  {
    hide Mul;
    var c := n * (a / n);
    assert a == a % n + c;
    assert TurnsAdd(turn, a % n, c);
    assert TurnsAdd(turn, -(a % n), -c);
    DivModUnique(c, n, a / n, 0);
    DivModUnique(-c, n, -(a / n), 0);
    assert TurnCloses(turn, c, n) && TurnCloses(turn, -c, n);
    MulUnits(turn(a % n));
    MulUnits(turn(-(a % n)));
  }

  lemma TableMultiplies(tw: seq<Cpx>, turn: int -> Cpx, inverse: bool, n: int, i: int, j: int)
    requires n > 0 && IsTurn(turn, n) && IsTableOf(tw, turn, inverse, n) && 0 <= i < n && 0 <= j < n
    ensures MultiplicativeAt(tw, i, j)
  {
    assert TurnsAdd(turn, i, j) && TurnsAdd(turn, -i, -j);
    hide Mul, IsTurn;
    TurnPeriod(turn, n, i + j);
    assert tw[i] == turn(if inverse then i else -i) && tw[j] == turn(if inverse then j else -j);
  }

  lemma TableConjugates(tw: seq<Cpx>, turn: int -> Cpx, inverse: bool, n: int, i: int)
    requires n > 0 && IsTurn(turn, n) && IsTableOf(tw, turn, inverse, n) && 0 <= i < n
    ensures ConjugateAt(tw, i)
  {
    assert TurnNegates(turn, i) && TurnNegates(turn, -i);
    hide IsTurn;
    TurnPeriod(turn, n, -i);
  }

  lemma TableIsPrimitive(tw: seq<Cpx>, turn: int -> Cpx, inverse: bool, n: int, i: int)
    requires n > 0 && IsTurn(turn, n) && IsTableOf(tw, turn, inverse, n) && 0 <= i < n
    ensures PrimitiveAt(tw, i)
  {
    assert TurnCloses(turn, i, n) && TurnCloses(turn, -i, n);
    hide IsTurn;
    DivModUnique(i, n, 0, i);
    if i > 0 {
      DivModUnique(-i, n, -1, n - i);
    }
  }

  lemma TableIsValid(tw: seq<Cpx>, turn: int -> Cpx, inverse: bool, n: int)
    requires n > 0 && IsTurn(turn, n) && IsTableOf(tw, turn, inverse, n)
    ensures ValidTwiddles(tw, inverse)
  {
    assert TurnNegates(turn, n / 4) && (n % 4 == 0 ==> turn(n / 4) == IMAG);
    hide IsTurn, MultiplicativeAt, ConjugateAt, PrimitiveAt;
    forall i, j | 0 <= i < n && 0 <= j < n ensures MultiplicativeAt(tw, i, j) {
      TableMultiplies(tw, turn, inverse, n, i, j);
    }
    forall i | 0 <= i < n ensures ConjugateAt(tw, i) && PrimitiveAt(tw, i) {
      TableConjugates(tw, turn, inverse, n, i);
      TableIsPrimitive(tw, turn, inverse, n, i);
    }
  }

  /** kiss_fft_alloc: table and factor chain. */
  method KissFftAlloc(nfft: int, inverse: bool, turn: int -> Cpx) returns (st: FftState)
    requires 1 <= nfft <= INT_MAX && IsTurn(turn, nfft)
    ensures st.Valid() && st.nfft == nfft && st.inverse == inverse
    ensures IsTableOf(st.twiddles, turn, inverse, nfft)
  {
    hide IsTurn, ValidTwiddles;
    var twiddles := new Cpx[nfft];
    for i := 0 to nfft
      invariant forall j | 0 <= j < i :: twiddles[j] == turn(if inverse then j else -j)
    {
      var phase := -i;
      if inverse {
        phase := phase * -1;
      }
      twiddles[i] := turn(phase);
    }
    var facbuf := new int[2 * MAXFACTORS];
    ghost var table := twiddles[..];
    KfFactor(nfft, facbuf);
    st := FftState(nfft, inverse, facbuf[..], twiddles[..]);
    assert twiddles[..] == table;
    TableIsValid(st.twiddles, turn, inverse, nfft);
  }

  /** kiss_fft: the plain transform of the first nfft samples. */
  method KissFft(st: FftState, fin: array<Cpx>, fout: array<Cpx>)
    requires st.Valid() && st.nfft <= fin.Length && st.nfft <= fout.Length
    modifies fout
    ensures fout[..st.nfft] == Dft(old(fin[..st.nfft]), st.twiddles)
    ensures fout[st.nfft..] == old(fout[st.nfft..])
  {
    ghost var was, x := fout[..], fin[..];
    assert st.nfft == |st.twiddles|;
    hide ValidTwiddles, FftState.Valid;
    KissFftStride(st, fin, 0, fout, 0, 1);
    TransformedIsDft(was, fout[..], x, st.twiddles);
    assert x[..st.nfft] == old(fin[..st.nfft]);
    assert fout[..][..st.nfft] == fout[..st.nfft];
    assert fout[..][st.nfft..] == fout[st.nfft..];
    assert was[st.nfft..] == old(fout[st.nfft..]);
  }

  lemma TransformedIsDft(was: seq<Cpx>, out: seq<Cpx>, x: seq<Cpx>, tw: seq<Cpx>)
    requires |tw| <= |out| && |tw| <= |x| && Transformed(was, out, 0, x, 0, 1, |tw|, tw, 1)
    ensures out[..|tw|] == Dft(x[..|tw|], tw)
    ensures out[|tw|..] == was[|tw|..]
  {
    hide Mul, W;
    forall k | 0 <= k < |tw| ensures out[k] == DftBin(x[..|tw|], tw, k) {
      BinIsDftBin(x, tw, k);
    }
  }

}
