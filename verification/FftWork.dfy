/** The mixed-radix transform of `kiss_fft.c`. */
module FftWork {
  import opened Complex
  import opened Sums
  import opened Twiddles
  import opened Integers
  import opened Fourier
  import opened Butterflies

  /** p1, m1, p2, m2, ... with p[i] * m[i] == m[i-1], m0 == n, ending at the first m[i] == 1. */
  predicate FactorChain(factors: seq<int>, n: int) {
    && |factors| >= 2
    && factors[0] >= 1 && factors[1] >= 1
    && factors[0] * factors[1] == n
    && (factors[1] > 1 ==> FactorChain(factors[2..], factors[1]))
  }

  /** `struct kiss_fft_state`: written by kiss_fft_alloc, read-only afterwards. */
  datatype FftState = FftState(nfft: int, inverse: bool, factors: seq<int>, twiddles: seq<Cpx>) {
    ghost predicate Valid() {
      && nfft >= 1
      && |twiddles| == nfft
      && ValidTwiddles(twiddles, inverse)
      && FactorChain(factors, nfft)
    }
  }

  /** A stage of radix p and length m reads the table at stride fstride. */
  lemma StageFacts(st: FftState, fstride: nat, p: nat, m: nat)
    requires st.Valid() && st.nfft == p * (fstride * m)
    ensures ValidTwiddles(st.twiddles, st.inverse) && |st.twiddles| == p * (fstride * m)
    ensures fstride > 0 && m > 0 && p > 0
  {
  }

  /** Input q of row u at position `pos`, times table entry `e`, is the twiddled input. */
  lemma RowInput(before: seq<Cpx>, now: seq<Cpx>, o: nat, p: nat, m: nat, tw: seq<Cpx>, inverse: bool, s: nat, u: nat,
                 q: nat, pos: nat, e: int)
    requires ValidTwiddles(tw, inverse) && s > 0 && u < m && q < p && |tw| == p * (s * m) && o + p * m <= |now|
    requires RowsDone(before, now, o, p, m, tw, s, u)
    requires pos == o + u + q * m && e == q * (s * u)
    ensures |before| == |now| && pos < |now| && 0 <= e < |tw|
    ensures Mul(now[pos], tw[e]) == Twiddled(before, o, m, tw, s, u, q)
    ensures q == 0 ==> now[pos] == Twiddled(before, o, m, tw, s, u, 0)
  {
    hide Mul, ValidTwiddles, RowsDone, W;
    RowPending(before, now, o, p, m, tw, s, u, q);
    TwiddleInRange(tw, s, p, m, u, q);
    assert e == q * s * u;
    if q == 0 {
      TwiddledZero(before, o, m, tw, inverse, s, u);
    }
  }

  lemma Row2Written(before: seq<Cpx>, now: seq<Cpx>, next: seq<Cpx>, o: nat, m: nat, tw: seq<Cpx>, s: nat, u: nat)
    requires u < m && o + 2 * m <= |now| == |next|
    requires RowsDone(before, now, o, 2, m, tw, s, u)
    requires forall j | 0 <= j < |now| && j != o + u && j != o + u + m :: next[j] == now[j]
    requires next[o + u] == Recombined(before, o, 2, m, tw, s, u)
    requires next[o + u + m] == Recombined(before, o, 2, m, tw, s, u + m)
    ensures RowsDone(before, next, o, 2, m, tw, s, u + 1)
  {
    hide Recombined, RowsDone;
    PosOnRow(o, m, u, 0, 2);
    PosOnRow(o, m, u, 1, 2);
    RowStep(before, now, next, o, 2, m, tw, s, u);
  }

  lemma Row3Written(before: seq<Cpx>, now: seq<Cpx>, next: seq<Cpx>, o: nat, m: nat, tw: seq<Cpx>, s: nat, u: nat)
    requires u < m && o + 3 * m <= |now| == |next|
    requires RowsDone(before, now, o, 3, m, tw, s, u)
    requires forall j | 0 <= j < |now| && j != o + u && j != o + u + m && j != o + u + 2 * m :: next[j] == now[j]
    requires next[o + u] == Recombined(before, o, 3, m, tw, s, u)
    requires next[o + u + m] == Recombined(before, o, 3, m, tw, s, u + m)
    requires next[o + u + 2 * m] == Recombined(before, o, 3, m, tw, s, u + 2 * m)
    ensures RowsDone(before, next, o, 3, m, tw, s, u + 1)
  {
    hide Recombined, RowsDone;
    PosOnRow(o, m, u, 0, 3);
    PosOnRow(o, m, u, 1, 3);
    PosOnRow(o, m, u, 2, 3);
    RowStep(before, now, next, o, 3, m, tw, s, u);
  }

  lemma Row4Written(before: seq<Cpx>, now: seq<Cpx>, next: seq<Cpx>, o: nat, m: nat, tw: seq<Cpx>, s: nat, u: nat)
    requires u < m && o + 4 * m <= |now| == |next|
    requires RowsDone(before, now, o, 4, m, tw, s, u)
    requires forall j | 0 <= j < |now| && j != o + u && j != o + u + m && j != o + u + 2 * m && j != o + u + 3 * m :: next[j] == now[j]
    requires next[o + u] == Recombined(before, o, 4, m, tw, s, u)
    requires next[o + u + m] == Recombined(before, o, 4, m, tw, s, u + m)
    requires next[o + u + 2 * m] == Recombined(before, o, 4, m, tw, s, u + 2 * m)
    requires next[o + u + 3 * m] == Recombined(before, o, 4, m, tw, s, u + 3 * m)
    ensures RowsDone(before, next, o, 4, m, tw, s, u + 1)
  {
    hide Recombined, RowsDone;
    PosOnRow(o, m, u, 0, 4);
    PosOnRow(o, m, u, 1, 4);
    PosOnRow(o, m, u, 2, 4);
    PosOnRow(o, m, u, 3, 4);
    RowStep(before, now, next, o, 4, m, tw, s, u);
  }

  lemma Row5Written(before: seq<Cpx>, now: seq<Cpx>, next: seq<Cpx>, o: nat, m: nat, tw: seq<Cpx>, s: nat, u: nat)
    requires u < m && o + 5 * m <= |now| == |next|
    requires RowsDone(before, now, o, 5, m, tw, s, u)
    requires forall j | 0 <= j < |now| && j != o + u && j != o + u + m && j != o + u + 2 * m && j != o + u + 3 * m && j != o + u + 4 * m :: next[j] == now[j]
    requires next[o + u] == Recombined(before, o, 5, m, tw, s, u)
    requires next[o + u + m] == Recombined(before, o, 5, m, tw, s, u + m)
    requires next[o + u + 2 * m] == Recombined(before, o, 5, m, tw, s, u + 2 * m)
    requires next[o + u + 3 * m] == Recombined(before, o, 5, m, tw, s, u + 3 * m)
    requires next[o + u + 4 * m] == Recombined(before, o, 5, m, tw, s, u + 4 * m)
    ensures RowsDone(before, next, o, 5, m, tw, s, u + 1)
  {
    hide Recombined, RowsDone;
    PosOnRow(o, m, u, 0, 5);
    PosOnRow(o, m, u, 1, 5);
    PosOnRow(o, m, u, 2, 5);
    PosOnRow(o, m, u, 3, 5);
    PosOnRow(o, m, u, 4, 5);
    RowStep(before, now, next, o, 5, m, tw, s, u);
  }

  method KfBfly2(fout: array<Cpx>, o: nat, fstride: nat, st: FftState, m: nat)
    requires st.Valid() && m >= 1 && st.nfft == 2 * (fstride * m) && o + 2 * m <= fout.Length
    modifies fout
    ensures RowsDone(old(fout[..]), fout[..], o, 2, m, st.twiddles, fstride, m)
  {
    hide *;
    ghost var tw, inv := st.twiddles, st.inverse;
    StageFacts(st, fstride, 2, m);
    ghost var before, u := fout[..], 0;
    RowsStart(before, o, 2, m, tw, fstride);
    var k, f0, f2, tw1 := m, o, o + m, 0;
    while k != 0
      invariant 0 <= k <= m && u == m - k && f0 == o + u && f2 == f0 + m && tw1 == fstride * u
      invariant RowsDone(before, fout[..], o, 2, m, tw, fstride, u)
    {
      ghost var now := fout[..];
      RowInput(before, now, o, 2, m, tw, inv, fstride, u, 0, f0, 0);
      RowInput(before, now, o, 2, m, tw, inv, fstride, u, 1, f2, tw1);
      var t := Mul(fout[f2], st.twiddles[tw1]);
      tw1 := tw1 + fstride;
      fout[f2] := Sub(fout[f0], t);
      fout[f0] := Add(fout[f0], t);
      Radix2Row(before, o, m, tw, inv, fstride, u);
      Row2Written(before, now, fout[..], o, m, tw, fstride, u);
      MulSucc(fstride, u);
      f2 := f2 + 1;
      f0 := f0 + 1;
      k, u := k - 1, u + 1;
    }
  }

  /** The two conjugate outputs of a radix-3 row, as the kernel computes them. */
  lemma Kernel3(t0: Cpx, t1: Cpx, t2: Cpx, e: Cpx)
    requires e.r == -0.5
    ensures var s0, s3 := Scale(Sub(t1, t2), e.i), Add(t1, t2);
            var h := Cpx(t0.r - s3.r * 0.5, t0.i - s3.i * 0.5);
            && Cpx(h.r - s0.i, h.i + s0.r) == Add(Add(t0, Mul(t1, e)), Mul(t2, Conj(e)))
            && Cpx(h.r + s0.i, h.i - s0.r) == Add(Add(t0, Mul(t1, Conj(e))), Mul(t2, e))
            && Add(t0, s3) == Add(Add(t0, t1), t2)
  {
    hide Mul, SMul;
    ConjugatePair(t1, t2, e);
    SMulHalf(t1.r + t2.r);
    SMulHalf(t1.i + t2.i);
  }

  method KfBfly3(fout: array<Cpx>, o: nat, fstride: nat, st: FftState, m: nat)
    requires st.Valid() && m >= 1 && st.nfft == 3 * (fstride * m) && o + 3 * m <= fout.Length
    modifies fout
    ensures RowsDone(old(fout[..]), fout[..], o, 3, m, st.twiddles, fstride, m)
  {
    hide *;
    ghost var tw, inv := st.twiddles, st.inverse;
    StageFacts(st, fstride, 3, m);
    TableEntry(tw, 3, fstride * m, 1);
    ghost var before, u := fout[..], 0;
    RowsStart(before, o, 3, m, tw, fstride);
    var k, m2, f := m, 2 * m, o;
    var epi3 := st.twiddles[fstride * m];
    var tw1, tw2 := 0, 0;
    while k != 0
      invariant 0 <= k <= m && u == m - k && f == o + u && tw1 == fstride * u && tw2 == 2 * (fstride * u)
      invariant RowsDone(before, fout[..], o, 3, m, tw, fstride, u)
    {
      ghost var now := fout[..];
      RowInput(before, now, o, 3, m, tw, inv, fstride, u, 0, f, 0);
      RowInput(before, now, o, 3, m, tw, inv, fstride, u, 1, f + m, tw1);
      RowInput(before, now, o, 3, m, tw, inv, fstride, u, 2, f + m2, tw2);
      var s1 := Mul(fout[f + m], st.twiddles[tw1]);
      var s2 := Mul(fout[f + m2], st.twiddles[tw2]);
      Radix3Row(before, o, m, tw, inv, fstride, u);
      Kernel3(fout[f], s1, s2, epi3);
      var s3 := Add(s1, s2);
      var s0 := Sub(s1, s2);
      tw1 := tw1 + fstride;
      tw2 := tw2 + fstride * 2;
      fout[f + m] := Cpx(fout[f].r - s3.r * 0.5, fout[f].i - s3.i * 0.5);
      s0 := Scale(s0, epi3.i);
      fout[f] := Add(fout[f], s3);
      fout[f + m2] := Cpx(fout[f + m].r + s0.i, fout[f + m].i - s0.r);
      fout[f + m] := Cpx(fout[f + m].r - s0.i, fout[f + m].i + s0.r);
      Row3Written(before, now, fout[..], o, m, tw, fstride, u);
      MulSucc(fstride, u);
      f := f + 1;
      k, u := k - 1, u + 1;
    }
  }

  /** The four outputs of a radix-4 row, as the kernel computes them. */
  lemma Kernel4(t0: Cpx, t1: Cpx, t2: Cpx, t3: Cpx, inverse: bool)
    ensures var i4 := if inverse then IMAG else Conj(IMAG);
            var s3, s4, s5 := Add(t1, t3), Sub(t1, t3), Sub(t0, t2);
            var left, right := Cpx(s5.r - s4.i, s5.i + s4.r), Cpx(s5.r + s4.i, s5.i - s4.r);
            && Add(Add(t0, t2), s3) == Add(Add(Add(t0, t1), t2), t3)
            && Sub(Add(t0, t2), s3) == Add(Add(Add(t0, Neg(t1)), t2), Neg(t3))
            && (if inverse then left else right) == Add(Add(Add(t0, Mul(t1, i4)), Neg(t2)), Mul(t3, Conj(i4)))
            && (if inverse then right else left) == Add(Add(Add(t0, Mul(t1, Conj(i4))), Neg(t2)), Mul(t3, i4))
  {
  }

  method KfBfly4(fout: array<Cpx>, o: nat, fstride: nat, st: FftState, m: nat)
    requires st.Valid() && m >= 1 && st.nfft == 4 * (fstride * m) && o + 4 * m <= fout.Length
    modifies fout
    ensures RowsDone(old(fout[..]), fout[..], o, 4, m, st.twiddles, fstride, m)
  {
    hide *;
    ghost var tw, inv := st.twiddles, st.inverse;
    StageFacts(st, fstride, 4, m);
    ghost var before, u := fout[..], 0;
    RowsStart(before, o, 4, m, tw, fstride);
    var k, m2, m3, f := m, 2 * m, 3 * m, o;
    var tw1, tw2, tw3 := 0, 0, 0;
    while k != 0
      invariant 0 <= k <= m && u == m - k && f == o + u
      invariant tw1 == fstride * u && tw2 == 2 * (fstride * u) && tw3 == 3 * (fstride * u)
      invariant RowsDone(before, fout[..], o, 4, m, tw, fstride, u)
    {
      ghost var now := fout[..];
      RowInput(before, now, o, 4, m, tw, inv, fstride, u, 0, f, 0);
      RowInput(before, now, o, 4, m, tw, inv, fstride, u, 1, f + m, tw1);
      RowInput(before, now, o, 4, m, tw, inv, fstride, u, 2, f + m2, tw2);
      RowInput(before, now, o, 4, m, tw, inv, fstride, u, 3, f + m3, tw3);
      var s0 := Mul(fout[f + m], st.twiddles[tw1]);
      var s1 := Mul(fout[f + m2], st.twiddles[tw2]);
      var s2 := Mul(fout[f + m3], st.twiddles[tw3]);
      Radix4Row(before, o, m, tw, inv, fstride, u);
      Kernel4(fout[f], s0, s1, s2, inv);
      var s5 := Sub(fout[f], s1);
      fout[f] := Add(fout[f], s1);
      var s3 := Add(s0, s2);
      var s4 := Sub(s0, s2);
      fout[f + m2] := Sub(fout[f], s3);
      tw1 := tw1 + fstride;
      tw2 := tw2 + fstride * 2;
      tw3 := tw3 + fstride * 3;
      fout[f] := Add(fout[f], s3);
      var left, right := Cpx(s5.r - s4.i, s5.i + s4.r), Cpx(s5.r + s4.i, s5.i - s4.r);
      fout[f + m] := if st.inverse then left else right;
      fout[f + m3] := if st.inverse then right else left;
      Row4Written(before, now, fout[..], o, m, tw, fstride, u);
      MulSucc(fstride, u);
      f := f + 1;
      k, u := k - 1, u + 1;
    }
  }

  /** The outputs of a radix-5 row, as the kernel computes them. */
  lemma Kernel5(t0: Cpx, t1: Cpx, t2: Cpx, t3: Cpx, t4: Cpx, ya: Cpx, yb: Cpx)
    ensures var s7, s10, s8, s9 := Add(t1, t4), Sub(t1, t4), Add(t2, t3), Sub(t2, t3);
            var s5 := Cpx(t0.r + SMul(s7.r, ya.r) + SMul(s8.r, yb.r), t0.i + SMul(s7.i, ya.r) + SMul(s8.i, yb.r));
            var s6 := Cpx(SMul(s10.i, ya.i) + SMul(s9.i, yb.i), -SMul(s10.r, ya.i) - SMul(s9.r, yb.i));
            var s11 := Cpx(t0.r + SMul(s7.r, yb.r) + SMul(s8.r, ya.r), t0.i + SMul(s7.i, yb.r) + SMul(s8.i, ya.r));
            var s12 := Cpx(-SMul(s10.i, yb.i) + SMul(s9.i, ya.i), SMul(s10.r, yb.i) - SMul(s9.r, ya.i));
            && Cpx(t0.r + (s7.r + s8.r), t0.i + (s7.i + s8.i)) == Five(t0, t1, t2, t3, t4)
            && Sub(s5, s6) == Five(t0, Mul(t1, ya), Mul(t2, yb), Mul(t3, Conj(yb)), Mul(t4, Conj(ya)))
            && Add(s5, s6) == Five(t0, Mul(t1, Conj(ya)), Mul(t2, Conj(yb)), Mul(t3, yb), Mul(t4, ya))
            && Add(s11, s12) == Five(t0, Mul(t1, yb), Mul(t2, Conj(ya)), Mul(t3, ya), Mul(t4, Conj(yb)))
            && Sub(s11, s12) == Five(t0, Mul(t1, Conj(yb)), Mul(t2, ya), Mul(t3, Conj(ya)), Mul(t4, yb))
  {
    hide Mul, SMul;
    ConjugatePair(t1, t4, ya);
    ConjugatePair(t2, t3, yb);
    ConjugatePair(t1, t4, yb);
    ConjugatePair(t2, t3, ya);
  }

  method KfBfly5(fout: array<Cpx>, o: nat, fstride: nat, st: FftState, m: nat)
    requires st.Valid() && m >= 1 && st.nfft == 5 * (fstride * m) && o + 5 * m <= fout.Length
    modifies fout
    ensures RowsDone(old(fout[..]), fout[..], o, 5, m, st.twiddles, fstride, m)
  {
    hide *;
    ghost var tw, inv := st.twiddles, st.inverse;
    StageFacts(st, fstride, 5, m);
    TableEntry(tw, 5, fstride * m, 1);
    TableEntry(tw, 5, fstride * m, 2);
    ghost var before := fout[..];
    RowsStart(before, o, 5, m, tw, fstride);
    assert fstride * 2 * m == 2 * (fstride * m);
    var ya, yb := st.twiddles[fstride * m], st.twiddles[fstride * 2 * m];
    var f0, f1, f2, f3, f4 := o, o + m, o + 2 * m, o + 3 * m, o + 4 * m;
    for u := 0 to m
      invariant f0 == o + u && f1 == f0 + m && f2 == f0 + 2 * m && f3 == f0 + 3 * m && f4 == f0 + 4 * m
      invariant RowsDone(before, fout[..], o, 5, m, tw, fstride, u)
    {
      ghost var now := fout[..];
      EntryForms(u, fstride);
      RowInput(before, now, o, 5, m, tw, inv, fstride, u, 0, f0, 0);
      RowInput(before, now, o, 5, m, tw, inv, fstride, u, 1, f1, u * fstride);
      RowInput(before, now, o, 5, m, tw, inv, fstride, u, 2, f2, 2 * u * fstride);
      RowInput(before, now, o, 5, m, tw, inv, fstride, u, 3, f3, 3 * u * fstride);
      RowInput(before, now, o, 5, m, tw, inv, fstride, u, 4, f4, 4 * u * fstride);
      Radix5Row(before, o, m, tw, inv, fstride, u);
      var s0 := fout[f0];
      var s1 := Mul(fout[f1], st.twiddles[u * fstride]);
      var s2 := Mul(fout[f2], st.twiddles[2 * u * fstride]);
      var s3 := Mul(fout[f3], st.twiddles[3 * u * fstride]);
      var s4 := Mul(fout[f4], st.twiddles[4 * u * fstride]);
      Kernel5(s0, s1, s2, s3, s4, ya, yb);
      var s7 := Add(s1, s4);
      var s10 := Sub(s1, s4);
      var s8 := Add(s2, s3);
      var s9 := Sub(s2, s3);
      fout[f0] := Cpx(fout[f0].r + (s7.r + s8.r), fout[f0].i + (s7.i + s8.i));
      var s5 := Cpx(s0.r + SMul(s7.r, ya.r) + SMul(s8.r, yb.r), s0.i + SMul(s7.i, ya.r) + SMul(s8.i, yb.r));
      var s6 := Cpx(SMul(s10.i, ya.i) + SMul(s9.i, yb.i), -SMul(s10.r, ya.i) - SMul(s9.r, yb.i));
      fout[f1] := Sub(s5, s6);
      fout[f4] := Add(s5, s6);
      var s11 := Cpx(s0.r + SMul(s7.r, yb.r) + SMul(s8.r, ya.r), s0.i + SMul(s7.i, yb.r) + SMul(s8.i, ya.r));
      var s12 := Cpx(-SMul(s10.i, yb.i) + SMul(s9.i, ya.i), SMul(s10.r, yb.i) - SMul(s9.r, ya.i));
      fout[f2] := Add(s11, s12);
      fout[f3] := Sub(s11, s12);
      Row5Written(before, now, fout[..], o, m, tw, fstride, u);
      f0, f1, f2, f3, f4 := f0 + 1, f1 + 1, f2 + 1, f3 + 1, f4 + 1;
    }
  }

  /** The innermost loop of kf_bfly_generic: one output, with a running table
      index that one subtraction keeps inside the table. */
  method AccumulateOutput(fout: array<Cpx>, o: nat, k: nat, scratch: array<Cpx>, fstride: nat, st: FftState, p: nat,
                          ghost before: seq<Cpx>, ghost m: nat)
    requires |st.twiddles| == st.nfft && ValidTwiddles(st.twiddles, st.inverse)
    requires m > 0 && p >= 1 && fstride * k < st.nfft && o + k < fout.Length && scratch.Length == p && scratch != fout
    requires forall q | 0 <= q < p :: scratch[q] == At(before, o + k % m + q * m)
    modifies fout
    ensures fout[..] == old(fout[..])[o + k := Recombined(before, o, p, m, st.twiddles, fstride, k)]
  {
    hide Mul, ValidTwiddles, At, Add;
    ghost var now, tw, f := fout[..], st.twiddles, PartTerm(before, o, m, st.twiddles, fstride, k);
    var norig := st.nfft;
    var twidx := 0;
    fout[o + k] := scratch[0];
    FirstTerm(before, o, m, tw, st.inverse, fstride, k);
    MulNonNegative(fstride, k);
    for q := 1 to p
      invariant 0 <= twidx < norig && twidx == ((q - 1) * fstride * k) % norig
      invariant fout[..] == now[o + k := Sum(f, q)]
    {
      NextIndex(q, fstride, k, norig);
      twidx := twidx + fstride * k;
      if twidx >= norig {
        twidx := twidx - norig;
      }
      var t := Mul(scratch[q], st.twiddles[twidx]);
      assert t == f(q);
      fout[o + k] := Add(fout[o + k], t);
    }
  }

  lemma FirstTerm(before: seq<Cpx>, o: nat, m: nat, tw: seq<Cpx>, inverse: bool, s: nat, k: nat)
    requires ValidTwiddles(tw, inverse) && m > 0
    ensures Sum(PartTerm(before, o, m, tw, s, k), 1) == At(before, o + k % m + 0 * m)
  {
    hide Mul, ValidTwiddles, At;
    WZero(tw, inverse);
    MulUnits(At(before, o + k % m + 0 * m));
    SumUnrolled(PartTerm(before, o, m, tw, s, k));
  }

  /** A running index below n, advanced by less than n, needs one subtraction at most. */
  lemma NextIndex(q: int, s: nat, k: nat, n: int)
    requires n > 0 && 0 <= s * k < n
    ensures (q * s * k) % n == (if ((q - 1) * s * k) % n + s * k >= n then ((q - 1) * s * k) % n + s * k - n
                                else ((q - 1) * s * k) % n + s * k)
  {
    var i, d := (q - 1) * s * k, s * k;
    assert q * s * k == i + d;
    ModAdd(i, d, n);
    DivModUnique(d, n, 0, d);
    var j := i % n + d;
    if j >= n {
      DivModUnique(j, n, 1, j - n);
    } else {
      DivModUnique(j, n, 0, j);
    }
  }

  method KfBflyGeneric(fout: array<Cpx>, o: nat, fstride: nat, st: FftState, m: nat, p: nat)
    requires st.Valid() && m >= 1 && p >= 1 && st.nfft == p * (fstride * m) && o + p * m <= fout.Length
    modifies fout
    ensures RowsDone(old(fout[..]), fout[..], o, p, m, st.twiddles, fstride, m)
  {
    hide *;
    ghost var tw := st.twiddles;
    StageFacts(st, fstride, p, m);
    ghost var before := fout[..];
    RowsStart(before, o, p, m, tw, fstride);
    var scratch := new Cpx[p];
    for u := 0 to m
      invariant RowsDone(before, fout[..], o, p, m, tw, fstride, u)
    {
      ghost var now := fout[..];
      var k := u;
      for q1 := 0 to p
        invariant k == u + q1 * m && fout[..] == now
        invariant forall q | 0 <= q < q1 :: scratch[q] == At(before, o + u + q * m)
      {
        RowBounds(before, now, o, p, m, tw, fstride, u, q1);
        scratch[q1] := fout[o + k];
        MulSucc(m, q1);
        k := k + m;
      }
      k := u;
      OutputsStart(before, now, o, p, m, tw, fstride, u);
      for q1 := 0 to p
        invariant k == u + q1 * m
        invariant OutputsDone(before, fout[..], o, p, m, tw, fstride, u, q1)
        invariant forall q | 0 <= q < p :: scratch[q] == At(before, o + u + q * m)
      {
        ghost var part := fout[..];
        OutputBounds(before, part, o, p, m, tw, fstride, u, q1);
        AccumulateOutput(fout, o, k, scratch, fstride, st, p, before, m);
        OutputsStep(before, part, fout[..], o, p, m, tw, fstride, u, q1);
        MulSucc(m, q1);
        k := k + m;
      }
      OutputsEnd(before, fout[..], o, p, m, tw, fstride, u);
    }
  }

  lemma RowBounds(before: seq<Cpx>, now: seq<Cpx>, o: nat, p: nat, m: nat, tw: seq<Cpx>, s: nat, u: nat, q: nat)
    requires u < m && q < p && o + p * m <= |now| && RowsDone(before, now, o, p, m, tw, s, u)
    ensures 0 <= u + q * m && o + u + q * m < |now|
    ensures now[o + u + q * m] == At(before, o + u + q * m)
  {
    hide Recombined;
    RowPending(before, now, o, p, m, tw, s, u, q);
  }

  lemma OutputBounds(before: seq<Cpx>, now: seq<Cpx>, o: nat, p: nat, m: nat, tw: seq<Cpx>, s: nat, u: nat, q: nat)
    requires u < m && q < p && o + p * m <= |now| && s > 0
    ensures var k := u + q * m;
            && 0 <= k && o + k < |now| && Pos(o, m, u, q) == o + k && k % m == u
            && s * k < p * (s * m)
  {
    PosOnRow(o, m, u, q, p);
    MulMonotone(u + q * m + 1, p * m, s);
    assert s * (p * m) == p * (s * m);
    assert s * (u + q * m + 1) == s * (u + q * m) + s;
  }

  /** Samples fo, fo+step, ... of f and the part of fout they are transformed into. */
  ghost predicate Transformed(before: seq<Cpx>, after: seq<Cpx>, o: nat, x: seq<Cpx>, fo: nat, step: nat, n: nat,
                              tw: seq<Cpx>, s: nat)
  {
    && |after| == |before|
    && (forall k | o <= k < o + n && k < |after| :: after[k] == Bin(x, fo, step, n, tw, s, k - o))
    && (forall j | 0 <= j < |after| && !(o <= j < o + n) :: after[j] == before[j])
  }

  /** Part q of a stage: the transform of the samples fo + q*step + i*(step*p), left at o + q*m. */
  ghost function PartBin(x: seq<Cpx>, fo: nat, step: nat, p: nat, m: nat, tw: seq<Cpx>, s: nat, q: int, r: int): Cpx
    requires m >= 0
  {
    Bin(x, fo + q * step, step * p, m, tw, s * p, r)
  }

  /** The first q parts are in place. */
  ghost predicate PartsDone(before: seq<Cpx>, now: seq<Cpx>, o: nat, x: seq<Cpx>, fo: nat, step: nat, p: nat, m: nat,
                            tw: seq<Cpx>, s: nat, q: nat)
    requires m > 0
  {
    && |now| == |before|
    && forall j | 0 <= j < |now| ::
         now[j] == if o <= j < o + q * m then PartBin(x, fo, step, p, m, tw, s, (j - o) / m, (j - o) % m) else before[j]
  }

  lemma PartsStart(before: seq<Cpx>, o: nat, x: seq<Cpx>, fo: nat, step: nat, p: nat, m: nat, tw: seq<Cpx>, s: nat)
    requires m > 0
    ensures PartsDone(before, before, o, x, fo, step, p, m, tw, s, 0)
  {
    hide PartBin;
  }

  lemma PartsStep(before: seq<Cpx>, now: seq<Cpx>, next: seq<Cpx>, o: nat, x: seq<Cpx>, fo: nat, step: nat,
                  p: nat, m: nat, tw: seq<Cpx>, s: nat, q: nat)
    requires m > 0 && q < p && o + p * m <= |now|
    requires PartsDone(before, now, o, x, fo, step, p, m, tw, s, q)
    requires Transformed(now, next, o + q * m, x, fo + q * step, step * p, m, tw, s * p)
    ensures PartsDone(before, next, o, x, fo, step, p, m, tw, s, q + 1)
  {
    hide Bin;
    MulSucc(m, q);
    forall j | 0 <= j < |next|
      ensures next[j] == if o <= j < o + (q + 1) * m
                         then PartBin(x, fo, step, p, m, tw, s, (j - o) / m, (j - o) % m) else before[j]
    {
      if o + q * m <= j < o + q * m + m {
        DivModUnique(j - o, m, q, j - o - q * m);
      }
    }
  }

  /** Combining the parts gives the transform of the whole stage. */
  lemma StageComplete(before: seq<Cpx>, mid: seq<Cpx>, after: seq<Cpx>, o: nat, x: seq<Cpx>, fo: nat, step: nat,
                      p: nat, m: nat, tw: seq<Cpx>, inverse: bool, s: nat)
    requires ValidTwiddles(tw, inverse) && m > 0 && |tw| == p * (s * m) && o + p * m <= |mid|
    requires PartsDone(before, mid, o, x, fo, step, p, m, tw, s, p)
    requires RowsDone(mid, after, o, p, m, tw, s, m)
    ensures Transformed(before, after, o, x, fo, step, p * m, tw, s)
  {
    hide ValidTwiddles, Bin, Recombined, PartBin;
    forall j | o <= j < o + p * m && j < |after|
      ensures after[j] == Bin(x, fo, step, p * m, tw, s, j - o)
    {
      StageOutput(before, mid, o, x, fo, step, p, m, tw, inverse, s, j - o);
    }
  }

  lemma StageOutput(before: seq<Cpx>, mid: seq<Cpx>, o: nat, x: seq<Cpx>, fo: nat, step: nat,
                    p: nat, m: nat, tw: seq<Cpx>, inverse: bool, s: nat, k: nat)
    requires ValidTwiddles(tw, inverse) && m > 0 && |tw| == p * (s * m) && o + p * m <= |mid|
    requires PartsDone(before, mid, o, x, fo, step, p, m, tw, s, p)
    ensures p * m >= 0
    ensures Recombined(mid, o, p, m, tw, s, k) == Bin(x, fo, step, p * m, tw, s, k)
  {
    hide ValidTwiddles, Bin, W, Mul, Sum, PartsDone;
    var part := PartTerm(mid, o, m, tw, s, k);
    forall q: nat | q < p
      ensures part(q) == Mul(Bin(x, fo + q * step, step * p, m, tw, s * p, k % m), W(tw, q * s * k))
    {
      PartAt(before, mid, o, x, fo, step, p, m, tw, s, k % m, q);
    }
    ProductForms(s, p, m);
    DecimationInTime(x, fo, step, p, m, tw, inverse, s, k, part);
  }

  lemma PartAt(before: seq<Cpx>, mid: seq<Cpx>, o: nat, x: seq<Cpx>, fo: nat, step: nat,
               p: nat, m: nat, tw: seq<Cpx>, s: nat, r: nat, q: nat)
    requires r < m && q < p && o + p * m <= |mid|
    requires PartsDone(before, mid, o, x, fo, step, p, m, tw, s, p)
    ensures At(mid, o + r + q * m) == Bin(x, fo + q * step, step * p, m, tw, s * p, r)
  {
    hide Bin;
    PosOnRow(o, m, r, q, p);
    DivModUnique(r + q * m, m, q, r);
  }

  /** A transform of length one copies its sample. */
  lemma CopyTransforms(now: seq<Cpx>, next: seq<Cpx>, o: nat, x: seq<Cpx>, fo: nat, step: nat, tw: seq<Cpx>, inverse: bool, s: nat)
    requires ValidTwiddles(tw, inverse) && o < |now| && fo < |x| && next == now[o := x[fo]]
    ensures Transformed(now, next, o, x, fo, step, 1, tw, s)
  {
    hide ValidTwiddles, W, Mul;
    WZero(tw, inverse);
    MulUnits(x[fo]);
    SumUnrolled(Term(x, fo, step, tw, s, 0));
    assert s * 0 * 0 == 0 && fo + 0 * step == fo;
  }

  lemma FactorFacts(factors: seq<int>, n: int)
    requires FactorChain(factors, n)
    ensures |factors| >= 2 && factors[0] >= 1 && factors[1] >= 1 && factors[0] * factors[1] == n
    ensures factors[1] != 1 ==> FactorChain(factors[2..], factors[1])
  {
  }

  /** The sub-transform for part q stays inside the input and the output. */
  lemma PartBounds(p: nat, m: nat, fstride: nat, inStride: nat, q: nat)
    requires q < p && m > 0
    ensures var step := fstride * inStride;
            && step >= 0 && 0 <= q * m && q * m + m <= p * m && 0 <= q * step
            && (fstride * p) * inStride == step * p
            && q * step + (m - 1) * ((fstride * p) * inStride) <= (p * m - 1) * step
            && p * (fstride * m) == (p * m) * fstride == m * (fstride * p)
  {
    var step := fstride * inStride;
    MulNonNegative(fstride, inStride);
    MulNonNegative(q, m);
    MulNonNegative(q, step);
    MulMonotone(q + 1, p, m);
    assert (fstride * p) * inStride == step * p;
    assert (m - 1) * (step * p) == ((m - 1) * p) * step;
    assert q * step + ((m - 1) * p) * step == (q + (m - 1) * p) * step;
    assert q + (m - 1) * p <= p * m - 1;
    MulMonotone(q + (m - 1) * p, p * m - 1, step);
  }

  /** kf_work: n*fstride is the length of the table, and the call transforms every
      fstride-th of the samples of the whole transform. */
  method KfWork(fout: array<Cpx>, o: nat, f: array<Cpx>, fo: nat, fstride: nat, inStride: nat,
                factors: seq<int>, st: FftState, ghost n: nat)
    requires st.Valid() && FactorChain(factors, n) && st.nfft == n * fstride
    requires fout != f && o + n <= fout.Length
    requires fo + (n - 1) * (fstride * inStride) < f.Length
    modifies fout
    ensures Transformed(old(fout[..]), fout[..], o, f[..], fo, fstride * inStride, n, st.twiddles, fstride)
    decreases |factors|
  {
    hide *;
    FactorFacts(factors, n);
    var p, m := factors[0], factors[1];
    PartBounds(p, m, fstride, inStride, 0);
    StageFacts(st, fstride, p, m);
    var step := fstride * inStride;
    ghost var x, tw, before := f[..], st.twiddles, fout[..];
    PartsStart(before, o, x, fo, step, p, m, tw, fstride);
    var q := 0;
    if m == 1 {
      while q != p
        invariant 0 <= q <= p && fout.Length == |before|
        invariant PartsDone(before, fout[..], o, x, fo, step, p, m, tw, fstride, q)
      {
        ghost var now := fout[..];
        PartBounds(p, m, fstride, inStride, q);
        fout[o + q] := f[fo + q * step];
        CopyTransforms(now, fout[..], o + q, x, fo + q * step, step * p, tw, st.inverse, fstride * p);
        PartsStep(before, now, fout[..], o, x, fo, step, p, m, tw, fstride, q);
        q := q + 1;
      }
    } else {
      while q != p
        invariant 0 <= q <= p && f[..] == x
        invariant PartsDone(before, fout[..], o, x, fo, step, p, m, tw, fstride, q)
      {
        ghost var now := fout[..];
        PartBounds(p, m, fstride, inStride, q);
        KfWork(fout, o + q * m, f, fo + q * step, fstride * p, inStride, factors[2..], st, m);
        PartsStep(before, now, fout[..], o, x, fo, step, p, m, tw, fstride, q);
        q := q + 1;
      }
    }
    ghost var mid := fout[..];
    match p {
      case 2 => KfBfly2(fout, o, fstride, st, m);
      case 3 => KfBfly3(fout, o, fstride, st, m);
      case 4 => KfBfly4(fout, o, fstride, st, m);
      case 5 => KfBfly5(fout, o, fstride, st, m);
      case _ => KfBflyGeneric(fout, o, fstride, st, m, p);
    }
    StageComplete(before, mid, fout[..], o, x, fo, step, p, m, tw, st.inverse, fstride);
  }

  /** kiss_fft_stride. Equal pointers are equal arrays and offsets; the transform
      then goes through a temporary buffer and is copied back. */
  method KissFftStride(st: FftState, fin: array<Cpx>, fi: nat, fout: array<Cpx>, fo: nat, inStride: nat)
    requires st.Valid()
    requires fin == fout ==> fi == fo
    requires fo + st.nfft <= fout.Length && fi + (st.nfft - 1) * inStride < fin.Length
    modifies fout
    ensures Transformed(old(fout[..]), fout[..], fo, old(fin[..]), fi, inStride, st.nfft, st.twiddles, 1)
  {
    StateFacts(st);
    hide *;
    assert 1 * inStride == inStride;
    if fin == fout {
      ghost var before, x := fout[..], fin[..];
      var tmpbuf := new Cpx[st.nfft];
      ghost var blank := tmpbuf[..];
      KfWork(tmpbuf, 0, fin, fi, 1, inStride, st.factors, st, st.nfft);
      CopyFrom(tmpbuf, fout, fo);
      CopiedBack(blank, tmpbuf[..], before, fout[..], fo, x, fi, inStride, st);
    } else {
      KfWork(fout, fo, fin, fi, 1, inStride, st.factors, st, st.nfft);
    }
  }

  lemma StateFacts(st: FftState)
    requires st.Valid()
    ensures st.nfft >= 1 && FactorChain(st.factors, st.nfft)
  {
  }

  /** memcpy of a whole buffer to position o of another. */
  method CopyFrom(src: array<Cpx>, dst: array<Cpx>, o: nat)
    requires src != dst && o + src.Length <= dst.Length
    modifies dst
    ensures dst[..] == old(dst[..])[..o] + src[..] + old(dst[..])[o + src.Length..]
  {
    ghost var was := dst[..];
    for i := 0 to src.Length
      invariant dst[..] == was[..o] + src[..i] + was[o + i..]
    {
      dst[o + i] := src[i];
    }
  }

  lemma CopiedBack(blank: seq<Cpx>, t: seq<Cpx>, before: seq<Cpx>, after: seq<Cpx>, fo: nat,
                   x: seq<Cpx>, fi: nat, inStride: nat, st: FftState)
    requires fo + |t| <= |before| && |t| == st.nfft
    requires Transformed(blank, t, 0, x, fi, inStride, st.nfft, st.twiddles, 1)
    requires after == before[..fo] + t + before[fo + |t|..]
    ensures Transformed(before, after, fo, x, fi, inStride, st.nfft, st.twiddles, 1)
  {
    hide Bin;
  }
}
