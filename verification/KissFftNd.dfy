/** `kiss_fftnd.c`: the transform over several dimensions, one dimension at a time. */
module KissFftNd {
  import opened Complex
  import opened Sums
  import opened Twiddles
  import opened Integers
  import opened Fourier
  import opened FftWork
  import opened FftFactor
  import KissFft

  // ----- Sizes -----

  ghost predicate AllValid(states: seq<FftState>) {
    forall st | st in states :: st.Valid()
  }

  /** The product of the first k dimensions. */
  function Before(states: seq<FftState>, k: nat): int
    requires k <= |states|
  {
    if k == 0 then 1 else states[k - 1].nfft * Before(states, k - 1)
  }

  /** The product of the dimensions from k on. */
  function After(states: seq<FftState>, k: nat): int
    requires k <= |states|
    decreases |states| - k
  {
    if k == |states| then 1 else states[k].nfft * After(states, k + 1)
  }

  lemma StateIsValid(states: seq<FftState>, k: nat)
    requires AllValid(states) && k < |states|
    ensures states[k].Valid() && states[k].nfft >= 1 && |states[k].twiddles| == states[k].nfft
    ensures ValidTwiddles(states[k].twiddles, states[k].inverse)
  {
    assert states[k] in states;
    hide ValidTwiddles;
  }

  lemma {:induction false} SizesPositive(states: seq<FftState>, k: nat)
    requires AllValid(states) && k <= |states|
    ensures Before(states, k) >= 1
    decreases k
  {
    if k > 0 {
      SizesPositive(states, k - 1);
      StateIsValid(states, k - 1);
      hide ValidTwiddles;
      MulMonotone(1, states[k - 1].nfft, Before(states, k - 1));
    }
  }

  lemma {:induction false} AfterPositive(states: seq<FftState>, k: nat)
    requires AllValid(states) && k <= |states|
    ensures After(states, k) >= 1
    decreases |states| - k
  {
    if k < |states| {
      AfterPositive(states, k + 1);
      StateIsValid(states, k);
      hide ValidTwiddles;
      MulMonotone(1, states[k].nfft, After(states, k + 1));
    }
  }

  lemma {:induction false} SizesMultiply(states: seq<FftState>, k: nat)
    requires k <= |states|
    ensures Before(states, k) * After(states, k) == Before(states, |states|)
    decreases |states| - k
  {
    if k < |states| {
      SizesMultiply(states, k + 1);
      var a, d, r := Before(states, k), states[k].nfft, After(states, k + 1);
      assert a * (d * r) == (d * a) * r;
    }
  }

  // ----- The multidimensional transform -----

  /** The twiddle factor for the row-major positions p and q in the first k dimensions:
      the product over these dimensions of the entries for the products of the indices. */
  function Phase(states: seq<FftState>, k: nat, p: int, q: int): Cpx
    requires AllValid(states) && k <= |states|
  {
    if k == 0 then ONE
    else
      StateIsValid(states, k - 1);
      var d := states[k - 1].nfft;
      Mul(Phase(states, k - 1, p / d, q / d), W(states[k - 1].twiddles, (p % d) * (q % d)))
  }

  /** Term p of the sum over the first k dimensions, at position j of the others. */
  ghost function NdTerm(states: seq<FftState>, x: seq<Cpx>, k: nat, j: int, q: int): int -> Cpx
    requires AllValid(states) && k <= |states|
  {
    p => Mul(At(x, p * After(states, k) + j), Phase(states, k, p, q))
  }

  /** The transform over the first k dimensions at position q of these and j of the others. */
  ghost function StageBin(states: seq<FftState>, x: seq<Cpx>, k: nat, j: int, q: int): Cpx
    requires AllValid(states) && k <= |states|
  {
    SizesPositive(states, k);
    Sum(NdTerm(states, x, k, j, q), Before(states, k))
  }

  /** After k stages the transformed dimensions come last. */
  ghost function StageValue(states: seq<FftState>, x: seq<Cpx>, k: nat, t: int): Cpx
    requires AllValid(states) && k <= |states|
  {
    SizesPositive(states, k);
    StageBin(states, x, k, t / Before(states, k), t % Before(states, k))
  }

  ghost predicate HoldsStage(states: seq<FftState>, x: seq<Cpx>, k: nat, buf: seq<Cpx>)
    requires AllValid(states) && k <= |states|
  {
    && Before(states, |states|) <= |buf|
    && forall t | 0 <= t < Before(states, |states|) :: buf[t] == StageValue(states, x, k, t)
  }

  /** Term p of the sum over all dimensions. */
  ghost function FullTerm(states: seq<FftState>, x: seq<Cpx>, t: int): int -> Cpx
    requires AllValid(states)
  {
    p => Mul(At(x, p), Phase(states, |states|, p, t))
  }

  /** Entry q of the transform over all dimensions of a row-major array. */
  ghost function NdBin(states: seq<FftState>, x: seq<Cpx>, q: int): Cpx
    requires AllValid(states)
  {
    SizesPositive(states, |states|);
    Sum(FullTerm(states, x, q), Before(states, |states|))
  }

  // ----- Place arithmetic of a stage -----

  /** Position (j*r + h, q) of the input of a stage, with a = Before and stride r*a. */
  lemma InputIndex(a: int, r: int, h: int, q: int, j: int)
    requires a > 0 && 0 <= q < a
    ensures var t := (h * a + q) + j * (r * a);
            t / a == j * r + h && t % a == q
  {
    var t := (h * a + q) + j * (r * a);
    assert t == (j * r + h) * a + q;
    DivModUnique(t, a, j * r + h, q);
  }

  lemma InputInside(a: int, d: int, r: int, h: int, q: int, j: int)
    requires a > 0 && 0 <= q < a && 0 <= h < r && 0 <= j < d
    ensures 0 <= (h * a + q) + j * (r * a) < a * (d * r)
  {
    var s := j * r + h;
    MulMonotone(j + 1, d, r);
    MulSucc(r, j);
    MulNonNegative(j, r);
    assert s + 1 <= d * r;
    MulMonotone(s + 1, d * r, a);
    MulSucc(a, s);
    MulNonNegative(s, a);
    assert (h * a + q) + j * (r * a) == s * a + q;
  }

  /** Position (h, q*d + v) of the output. */
  lemma OutputIndex(a: int, d: int, h: int, q: int, v: int, i: int)
    requires a > 0 && d > 0 && 0 <= q < a && 0 <= v < d && i == h * a + q
    ensures 0 <= q * d + v < d * a
    ensures (i * d + v) / (d * a) == h && (i * d + v) % (d * a) == q * d + v
  {
    MulMonotone(q + 1, a, d);
    MulSucc(d, q);
    MulNonNegative(q, d);
    var t := (h * a + q) * d + v;
    assert t == h * (d * a) + (q * d + v);
    DivModUnique(t, d * a, h, q * d + v);
  }

  lemma PhaseSplit(states: seq<FftState>, k: nat, p: int, j: int, q: int, v: int)
    requires AllValid(states) && k < |states| && 0 <= j < states[k].nfft && 0 <= v < states[k].nfft
    ensures |states[k].twiddles| > 0
    ensures Phase(states, k + 1, states[k].nfft * p + j, q * states[k].nfft + v)
         == Mul(Phase(states, k, p, q), W(states[k].twiddles, j * v))
  {
    StateIsValid(states, k);
    hide Mul, W, ValidTwiddles, FftState.Valid;
    var d := states[k].nfft;
    DivModUnique(d * p + j, d, p, j);
    DivModUnique(q * d + v, d, q, v);
  }

  /** Term (p, j) of the next stage's sum. */
  lemma NextTerm(states: seq<FftState>, x: seq<Cpx>, k: nat, h: int, q: int, v: int, p: int, j: int)
    requires AllValid(states) && k < |states| && 0 <= j < states[k].nfft && 0 <= v < states[k].nfft
    ensures |states[k].twiddles| > 0
    ensures var d, r, tw := states[k].nfft, After(states, k + 1), states[k].twiddles;
            NdTerm(states, x, k + 1, h, q * d + v)(Place(d, p, j))
            == Mul(NdTerm(states, x, k, j * r + h, q)(p), W(tw, j * v))
  {
    hide *;
    var d, r, tw := states[k].nfft, After(states, k + 1), states[k].twiddles;
    PhaseSplit(states, k, p, j, q, v);
    NdTermAt(states, x, k + 1, h, q * d + v, Place(d, p, j));
    NdTermAt(states, x, k, j * r + h, q, p);
    SplitIndex(states, k, p, j, h);
    MulAssoc(At(x, p * After(states, k) + (j * r + h)), Phase(states, k, p, q), W(tw, j * v));
  }

  lemma NdTermAt(states: seq<FftState>, x: seq<Cpx>, k: nat, j: int, q: int, p: int)
    requires AllValid(states) && k <= |states|
    ensures NdTerm(states, x, k, j, q)(p) == Mul(At(x, p * After(states, k) + j), Phase(states, k, p, q))
  {
    hide Mul, At, Phase, After;
  }

  lemma SplitIndex(states: seq<FftState>, k: nat, p: int, j: int, h: int)
    requires k < |states|
    ensures var d, r := states[k].nfft, After(states, k + 1);
            Place(d, p, j) == d * p + j && Place(d, p, j) * r + h == p * After(states, k) + (j * r + h)
  {
    var d, r := states[k].nfft, After(states, k + 1);
    assert (d * p + j) * r == p * (d * r) + j * r;
  }

  /** A column of a rectangle of terms with a common factor. */
  lemma ColumnOf(f: int -> Cpx, g: int -> Cpx, c: Cpx, d: nat, a: nat, j: int)
    requires forall p | 0 <= p < a :: f(Place(d, p, j)) == Mul(g(p), c)
    ensures ColSums(Blocks(f, d), a)(j) == Mul(Sum(g, a), c)
  {
    hide Mul, Place;
    SumScale(g, c, a);
    SumCongruent(p => Blocks(f, d)(p, j), p => Mul(g(p), c), a);
  }

  lemma StageBinIs(states: seq<FftState>, x: seq<Cpx>, k: nat, j: int, q: int)
    requires AllValid(states) && k <= |states|
    ensures Before(states, k) >= 1 && StageBin(states, x, k, j, q) == Sum(NdTerm(states, x, k, j, q), Before(states, k))
  {
    SizesPositive(states, k);
    hide Before, NdTerm, Sum, AllValid;
  }

  /** Term j of a column's transform sums the terms (p, j) of the next stage over p. */
  lemma ColumnTerm(states: seq<FftState>, x: seq<Cpx>, k: nat, h: int, q: int, v: int, j: int)
    requires AllValid(states) && k < |states| && 0 <= j < states[k].nfft && 0 <= v < states[k].nfft
    ensures Before(states, k) >= 0
    ensures var d, r, tw := states[k].nfft, After(states, k + 1), states[k].twiddles;
            ColSums(Blocks(NdTerm(states, x, k + 1, h, q * d + v), d), Before(states, k))(j)
            == Mul(StageBin(states, x, k, j * r + h, q), W(tw, j * v))
  {
    hide *;
    var d, r, tw := states[k].nfft, After(states, k + 1), states[k].twiddles;
    var f, g, a := NdTerm(states, x, k + 1, h, q * d + v), NdTerm(states, x, k, j * r + h, q), Before(states, k);
    StageBinIs(states, x, k, j * r + h, q);
    forall p | 0 <= p < a ensures f(Place(d, p, j)) == Mul(g(p), W(tw, j * v)) {
      NextTerm(states, x, k, h, q, v, p, j);
    }
    ColumnOf(f, g, W(tw, j * v), d, a, j);
  }

  lemma BeforeNext(states: seq<FftState>, k: nat)
    requires k < |states|
    ensures Before(states, k + 1) == states[k].nfft * Before(states, k)
    ensures After(states, k) == states[k].nfft * After(states, k + 1)
  {
  }

  lemma StageEntry(states: seq<FftState>, x: seq<Cpx>, k: nat, buf: seq<Cpx>, t: int)
    requires AllValid(states) && k <= |states| && HoldsStage(states, x, k, buf) && 0 <= t < Before(states, |states|)
    ensures Before(states, k) >= 1 && t < |buf|
    ensures At(buf, t) == buf[t] == StageBin(states, x, k, t / Before(states, k), t % Before(states, k))
  {
    SizesPositive(states, k);
    hide Before, AllValid, StageBin;
  }

  /** The samples of a column in the buffer. */
  lemma ColumnSample(states: seq<FftState>, x: seq<Cpx>, buf: seq<Cpx>, k: nat, h: int, q: int, j: int)
    requires AllValid(states) && k < |states| && HoldsStage(states, x, k, buf)
    requires 0 <= j < states[k].nfft && 0 <= h < After(states, k + 1) && 0 <= q < Before(states, k)
    ensures var a, r := Before(states, k), After(states, k + 1);
            At(buf, (h * a + q) + j * (r * a)) == StageBin(states, x, k, j * r + h, q)
  {
    hide *;
    var a, d, r := Before(states, k), states[k].nfft, After(states, k + 1);
    InputInside(a, d, r, h, q, j);
    InputIndex(a, r, h, q, j);
    SizesMultiply(states, k);
    BeforeNext(states, k);
    StageEntry(states, x, k, buf, (h * a + q) + j * (r * a));
  }

  lemma TermAt(buf: seq<Cpx>, i: int, step: int, tw: seq<Cpx>, v: int, j: int)
    ensures Term(buf, i, step, tw, 1, v)(j) == Mul(At(buf, i + j * step), W(tw, j * v))
  {
    hide Mul, At, W;
    assert 1 * j * v == j * v;
  }

  /** The transform of a column of stage k is an entry of the next stage. */
  lemma ColumnBin(states: seq<FftState>, x: seq<Cpx>, buf: seq<Cpx>, k: nat, h: int, q: int, v: int)
    requires AllValid(states) && k < |states| && HoldsStage(states, x, k, buf)
    requires 0 <= v < states[k].nfft && 0 <= h < After(states, k + 1) && 0 <= q < Before(states, k)
    ensures var a, d, r, tw := Before(states, k), states[k].nfft, After(states, k + 1), states[k].twiddles;
            Bin(buf, h * a + q, r * a, d, tw, 1, v) == StageBin(states, x, k + 1, h, q * d + v)
  {
    hide *;
    var a, d, r, tw := Before(states, k), states[k].nfft, After(states, k + 1), states[k].twiddles;
    var f := NdTerm(states, x, k + 1, h, q * d + v);
    var term := Term(buf, h * a + q, r * a, tw, 1, v);
    forall j | 0 <= j < d ensures term(j) == ColSums(Blocks(f, d), a)(j) {
      TermAt(buf, h * a + q, r * a, tw, v, j);
      ColumnSample(states, x, buf, k, h, q, j);
      ColumnTerm(states, x, k, h, q, v, j);
    }
    SumCongruent(term, ColSums(Blocks(f, d), a), d);
    SumDecimate(f, d, a);
    BeforeNext(states, k);
    StageBinIs(states, x, k + 1, h, q * d + v);
    BinIs(buf, h * a + q, r * a, d, tw, v);
  }

  lemma BinIs(buf: seq<Cpx>, i: int, step: int, n: nat, tw: seq<Cpx>, v: int)
    ensures Bin(buf, i, step, n, tw, 1, v) == Sum(Term(buf, i, step, tw, 1, v), n)
  {
  }

  /** Entry i*d + v of the stage's output, for column i. */
  lemma ColumnDone(states: seq<FftState>, x: seq<Cpx>, buf: seq<Cpx>, k: nat, i: int, v: int)
    requires AllValid(states) && k < |states| && HoldsStage(states, x, k, buf)
    requires 0 <= v < states[k].nfft && 0 <= i < After(states, k + 1) * Before(states, k)
    ensures var a, d, r, tw := Before(states, k), states[k].nfft, After(states, k + 1), states[k].twiddles;
            Bin(buf, i, r * a, d, tw, 1, v) == StageValue(states, x, k + 1, i * d + v)
  {
    hide *;
    SizesPositive(states, k);
    var a, d, r, tw := Before(states, k), states[k].nfft, After(states, k + 1), states[k].twiddles;
    var h, q := i / a, i % a;
    ColumnPlace(i, a, r);
    ColumnBin(states, x, buf, k, h, q, v);
    OutputIndex(a, d, h, q, v, i);
    BeforeNext(states, k);
    StageValueIs(states, x, k + 1, i * d + v);
  }

  lemma ColumnPlace(i: int, a: int, r: int)
    requires a > 0 && 0 <= i < r * a
    ensures 0 <= i / a < r && 0 <= i % a < a && i / a * a + i % a == i
  {
    var h := i / a;
    if h >= r {
      MulMonotone(r, h, a);
    }
  }

  lemma StageValueIs(states: seq<FftState>, x: seq<Cpx>, k: nat, t: int)
    requires AllValid(states) && k <= |states|
    ensures Before(states, k) >= 1
    ensures StageValue(states, x, k, t) == StageBin(states, x, k, t / Before(states, k), t % Before(states, k))
  {
    SizesPositive(states, k);
    hide Before, StageBin, AllValid;
  }

  /** Before the first stage: the samples themselves. */
  lemma FirstStage(states: seq<FftState>, x: seq<Cpx>)
    requires AllValid(states) && Before(states, |states|) <= |x|
    ensures HoldsStage(states, x, 0, x)
  {
    hide AllValid, Mul;
    forall t | 0 <= t < Before(states, |states|) ensures x[t] == StageValue(states, x, 0, t) {
      var f := NdTerm(states, x, 0, t, 0);
      assert t / 1 == t && t % 1 == 0;
      assert 0 * After(states, 0) + t == t;
      MulUnits(x[t]);
      assert Sum(f, 1) == Add(Sum(f, 0), f(0)) == f(0);
    }
  }

  /** After the last stage: the transform over all dimensions, in row-major order. */
  lemma LastStage(states: seq<FftState>, x: seq<Cpx>, buf: seq<Cpx>, t: int)
    requires AllValid(states) && HoldsStage(states, x, |states|, buf) && 0 <= t < Before(states, |states|)
    ensures buf[t] == NdBin(states, x, t)
  {
    hide *;
    var n, a := |states|, Before(states, |states|);
    StageEntry(states, x, n, buf, t);
    DivModUnique(t, a, 0, t);
    StageBinIs(states, x, n, 0, t);
    AllTermsAgree(states, x, t, a);
    NdBinIs(states, x, t);
  }

  lemma AllTermsAgree(states: seq<FftState>, x: seq<Cpx>, t: int, a: nat)
    requires AllValid(states)
    ensures Sum(NdTerm(states, x, |states|, 0, t), a) == Sum(FullTerm(states, x, t), a)
  {
    hide AllValid, Mul, At, Phase;
    var f, g := NdTerm(states, x, |states|, 0, t), FullTerm(states, x, t);
    forall p | 0 <= p < a ensures f(p) == g(p) {
      assert After(states, |states|) == 1 && p * 1 + 0 == p;
    }
    SumCongruent(f, g, a);
  }

  lemma NdBinIs(states: seq<FftState>, x: seq<Cpx>, t: int)
    requires AllValid(states)
    ensures Before(states, |states|) >= 1
    ensures NdBin(states, x, t) == Sum(FullTerm(states, x, t), Before(states, |states|))
  {
    SizesPositive(states, |states|);
    hide AllValid, FullTerm, Before, Sum;
  }

  // ----- The stage loop -----

  lemma StrideIs(states: seq<FftState>, k: nat)
    requires AllValid(states) && k < |states|
    ensures states[k].nfft >= 1
    ensures Before(states, |states|) / states[k].nfft == After(states, k + 1) * Before(states, k)
    ensures states[k].nfft * (After(states, k + 1) * Before(states, k)) == Before(states, |states|)
    ensures After(states, k + 1) * Before(states, k) >= 1
  {
    hide *;
    StateIsValid(states, k);
    SizesMultiply(states, k);
    BeforeNext(states, k);
    SizesPositive(states, k);
    AfterPositive(states, k + 1);
    StrideArithmetic(Before(states, k), states[k].nfft, After(states, k + 1));
  }

  lemma StrideArithmetic(a: int, d: int, r: int)
    requires a >= 1 && d >= 1 && r >= 1
    ensures (a * (d * r)) / d == r * a && d * (r * a) == a * (d * r) && r * a >= 1
  {
    assert a * (d * r) == (r * a) * d + 0;
    DivModUnique(a * (d * r), d, r * a, 0);
    MulMonotone(1, r, a);
  }

  lemma ColumnRoom(i: int, d: int, stride: int)
    requires 0 <= i < stride && d >= 1
    ensures 0 <= i * d && i * d + d <= d * stride && i + (d - 1) * stride < d * stride && (i + 1) * d == i * d + d
  {
    MulNonNegative(i, d);
    MulSucc(d, i);
    MulMonotone(i + 1, stride, d);
    assert (d - 1) * stride == d * stride - stride;
  }

  /** Entries below position `end` of the next stage are in place. */
  ghost predicate DoneBelow(states: seq<FftState>, x: seq<Cpx>, k: nat, buf: seq<Cpx>, end: int)
    requires AllValid(states) && k < |states|
  {
    end <= |buf| && forall t | 0 <= t < end :: buf[t] == StageValue(states, x, k + 1, t)
  }

  lemma ColumnWritten(states: seq<FftState>, x: seq<Cpx>, buf: seq<Cpx>, k: nat, i: nat, was: seq<Cpx>, out: seq<Cpx>)
    requires AllValid(states) && k < |states| && HoldsStage(states, x, k, buf)
    requires i < After(states, k + 1) * Before(states, k) && states[k].nfft >= 1
    requires i * states[k].nfft + states[k].nfft <= |out| && 0 <= i * states[k].nfft
    requires 0 <= After(states, k + 1) * Before(states, k)
    requires DoneBelow(states, x, k, was, i * states[k].nfft)
    requires Transformed(was, out, i * states[k].nfft, buf, i, After(states, k + 1) * Before(states, k),
                         states[k].nfft, states[k].twiddles, 1)
    ensures DoneBelow(states, x, k, out, i * states[k].nfft + states[k].nfft)
  {
    hide StageValue, AllValid, HoldsStage, Before, After, Bin;
    var d := states[k].nfft;
    forall t | 0 <= t < i * d + d ensures out[t] == StageValue(states, x, k + 1, t) {
      if t >= i * d {
        ColumnDone(states, x, buf, k, i, t - i * d);
      }
    }
  }

  /** One stage: a transform of every column, each written as a row. */
  method Stage(states: seq<FftState>, dimprod: int, k: nat, bufin: array<Cpx>, bufout: array<Cpx>, ghost x: seq<Cpx>)
    requires AllValid(states) && k < |states| && dimprod == Before(states, |states|)
    requires bufin != bufout && dimprod <= bufin.Length && dimprod <= bufout.Length
    requires HoldsStage(states, x, k, bufin[..])
    modifies bufout
    ensures HoldsStage(states, x, k + 1, bufout[..])
  {
    hide *;
    StateIsValid(states, k);
    StrideIs(states, k);
    var curdim := states[k].nfft;
    var stride := dimprod / curdim;
    ghost var buf := bufin[..];
    NoneDone(states, x, k, bufout[..]);
    for i := 0 to stride
      invariant DoneBelow(states, x, k, bufout[..], i * curdim)
    {
      ColumnRoom(i, curdim, stride);
      ghost var was := bufout[..];
      KissFftStride(states[k], bufin, i, bufout, i * curdim, stride);
      ColumnWritten(states, x, buf, k, i, was, bufout[..]);
    }
    StageDone(states, x, k, bufout[..], stride * curdim);
  }

  lemma NoneDone(states: seq<FftState>, x: seq<Cpx>, k: nat, buf: seq<Cpx>)
    requires AllValid(states) && k < |states|
    ensures DoneBelow(states, x, k, buf, 0 * states[k].nfft)
  {
    hide StageValue, AllValid;
  }

  lemma StageDone(states: seq<FftState>, x: seq<Cpx>, k: nat, buf: seq<Cpx>, end: int)
    requires AllValid(states) && k < |states| && DoneBelow(states, x, k, buf, end)
    requires end == Before(states, |states|)
    ensures HoldsStage(states, x, k + 1, buf)
  {
    hide StageValue, AllValid, Before;
  }

  // ----- kiss_fftnd -----

  datatype NdState = NdState(states: seq<FftState>, dimprod: int, tmpbuf: array<Cpx>) {
    ghost predicate Valid() {
      AllValid(states) && dimprod == Before(states, |states|) == tmpbuf.Length
    }
  }

  /** kiss_fftnd_alloc: a state for every dimension; turns[i](t) stands for exp(2*pi*i*t/dims[i]). */
  method KissFftNdAlloc(dims: seq<int>, inverse: bool, turns: seq<int -> Cpx>) returns (st: NdState)
    requires |turns| == |dims|
    requires forall i | 0 <= i < |dims| :: 1 <= dims[i] <= INT_MAX && KissFft.IsTurn(turns[i], dims[i])
    ensures st.Valid() && fresh(st.tmpbuf) && |st.states| == |dims|
    ensures forall i | 0 <= i < |dims| ::
              && st.states[i].nfft == dims[i] && st.states[i].inverse == inverse
              && KissFft.IsTableOf(st.states[i].twiddles, turns[i], inverse, dims[i])
  {
    hide KissFft.IsTurn, ValidTwiddles, FftState.Valid, KissFft.IsTableOf;
    var states: seq<FftState> := [];
    var dimprod := 1;
    for i := 0 to |dims|
      invariant |states| == i && AllValid(states) && dimprod == Before(states, i)
      invariant forall j | 0 <= j < i ::
                  && states[j].nfft == dims[j] && states[j].inverse == inverse
                  && KissFft.IsTableOf(states[j].twiddles, turns[j], inverse, dims[j])
    {
      var next := KissFft.KissFftAlloc(dims[i], inverse, turns[i]);
      BeforeSnoc(states, next, i);
      states := states + [next];
      dimprod := dimprod * dims[i];
    }
    SizesPositive(states, |states|);
    var tmpbuf := new Cpx[dimprod];
    st := NdState(states, dimprod, tmpbuf);
  }

  lemma {:induction false} BeforePrefix(states: seq<FftState>, more: seq<FftState>, k: nat)
    requires k <= |states|
    ensures Before(states + more, k) == Before(states, k)
    decreases k
  {
    if k > 0 {
      BeforePrefix(states, more, k - 1);
    }
  }

  lemma BeforeSnoc(states: seq<FftState>, next: FftState, k: nat)
    requires k == |states|
    ensures Before(states + [next], k + 1) == Before(states, k) * next.nfft
  {
    BeforePrefix(states, [next], k);
  }

  /** kiss_fftnd: the multidimensional transform of the input, also when it is the output. */
  method KissFftNd(st: NdState, fin: array<Cpx>, fout: array<Cpx>)
    requires st.Valid() && st.dimprod <= fin.Length && st.dimprod <= fout.Length
    requires st.tmpbuf != fin && st.tmpbuf != fout
    modifies fout, st.tmpbuf
    ensures st.states == [] ==> fout[..] == old(fout[..])
    ensures st.states != [] ==>
              forall t | 0 <= t < st.dimprod :: fout[t] == NdBin(st.states, old(fin[..]), t)
  {
    ghost var x := fin[..];
    var ndims := |st.states|;
    hide *;
    NdSizes(st);
    FirstStage(st.states, x);
    var bufin := fin;
    var bufout := st.tmpbuf;
    if ndims % 2 == 1 {
      bufout := fout;
      if fin == fout {
        CopyIn(fin, st.tmpbuf);
        bufin := st.tmpbuf;
        SameStart(st.states, x, bufin[..]);
      }
    }
    RunStages(st, bufin, bufout, fout, x);
  }

  /** The loop over the dimensions, toggling between the two buffers. */
  method RunStages(st: NdState, first: array<Cpx>, second: array<Cpx>, fout: array<Cpx>, ghost x: seq<Cpx>)
    requires AllValid(st.states) && st.dimprod == Before(st.states, |st.states|) == st.tmpbuf.Length
    requires second == if |st.states| % 2 == 1 then fout else st.tmpbuf
    requires first != second && st.dimprod <= first.Length && st.dimprod <= fout.Length && st.tmpbuf != fout
    requires HoldsStage(st.states, x, 0, first[..])
    modifies fout, st.tmpbuf
    ensures st.states == [] ==> fout[..] == old(fout[..])
    ensures st.states != [] ==> forall t | 0 <= t < st.dimprod :: fout[t] == NdBin(st.states, x, t)
  {
    hide *;
    var ndims, tmpbuf := |st.states|, st.tmpbuf;
    var bufin, bufout := first, second;
    ghost var last := ndims % 2 == 1;
    for k := 0 to ndims
      invariant last == ((ndims - k) % 2 == 1)
      invariant bufout == if last then fout else tmpbuf
      invariant bufin != bufout && st.dimprod <= bufin.Length
      invariant k > 0 ==> bufin == if last then tmpbuf else fout
      invariant HoldsStage(st.states, x, k, bufin[..])
      invariant ndims == 0 ==> fout[..] == old(fout[..])
    {
      Stage(st.states, st.dimprod, k, bufin, bufout, x);
      if bufout == tmpbuf {
        bufout := fout;
        bufin := tmpbuf;
      } else {
        bufout := tmpbuf;
        bufin := fout;
      }
      last := !last;
    }
    if ndims > 0 {
      forall t | 0 <= t < st.dimprod ensures fout[t] == NdBin(st.states, x, t) {
        LastStage(st.states, x, fout[..], t);
      }
    }
  }

  /** memcpy of the input to the temporary buffer. */
  method CopyIn(fin: array<Cpx>, tmpbuf: array<Cpx>)
    requires fin != tmpbuf && tmpbuf.Length <= fin.Length
    modifies tmpbuf
    ensures tmpbuf[..] == fin[..tmpbuf.Length]
  {
    for i := 0 to tmpbuf.Length
      invariant tmpbuf[..i] == fin[..i]
    {
      tmpbuf[i] := fin[i];
    }
    assert tmpbuf[..tmpbuf.Length] == tmpbuf[..];
  }

  lemma NdSizes(st: NdState)
    requires st.Valid()
    ensures AllValid(st.states) && st.dimprod == Before(st.states, |st.states|) == st.tmpbuf.Length
  {
    hide AllValid, Before;
  }

  lemma SameStart(states: seq<FftState>, x: seq<Cpx>, buf: seq<Cpx>)
    requires AllValid(states) && HoldsStage(states, x, 0, x)
    requires |buf| == Before(states, |states|) <= |x| && buf == x[..|buf|]
    ensures HoldsStage(states, x, 0, buf)
  {
    hide StageValue, AllValid, Before;
  }
}
