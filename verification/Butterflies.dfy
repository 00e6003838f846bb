/** The five butterfly kernels of `kiss_fft.c`, working in place on an array.
    Each is proved to leave the same radix-p recombination of the buffer it was
    given, so `kf_bfly2` to `kf_bfly5` refine `kf_bfly_generic`. */
module Butterflies {
  import opened Complex
  import opened Sums
  import opened Twiddles
  import opened Integers
  import opened Fourier

  /** `now` holds the radix-p recombination of `before` at the positions o+k with
      k % m < u, and is otherwise unchanged. A kernel is done when u == m. */
  ghost predicate RowsDone(before: seq<Cpx>, now: seq<Cpx>, o: nat, p: nat, m: nat, tw: seq<Cpx>, s: nat, u: nat)
    requires m > 0
  {
    && |now| == |before|
    && forall j | 0 <= j < |now| ::
         now[j] == if o <= j < o + p * m && (j - o) % m < u
                   then Recombined(before, o, p, m, tw, s, j - o)
                   else before[j]
  }

  lemma RowsStart(before: seq<Cpx>, o: nat, p: nat, m: nat, tw: seq<Cpx>, s: nat)
    requires m > 0
    ensures RowsDone(before, before, o, p, m, tw, s, 0)
  {
  }

  /** Position of input q of row u. */
  function Pos(o: nat, m: nat, u: nat, q: nat): nat {
    MulNonNegative(q, m);
    o + u + q * m
  }

  lemma PosOnRow(o: nat, m: nat, u: nat, q: nat, p: nat)
    requires u < m && q < p
    ensures o <= Pos(o, m, u, q) < o + p * m
    ensures (Pos(o, m, u, q) - o) % m == u
  {
    MulMonotone(q + 1, p, m);
    DivModUnique(u + q * m, m, q, u);
  }

  /** Before row u is written, its inputs are still there. */
  lemma RowPending(before: seq<Cpx>, now: seq<Cpx>, o: nat, p: nat, m: nat, tw: seq<Cpx>, s: nat, u: nat, q: nat)
    requires u < m && q < p && o + p * m <= |now| && RowsDone(before, now, o, p, m, tw, s, u)
    ensures Pos(o, m, u, q) < |now| == |before| && now[Pos(o, m, u, q)] == At(before, Pos(o, m, u, q))
  {
    PosOnRow(o, m, u, q, p);
  }

  /** The twiddle entries a kernel reads for row u are in the table. */
  lemma TwiddleInRange(tw: seq<Cpx>, s: nat, p: nat, m: nat, u: nat, q: nat)
    requires |tw| == p * (s * m) && s > 0 && u < m && q < p
    ensures 0 <= q * s * u < |tw| && W(tw, q * s * u) == tw[q * s * u]
  {
    ProductBelow(s, p, m, u, q);
    DivModUnique(q * s * u, |tw|, 0, q * s * u);
  }

  /** The entry a kernel reads for the radix-p root itself. */
  lemma TableEntry(tw: seq<Cpx>, p: nat, h: int, q: nat)
    requires |tw| == p * h && h > 0 && q < p
    ensures 0 <= q * h < |tw| && W(tw, q * h) == tw[q * h]
  {
    MulMonotone(q + 1, p, h);
    MulNonNegative(q, h);
    DivModUnique(q * h, |tw|, 0, q * h);
  }

  /** Writing row u completes one more row. */
  lemma RowStep(before: seq<Cpx>, now: seq<Cpx>, next: seq<Cpx>, o: nat, p: nat, m: nat, tw: seq<Cpx>, s: nat, u: nat)
    requires u < m && RowsDone(before, now, o, p, m, tw, s, u) && |next| == |now|
    requires forall q | 0 <= q < p ::
               Pos(o, m, u, q) < |next| && next[Pos(o, m, u, q)] == Recombined(before, o, p, m, tw, s, u + q * m)
    requires forall j | 0 <= j < |now| && !(o <= j < o + p * m && (j - o) % m == u) :: next[j] == now[j]
    ensures RowsDone(before, next, o, p, m, tw, s, u + 1)
  {
    hide Recombined, Pos;
    forall j | 0 <= j < |next| && o <= j < o + p * m && (j - o) % m == u
      ensures next[j] == Recombined(before, o, p, m, tw, s, j - o)
    {
      var q := RowOf(o, p, m, u, j);
    }
  }

  lemma RowOf(o: nat, p: nat, m: nat, u: nat, j: int) returns (q: nat)
    requires u < m && o <= j < o + p * m && (j - o) % m == u
    ensures q < p && j == Pos(o, m, u, q) && j - o == u + q * m
  {
    q := (j - o) / m;
    assert j - o == q * m + u;
    if q >= p { MulMonotone(p, q, m); }
  }

  /** RowsDone for the first u rows and the first q1 outputs of row u. */
  ghost predicate OutputsDone(before: seq<Cpx>, now: seq<Cpx>, o: nat, p: nat, m: nat, tw: seq<Cpx>, s: nat, u: nat, q1: nat)
    requires m > 0
  {
    && |now| == |before|
    && forall j | 0 <= j < |now| ::
         now[j] == if o <= j < o + p * m && ((j - o) % m < u || ((j - o) % m == u && (j - o) / m < q1))
                   then Recombined(before, o, p, m, tw, s, j - o)
                   else before[j]
  }

  lemma OutputsStart(before: seq<Cpx>, now: seq<Cpx>, o: nat, p: nat, m: nat, tw: seq<Cpx>, s: nat, u: nat)
    requires m > 0 && RowsDone(before, now, o, p, m, tw, s, u)
    ensures OutputsDone(before, now, o, p, m, tw, s, u, 0)
  {
    hide Recombined;
  }

  lemma OutputsStep(before: seq<Cpx>, now: seq<Cpx>, next: seq<Cpx>, o: nat, p: nat, m: nat, tw: seq<Cpx>, s: nat, u: nat, q1: nat)
    requires u < m && q1 < p && OutputsDone(before, now, o, p, m, tw, s, u, q1)
    requires var j := Pos(o, m, u, q1);
             j < |now| && next == now[j := Recombined(before, o, p, m, tw, s, u + q1 * m)]
    ensures OutputsDone(before, next, o, p, m, tw, s, u, q1 + 1)
  {
    hide Recombined;
    PosOnRow(o, m, u, q1, p);
    DivModUnique(u + q1 * m, m, q1, u);
    forall j | 0 <= j < |next| && o <= j < o + p * m && (j - o) % m == u && (j - o) / m == q1
      ensures next[j] == Recombined(before, o, p, m, tw, s, j - o)
    {
      assert j - o == m * ((j - o) / m) + (j - o) % m;
    }
  }

  lemma OutputsEnd(before: seq<Cpx>, now: seq<Cpx>, o: nat, p: nat, m: nat, tw: seq<Cpx>, s: nat, u: nat)
    requires u < m && OutputsDone(before, now, o, p, m, tw, s, u, p)
    ensures RowsDone(before, now, o, p, m, tw, s, u + 1)
  {
    hide Recombined;
    forall j | 0 <= j < |now| && o <= j < o + p * m && (j - o) % m == u
      ensures now[j] == Recombined(before, o, p, m, tw, s, j - o)
    {
      assert j - o == m * ((j - o) / m) + (j - o) % m;
      if (j - o) / m >= p { MulMonotone(p, (j - o) / m, m); }
    }
  }

  /** Input q of row u times its twiddle factor: the kernels' C_MUL. */
  ghost function Twiddled(before: seq<Cpx>, o: nat, m: nat, tw: seq<Cpx>, s: nat, u: nat, q: nat): Cpx {
    Mul(At(before, Pos(o, m, u, q)), W(tw, q * s * u))
  }

  /** The part of the twiddle factor that depends on the output is a power of the radix-p root. */
  lemma PartOfRow(before: seq<Cpx>, o: nat, m: nat, tw: seq<Cpx>, inverse: bool, s: nat, u: nat, q1: nat, q: nat)
    requires ValidTwiddles(tw, inverse) && u < m
    ensures PartTerm(before, o, m, tw, s, u + q1 * m)(q)
         == Mul(Twiddled(before, o, m, tw, s, u, q), W(tw, (q * q1) * (s * m)))
  {
    hide ValidTwiddles, W, Mul, At;
    var k := u + q1 * m;
    DivModUnique(k, m, q1, u);
    assert q * s * k == q * s * u + (q * q1) * (s * m) by {
      assert q * s * (u + q1 * m) == q * s * u + q * s * (q1 * m);
      assert q * s * (q1 * m) == (q * q1) * (s * m);
    }
    WAdd(tw, inverse, q * s * u, (q * q1) * (s * m));
    MulAssoc(At(before, Pos(o, m, u, q)), W(tw, q * s * u), W(tw, (q * q1) * (s * m)));
  }

  lemma SumUnrolled(f: int -> Cpx)
    ensures Sum(f, 1) == f(0)
    ensures Sum(f, 2) == Add(f(0), f(1))
    ensures Sum(f, 3) == Add(Add(f(0), f(1)), f(2))
    ensures Sum(f, 4) == Add(Add(Add(f(0), f(1)), f(2)), f(3))
    ensures Sum(f, 5) == Add(Add(Add(Add(f(0), f(1)), f(2)), f(3)), f(4))
  {
    assert Sum(f, 1) == Add(Sum(f, 0), f(0));
    assert Sum(f, 2) == Add(Sum(f, 1), f(1));
    assert Sum(f, 3) == Add(Sum(f, 2), f(2));
    assert Sum(f, 4) == Add(Sum(f, 3), f(3));
    assert Sum(f, 5) == Add(Sum(f, 4), f(4));
  }

  /** The inputs of row u after C_MUL; the first one is not multiplied. */
  lemma TwiddledZero(before: seq<Cpx>, o: nat, m: nat, tw: seq<Cpx>, inverse: bool, s: nat, u: nat)
    requires ValidTwiddles(tw, inverse) && u < m && o + u < |before|
    ensures Twiddled(before, o, m, tw, s, u, 0) == before[o + u]
  {
    WZero(tw, inverse);
    MulUnits(before[o + u]);
  }

  /** Output q1 of row u, as the sum of the twiddled inputs times powers of the radix-p root. */
  ghost function RowTerm(before: seq<Cpx>, o: nat, m: nat, tw: seq<Cpx>, s: nat, u: nat, p: nat, q1: nat): int -> Cpx
    requires p > 0
  {
    q => if 0 <= q < p then Mul(Twiddled(before, o, m, tw, s, u, q), W(tw, (q * q1) % p * (s * m))) else ZERO
  }

  lemma RowOutput(before: seq<Cpx>, o: nat, m: nat, tw: seq<Cpx>, inverse: bool, s: nat, u: nat, p: nat, q1: nat)
    requires ValidTwiddles(tw, inverse) && u < m && p > 0 && |tw| == p * (s * m)
    ensures Recombined(before, o, p, m, tw, s, u + q1 * m) == Sum(RowTerm(before, o, m, tw, s, u, p, q1), p)
  {
    assert |tw| > 0;
    hide ValidTwiddles, W, Mul, Twiddled;
    var f := PartTerm(before, o, m, tw, s, u + q1 * m);
    forall q: nat | q < p ensures f(q) == RowTerm(before, o, m, tw, s, u, p, q1)(q) {
      PartOfRow(before, o, m, tw, inverse, s, u, q1, q);
      var e, h := q * q1, s * m;
      ExponentReduce(e, p, h);
      WPeriod(tw, e % p * h, e / p);
    }
    SumCongruent(f, RowTerm(before, o, m, tw, s, u, p, q1), p);
  }

  lemma MulNegOne(a: Cpx)
    ensures Mul(a, Neg(ONE)) == Neg(a)
  {
  }

  /** What the two outputs of a radix-2 row are. */
  lemma Radix2Row(before: seq<Cpx>, o: nat, m: nat, tw: seq<Cpx>, inverse: bool, s: nat, u: nat)
    requires ValidTwiddles(tw, inverse) && u < m && |tw| == 2 * (s * m)
    ensures var t0, t1 := Twiddled(before, o, m, tw, s, u, 0), Twiddled(before, o, m, tw, s, u, 1);
            && Recombined(before, o, 2, m, tw, s, u) == Add(t0, t1)
            && Recombined(before, o, 2, m, tw, s, u + m) == Sub(t0, t1)
  {
    hide ValidTwiddles, W, Mul, Twiddled, Recombined, Sum;
    var t0, t1 := Twiddled(before, o, m, tw, s, u, 0), Twiddled(before, o, m, tw, s, u, 1);
    WZero(tw, inverse);
    WHalf(tw, inverse, s * m);
    MulUnits(t0);
    MulUnits(t1);
    MulNegOne(t1);
    RowOutput(before, o, m, tw, inverse, s, u, 2, 0);
    SumUnrolled(RowTerm(before, o, m, tw, s, u, 2, 0));
    RowOutput(before, o, m, tw, inverse, s, u, 2, 1);
    SumUnrolled(RowTerm(before, o, m, tw, s, u, 2, 1));
  }

  /** What the three outputs of a radix-3 row are; e is the entry `epi3`. */
  lemma Radix3Row(before: seq<Cpx>, o: nat, m: nat, tw: seq<Cpx>, inverse: bool, s: nat, u: nat)
    requires ValidTwiddles(tw, inverse) && u < m && |tw| == 3 * (s * m)
    ensures var t0, t1, t2 := Twiddled(before, o, m, tw, s, u, 0), Twiddled(before, o, m, tw, s, u, 1),
                              Twiddled(before, o, m, tw, s, u, 2);
            var e := W(tw, s * m);
            && e.r == -0.5
            && Recombined(before, o, 3, m, tw, s, u) == Add(Add(t0, t1), t2)
            && Recombined(before, o, 3, m, tw, s, u + m) == Add(Add(t0, Mul(t1, e)), Mul(t2, Conj(e)))
            && Recombined(before, o, 3, m, tw, s, u + 2 * m) == Add(Add(t0, Mul(t1, Conj(e))), Mul(t2, e))
  {
    hide ValidTwiddles, W, Mul, Twiddled, Recombined, Sum;
    var t0, t1, t2 := Twiddled(before, o, m, tw, s, u, 0), Twiddled(before, o, m, tw, s, u, 1),
                      Twiddled(before, o, m, tw, s, u, 2);
    WZero(tw, inverse);
    WThird(tw, inverse, s * m);
    MulUnits(t0);
    MulUnits(t1);
    MulUnits(t2);
    RowOutput(before, o, m, tw, inverse, s, u, 3, 0);
    SumUnrolled(RowTerm(before, o, m, tw, s, u, 3, 0));
    RowOutput(before, o, m, tw, inverse, s, u, 3, 1);
    SumUnrolled(RowTerm(before, o, m, tw, s, u, 3, 1));
    RowOutput(before, o, m, tw, inverse, s, u, 3, 2);
    SumUnrolled(RowTerm(before, o, m, tw, s, u, 3, 2));
  }

  /** The five terms of output q1 of a radix-5 row. */
  ghost function Five(t0: Cpx, a1: Cpx, a2: Cpx, a3: Cpx, a4: Cpx): Cpx {
    Add(Add(Add(Add(t0, a1), a2), a3), a4)
  }

  /** RowOutput for radix 4, written out. */
  lemma Row4(before: seq<Cpx>, o: nat, m: nat, tw: seq<Cpx>, inverse: bool, s: nat, u: nat, q1: nat)
    requires ValidTwiddles(tw, inverse) && u < m && |tw| == 4 * (s * m)
    ensures Recombined(before, o, 4, m, tw, s, u + q1 * m)
         == Add(Add(Add(Mul(Twiddled(before, o, m, tw, s, u, 0), W(tw, 0)),
                        Mul(Twiddled(before, o, m, tw, s, u, 1), W(tw, q1 % 4 * (s * m)))),
                    Mul(Twiddled(before, o, m, tw, s, u, 2), W(tw, (2 * q1) % 4 * (s * m)))),
                Mul(Twiddled(before, o, m, tw, s, u, 3), W(tw, (3 * q1) % 4 * (s * m))))
  {
    hide ValidTwiddles, W, Mul, Twiddled, Recombined, Sum;
    RowOutput(before, o, m, tw, inverse, s, u, 4, q1);
    SumUnrolled(RowTerm(before, o, m, tw, s, u, 4, q1));
  }

  /** RowOutput for radix 5, written out. */
  lemma Row5(before: seq<Cpx>, o: nat, m: nat, tw: seq<Cpx>, inverse: bool, s: nat, u: nat, q1: nat)
    requires ValidTwiddles(tw, inverse) && u < m && |tw| == 5 * (s * m)
    ensures Recombined(before, o, 5, m, tw, s, u + q1 * m)
         == Five(Mul(Twiddled(before, o, m, tw, s, u, 0), W(tw, 0)),
                 Mul(Twiddled(before, o, m, tw, s, u, 1), W(tw, q1 % 5 * (s * m))),
                 Mul(Twiddled(before, o, m, tw, s, u, 2), W(tw, (2 * q1) % 5 * (s * m))),
                 Mul(Twiddled(before, o, m, tw, s, u, 3), W(tw, (3 * q1) % 5 * (s * m))),
                 Mul(Twiddled(before, o, m, tw, s, u, 4), W(tw, (4 * q1) % 5 * (s * m))))
  {
    hide ValidTwiddles, W, Mul, Twiddled, Recombined, Sum;
    RowOutput(before, o, m, tw, inverse, s, u, 5, q1);
    SumUnrolled(RowTerm(before, o, m, tw, s, u, 5, q1));
  }

  /** What the four outputs of a radix-4 row are; i4 is the quarter-turn entry. */
  lemma Radix4Row(before: seq<Cpx>, o: nat, m: nat, tw: seq<Cpx>, inverse: bool, s: nat, u: nat)
    requires ValidTwiddles(tw, inverse) && u < m && |tw| == 4 * (s * m)
    ensures var t0, t1 := Twiddled(before, o, m, tw, s, u, 0), Twiddled(before, o, m, tw, s, u, 1);
            var t2, t3 := Twiddled(before, o, m, tw, s, u, 2), Twiddled(before, o, m, tw, s, u, 3);
            var i4 := if inverse then IMAG else Conj(IMAG);
            && Recombined(before, o, 4, m, tw, s, u) == Add(Add(Add(t0, t1), t2), t3)
            && Recombined(before, o, 4, m, tw, s, u + m) == Add(Add(Add(t0, Mul(t1, i4)), Neg(t2)), Mul(t3, Conj(i4)))
            && Recombined(before, o, 4, m, tw, s, u + 2 * m) == Add(Add(Add(t0, Neg(t1)), t2), Neg(t3))
            && Recombined(before, o, 4, m, tw, s, u + 3 * m) == Add(Add(Add(t0, Mul(t1, Conj(i4))), Neg(t2)), Mul(t3, i4))
  {
    hide ValidTwiddles, W, Mul, Twiddled, Recombined, Sum;
    var t0, t1 := Twiddled(before, o, m, tw, s, u, 0), Twiddled(before, o, m, tw, s, u, 1);
    var t2, t3 := Twiddled(before, o, m, tw, s, u, 2), Twiddled(before, o, m, tw, s, u, 3);
    WZero(tw, inverse);
    WQuarter(tw, inverse, s * m);
    MulUnits(t0);
    MulUnits(t1);
    MulUnits(t2);
    MulUnits(t3);
    MulNegOne(t1);
    MulNegOne(t2);
    MulNegOne(t3);
    Row4(before, o, m, tw, inverse, s, u, 0);
    Row4(before, o, m, tw, inverse, s, u, 1);
    Row4(before, o, m, tw, inverse, s, u, 2);
    Row4(before, o, m, tw, inverse, s, u, 3);
  }

  /** What the five outputs of a radix-5 row are; ya and yb are the entries the kernel reads. */
  lemma Radix5Row(before: seq<Cpx>, o: nat, m: nat, tw: seq<Cpx>, inverse: bool, s: nat, u: nat)
    requires ValidTwiddles(tw, inverse) && u < m && |tw| == 5 * (s * m)
    ensures var t0, t1 := Twiddled(before, o, m, tw, s, u, 0), Twiddled(before, o, m, tw, s, u, 1);
            var t2, t3 := Twiddled(before, o, m, tw, s, u, 2), Twiddled(before, o, m, tw, s, u, 3);
            var t4 := Twiddled(before, o, m, tw, s, u, 4);
            var ya, yb := W(tw, s * m), W(tw, 2 * (s * m));
            var za, zb := Conj(ya), Conj(yb);
            && Recombined(before, o, 5, m, tw, s, u) == Five(t0, t1, t2, t3, t4)
            && Recombined(before, o, 5, m, tw, s, u + m) == Five(t0, Mul(t1, ya), Mul(t2, yb), Mul(t3, zb), Mul(t4, za))
            && Recombined(before, o, 5, m, tw, s, u + 2 * m) == Five(t0, Mul(t1, yb), Mul(t2, za), Mul(t3, ya), Mul(t4, zb))
            && Recombined(before, o, 5, m, tw, s, u + 3 * m) == Five(t0, Mul(t1, zb), Mul(t2, ya), Mul(t3, za), Mul(t4, yb))
            && Recombined(before, o, 5, m, tw, s, u + 4 * m) == Five(t0, Mul(t1, za), Mul(t2, zb), Mul(t3, yb), Mul(t4, ya))
  {
    hide ValidTwiddles, W, Mul, Twiddled, Recombined, Sum;
    var t0, t1 := Twiddled(before, o, m, tw, s, u, 0), Twiddled(before, o, m, tw, s, u, 1);
    var t2, t3 := Twiddled(before, o, m, tw, s, u, 2), Twiddled(before, o, m, tw, s, u, 3);
    var t4 := Twiddled(before, o, m, tw, s, u, 4);
    WZero(tw, inverse);
    WFifth(tw, inverse, s * m);
    MulUnits(t0);
    MulUnits(t1);
    MulUnits(t2);
    MulUnits(t3);
    MulUnits(t4);
    Row5(before, o, m, tw, inverse, s, u, 0);
    Row5(before, o, m, tw, inverse, s, u, 1);
    Row5(before, o, m, tw, inverse, s, u, 2);
    Row5(before, o, m, tw, inverse, s, u, 3);
    Row5(before, o, m, tw, inverse, s, u, 4);
  }
}
