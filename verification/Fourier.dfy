/** The discrete Fourier transform as a plain sum, and the decimation-in-time
    identity that lets `kf_work` compute it recursively. */
module Fourier {
  import opened Complex
  import opened Sums
  import opened Twiddles
  import opened Integers

  /** Reading a buffer; positions outside it never matter. */
  function At(x: seq<Cpx>, i: int): Cpx {
    if 0 <= i < |x| then x[i] else ZERO
  }

  /** Term j of bin k for the samples x[base], x[base+step], ..., with the
      twiddle table read at stride s. */
  ghost function Term(x: seq<Cpx>, base: int, step: int, tw: seq<Cpx>, s: int, k: int): int -> Cpx {
    j => Mul(At(x, base + j * step), W(tw, s * j * k))
  }

  /** Bin k of the length-n transform of the samples x[base + j*step]. */
  ghost function Bin(x: seq<Cpx>, base: int, step: int, n: nat, tw: seq<Cpx>, s: int, k: int): Cpx {
    Sum(Term(x, base, step, tw, s, k), n)
  }

  /** Term q of the recombination of p interleaved sub-transforms of length m
      stored one after the other in `buf` from position o. */
  ghost function PartTerm(buf: seq<Cpx>, o: int, m: int, tw: seq<Cpx>, s: int, k: int): int -> Cpx
    requires m > 0
  {
    q => Mul(At(buf, o + k % m + q * m), W(tw, q * s * k))
  }

  /** What a butterfly of radix p leaves at position o + k. */
  ghost function Recombined(buf: seq<Cpx>, o: int, p: nat, m: int, tw: seq<Cpx>, s: int, k: int): Cpx
    requires m > 0
  {
    Sum(PartTerm(buf, o, m, tw, s, k), p)
  }

  lemma TermSplit(x: seq<Cpx>, base: int, step: int, p: nat, m: nat, tw: seq<Cpx>, inverse: bool,
                  s: nat, k: int, i: int, q: int)
    requires ValidTwiddles(tw, inverse) && m > 0 && |tw| == s * p * m
    ensures Term(x, base, step, tw, s, k)(Place(p, i, q))
         == Mul(Term(x, base + q * step, step * p, tw, s * p, k % m)(i), W(tw, q * s * k))
  {
    assert |tw| > 0;
    hide ValidTwiddles, W, Mul, At;
    var a := At(x, base + Place(p, i, q) * step);
    assert base + Place(p, i, q) * step == (base + q * step) + i * (step * p) by {
      assert (p * i + q) * step == q * step + i * (step * p);
    }
    ExponentSplit(s, p, m, i, q, k);
    var e0, e1, e2 := (s * p) * i * (k % m), q * s * k, i * (k / m);
    WPeriod(tw, e0 + e1, e2);
    WAdd(tw, inverse, e0, e1);
    MulAssoc(a, W(tw, e0), W(tw, e1));
  }

  /** Decimation in time: the transform of p*m samples from the p transforms of
      the m samples with equal index modulo p. */
  lemma DecimationInTime(x: seq<Cpx>, base: int, step: int, p: nat, m: nat, tw: seq<Cpx>, inverse: bool,
                         s: nat, k: int, part: int -> Cpx)
    requires ValidTwiddles(tw, inverse) && m > 0 && |tw| == s * p * m
    requires forall q | 0 <= q < p ::
               part(q) == Mul(Bin(x, base + q * step, step * p, m, tw, s * p, k % m), W(tw, q * s * k))
    ensures p * m >= 0
    ensures Bin(x, base, step, p * m, tw, s, k) == Sum(part, p)
  {
    var f := Term(x, base, step, tw, s, k);
    SumDecimate(f, p, m);
    forall q | 0 <= q < p ensures ColSums(Blocks(f, p), m)(q) == part(q) {
      var g := Term(x, base + q * step, step * p, tw, s * p, k % m);
      var c := W(tw, q * s * k);
      SumScale(g, c, m);
      forall i ensures Blocks(f, p)(i, q) == Mul(g(i), c) {
        TermSplit(x, base, step, p, m, tw, inverse, s, k, i, q);
      }
      SumCongruent(i => Blocks(f, p)(i, q), i => Mul(g(i), c), m);
    }
    SumCongruent(ColSums(Blocks(f, p), m), part, p);
  }

  /** Bin k of the plain discrete Fourier transform. */
  ghost function DftTerm(x: seq<Cpx>, tw: seq<Cpx>, k: int): int -> Cpx {
    j => Mul(At(x, j), W(tw, j * k))
  }

  ghost function DftBin(x: seq<Cpx>, tw: seq<Cpx>, k: int): Cpx {
    Sum(DftTerm(x, tw, k), |tw|)
  }

  ghost function Dft(x: seq<Cpx>, tw: seq<Cpx>): seq<Cpx> {
    seq(|tw|, k => DftBin(x, tw, k))
  }

  lemma BinIsDftBin(x: seq<Cpx>, tw: seq<Cpx>, k: int)
    requires |tw| <= |x|
    ensures Bin(x, 0, 1, |tw|, tw, 1, k) == DftBin(x[..|tw|], tw, k)
  {
    hide Mul, W;
    SumCongruent(Term(x, 0, 1, tw, 1, k), DftTerm(x[..|tw|], tw, k), |tw|);
  }
}
