/** Finite sums of complex terms, with the reindexing laws that the fast
    transform rests on. */
module Sums {
  import opened Complex

  ghost function Sum(f: int -> Cpx, n: nat): Cpx {
    if n == 0 then ZERO else Add(Sum(f, n - 1), f(n - 1))
  }

  /** Sums of pointwise equal terms are equal. */
  lemma {:induction false} SumCongruent(f: int -> Cpx, g: int -> Cpx, n: nat)
    requires forall i :: 0 <= i < n ==> f(i) == g(i)
    ensures Sum(f, n) == Sum(g, n)
  {
    if n > 0 {
      SumCongruent(f, g, n - 1);
    }
  }

  lemma {:induction false} SumZero(f: int -> Cpx, n: nat)
    requires forall i :: 0 <= i < n ==> f(i) == ZERO
    ensures Sum(f, n) == ZERO
  {
    if n > 0 {
      SumZero(f, n - 1);
    }
  }

  /** A sum whose only non-zero term is the one at `k`. */
  lemma {:induction false} SumSingle(f: int -> Cpx, n: nat, k: int)
    requires 0 <= k < n
    requires forall i :: 0 <= i < n && i != k ==> f(i) == ZERO
    ensures Sum(f, n) == f(k)
  {
    if k == n - 1 {
      SumZero(f, n - 1);
    } else {
      SumSingle(f, n - 1, k);
    }
  }

  lemma {:induction false} SumAdd(f: int -> Cpx, g: int -> Cpx, n: nat)
    ensures Sum(i => Add(f(i), g(i)), n) == Add(Sum(f, n), Sum(g, n))
  {
    if n > 0 {
      SumAdd(f, g, n - 1);
    }
  }

  lemma {:induction false} SumScale(f: int -> Cpx, c: Cpx, n: nat)
    ensures Sum(i => Mul(f(i), c), n) == Mul(Sum(f, n), c)
  {
    hide Mul;
    if n == 0 {
      MulUnits(c);
    } else {
      SumScale(f, c, n - 1);
      MulDistributes(c, Sum(f, n - 1), f(n - 1));
    }
  }

  lemma {:induction false} SumConj(f: int -> Cpx, g: int -> Cpx, n: nat)
    requires forall i :: 0 <= i < n ==> g(i) == Conj(f(i))
    ensures Conj(Sum(f, n)) == Sum(g, n)
  {
    if n > 0 {
      SumConj(f, g, n - 1);
    }
  }

  ghost function Shift(f: int -> Cpx, m: int): int -> Cpx {
    i => f(m + i)
  }

  lemma {:induction false} SumSplit(f: int -> Cpx, m: nat, n: nat)
    ensures Sum(f, m + n) == Add(Sum(f, m), Sum(Shift(f, m), n))
  {
    if n > 0 {
      SumSplit(f, m, n - 1);
      assert Shift(f, m)(n - 1) == f(m + n - 1);
    }
  }

  /** For a matrix of terms: the sums of its rows, of width n. */
  ghost function RowSums(g: (int, int) -> Cpx, n: nat): int -> Cpx {
    i => Sum(j => g(i, j), n)
  }

  /** For a matrix of terms: the sums of its columns, of height m. */
  ghost function ColSums(g: (int, int) -> Cpx, m: nat): int -> Cpx {
    j => Sum(i => g(i, j), m)
  }

  /** Fubini for a finite rectangle. */
  lemma {:induction false} SumSwap(g: (int, int) -> Cpx, m: nat, n: nat)
    ensures Sum(RowSums(g, n), m) == Sum(ColSums(g, m), n)
  {
    if m == 0 {
      SumZero(ColSums(g, m), n);
    } else {
      SumSwap(g, m - 1, n);
      SumAdd(ColSums(g, m - 1), j => g(m - 1, j), n);
      SumCongruent(ColSums(g, m), i => Add(ColSums(g, m - 1)(i), (j => g(m - 1, j))(i)), n);
    }
  }

  /** Position q of block b, in blocks of length p. */
  ghost function Place(p: int, b: int, q: int): int { p * b + q }

  /** The terms of a sum laid out as a matrix with rows of width p. */
  ghost function Blocks(f: int -> Cpx, p: nat): (int, int) -> Cpx {
    (b, q) => f(Place(p, b, q))
  }

  lemma SumOfBlock(f: int -> Cpx, p: nat, b: nat, start: nat)
    requires start == p * b
    ensures Sum(Shift(f, start), p) == RowSums(Blocks(f, p), p)(b)
  {
    var row := q => Blocks(f, p)(b, q);
    forall i | 0 <= i < p ensures Shift(f, start)(i) == row(i) {
      assert Place(p, b, i) == start + i;
      assert row(i) == Blocks(f, p)(b, i) == f(Place(p, b, i));
    }
    SumCongruent(Shift(f, start), row, p);
  }

  /** A sum over m blocks of p consecutive terms. */
  lemma {:induction false} SumBlocks(f: int -> Cpx, p: nat, m: nat)
    ensures p * m >= 0
    ensures Sum(f, p * m) == Sum(RowSums(Blocks(f, p), p), m)
  {
    if m == 0 {
      assert p * m == 0;
    } else {
      SumBlocks(f, p, m - 1);
      assert p * m == p * (m - 1) + p;
      SumSplit(f, p * (m - 1), p);
      SumOfBlock(f, p, m - 1, p * (m - 1));
    }
  }

  /** Decimation: a sum over p*m terms read as p interleaved subsequences. */
  lemma SumDecimate(f: int -> Cpx, p: nat, m: nat)
    ensures p * m >= 0
    ensures Sum(f, p * m) == Sum(ColSums(Blocks(f, p), m), p)
  {
    SumBlocks(f, p, m);
    SumSwap(Blocks(f, p), m, p);
  }
}
