/** The factoriser of `kiss_fft.c`. */
module FftFactor {
  import opened Integers
  import opened FftWork

  const MAXFACTORS := 32
  const INT_MAX := 0x7fff_ffff

  predicate Divides(d: int, n: int) { d > 0 && n % d == 0 }

  ghost predicate IsPrime(p: int) {
    p >= 2 && forall d | 2 <= d < p :: !Divides(d, p)
  }

  /** No number from 2 up to (and without) p divides n. */
  ghost predicate NoFactorBelow(n: int, p: int) {
    forall d | 2 <= d < p :: !Divides(d, n)
  }

  /** The radices of a factor chain, in order. */
  function Radices(factors: seq<int>): seq<int>
  {
    if |factors| < 2 then []
    else [factors[0]] + if factors[1] > 1 then Radices(factors[2..]) else []
  }

  function Product(s: seq<int>): int {
    if s == [] then 1 else s[0] * Product(s[1..])
  }

  lemma DividesTransitive(d: int, e: int, n: int)
    requires Divides(d, e) && Divides(e, n)
    ensures Divides(d, n)
  {
    var a, b := e / d, n / e;
    assert e == d * a && n == e * b;
    assert n == (a * b) * d + 0;
    DivModUnique(n, d, a * b, 0);
  }

  lemma DividesQuotient(d: int, n: int)
    requires Divides(d, n)
    ensures n == d * (n / d)
    ensures n > 0 ==> n / d > 0 && Divides(n / d, n)
  {
    assert n == d * (n / d);
    if n > 0 {
      if n / d <= 0 { MulMonotone(n / d, 0, d); }
      DivModUnique(n, n / d, d, 0);
    }
  }

  /** A number without factors up to its square root has none at all below itself. */
  lemma NoFactorToRoot(n: int, p: int)
    requires n >= 1 && p >= 2 && NoFactorBelow(n, p) && n < p * p
    ensures NoFactorBelow(n, n)
  {
    forall d | 2 <= d < n ensures !Divides(d, n) {
      if Divides(d, n) {
        var e := n / d;
        DividesQuotient(d, n);
        if e <= 1 { MulMonotone(e, 1, d); }
        assert d >= p && e >= p;
        MulMonotone(p, d, p);
        MulMonotone(p, e, d);
      }
    }
  }

  /** The least factor of a number is prime. */
  lemma LeastFactorPrime(n: int, p: int)
    requires p >= 2 && Divides(p, n) && NoFactorBelow(n, p)
    ensures IsPrime(p)
  {
    forall d | 2 <= d < p ensures !Divides(d, p) {
      if Divides(d, p) {
        DividesTransitive(d, p, n);
      }
    }
  }

  lemma QuotientKeepsBound(n: int, p: int, q: int)
    requires Divides(p, n) && NoFactorBelow(n, q) && n > 0
    ensures NoFactorBelow(n / p, q)
  {
    DividesQuotient(p, n);
    forall d | 2 <= d < q ensures !Divides(d, n / p) {
      if Divides(d, n / p) {
        DividesTransitive(d, n / p, n);
      }
    }
  }

  /** Once 2 and p are excluded for an odd p, so are p and the even p+1. */
  lemma NextOdd(n: int, p: int)
    requires p >= 3 && p % 2 == 1 && NoFactorBelow(n, p) && !Divides(p, n)
    ensures NoFactorBelow(n, p + 2)
  {
    if Divides(p + 1, n) {
      assert Divides(2, p + 1);
      DividesTransitive(2, p + 1, n);
    }
  }

  /** floor(sqrt((double)n)) */
  method FloorSqrt(n: int) returns (r: int)
    requires n >= 1
    ensures r >= 1 && r * r <= n < (r + 1) * (r + 1)
  {
    r := 1;
    while (r + 1) * (r + 1) <= n
      invariant r >= 1 && r * r <= n
      decreases n - r
    {
      RootBelow(r + 1, n);
      r := r + 1;
    }
  }

  lemma RootBelow(r: int, n: int)
    requires r >= 1 && r * r <= n
    ensures r <= n
  {
    MulMonotone(1, r, r);
  }

  /** What the factoriser knows about the candidate p for the remaining cofactor. */
  ghost predicate Candidate(cur: int, p: int, n: int) {
    && (p != 4 ==> !Divides(4, cur))
    && (|| p == 4
        || (p == cur && NoFactorBelow(cur, cur) && (p >= 2 || n == 1))
        || (p == 2 && cur >= 2)
        || (p >= 3 && p % 2 == 1 && cur >= 2 && NoFactorBelow(cur, p)))
  }

  /** The radix that is taken out of what is left: 4 as long as it divides, then the least prime. */
  ghost predicate IsNextRadix(p: int, left: int) {
    Divides(p, left) && if Divides(4, left) then p == 4 else IsPrime(p) && NoFactorBelow(left, p)
  }

  /** A factor chain in which every radix is the next one. */
  ghost predicate InOrder(factors: seq<int>, n: int) {
    |factors| >= 2 && IsNextRadix(factors[0], n) && (factors[1] > 1 ==> InOrder(factors[2..], factors[1]))
  }

  /** The candidate that the source tries after p. */
  function NextCandidate(p: int): int {
    if p == 4 then 2 else if p == 2 then 3 else p + 2
  }

  /** Beyond the square root of the original n, the cofactor has no factor left. */
  lemma BeyondRoot(cur: int, q: int, root: int, n: int)
    requires 1 <= cur <= n < (root + 1) * (root + 1) && root >= 1 && q > root && NoFactorBelow(cur, q)
    ensures NoFactorBelow(cur, cur)
  {
    MulMonotone(root + 1, q, root + 1);
    MulMonotone(root + 1, q, q);
    NoFactorToRoot(cur, q);
  }

  lemma CandidateStep(cur: int, p: int, root: int, n: int)
    requires 1 <= cur <= n && (cur == 1 ==> n == 1) && Candidate(cur, p, n) && !Divides(p, cur)
    requires root * root <= n < (root + 1) * (root + 1) && root >= 1
    ensures var q := if NextCandidate(p) > root then cur else NextCandidate(p);
            && Candidate(cur, q, n) && q <= cur && q != 4 && (p == 4 || p < q)
  {
    var q := NextCandidate(p);
    DivModUnique(cur, cur, 1, 0);
    CandidateBound(cur, p, n);
    assert NoFactorBelow(cur, q) by {
      if p != 4 && p != 2 { NextOdd(cur, p); }
    }
    if q > root {
      BeyondRoot(cur, q, root, n);
    } else {
      RootBelow(root, n);
      if root >= 2 { MulMonotone(2, root, root); }
    }
    CandidateBound(cur, if q > root then cur else q, n);
    assert Divides(2, 4);
  }

  lemma CandidateBound(cur: int, p: int, n: int)
    requires 1 <= cur && Candidate(cur, p, n)
    ensures p == 4 || 1 <= p <= cur
  {
    DivModUnique(cur, cur, 1, 0);
    assert Divides(cur, cur);
  }

  /** Pair t of the buffer continues the chain: p[t] * m[t] == m[t-1], m[-1] == n. */
  ghost predicate LinkAt(buf: seq<int>, n: int, t: int)
    requires 0 <= t && 2 * t + 1 < |buf|
  {
    var previous := if t == 0 then n else buf[2 * t - 1];
    && buf[2 * t] >= 1 && buf[2 * t + 1] >= 1 && buf[2 * t] * buf[2 * t + 1] == previous
    && (n >= 2 ==> IsNextRadix(buf[2 * t], previous))
    && (t > 0 ==> previous > 1)
  }

  /** Pairs 0..i of the buffer lead from n to cur. */
  ghost predicate Linked(buf: seq<int>, n: int, i: int, cur: int)
  {
    && 0 <= i && 2 * i <= |buf|
    && cur == (if i == 0 then n else buf[2 * i - 1])
    && forall t | 0 <= t < i :: LinkAt(buf, n, t)
  }

  lemma LinkedStep(buf: seq<int>, next: seq<int>, n: int, i: int, cur: int, p: int)
    requires Linked(buf, n, i, cur) && 2 * i + 1 < |buf| && (i > 0 ==> cur > 1)
    requires cur >= 1 && Divides(p, cur) && (n >= 2 ==> IsNextRadix(p, cur))
    requires next == buf[2 * i := p][2 * i + 1 := cur / p]
    ensures Linked(next, n, i + 1, cur / p)
  {
    DividesQuotient(p, cur);
    forall t | 0 <= t < i ensures LinkAt(next, n, t) {
      assert LinkAt(buf, n, t);
    }
    assert LinkAt(next, n, i);
  }

  /** The pairs from t on, read as a chain. */
  lemma {:induction false} LinkedIsChain(buf: seq<int>, n: int, i: int, t: int)
    requires Linked(buf, n, i, 1) && 0 <= t < i
    ensures FactorChain(buf[2 * t..], if t == 0 then n else buf[2 * t - 1])
    ensures Product(Radices(buf[2 * t..])) == if t == 0 then n else buf[2 * t - 1]
    ensures n >= 2 ==> forall p | p in Radices(buf[2 * t..]) :: p == 4 || IsPrime(p)
    ensures n >= 2 ==> InOrder(buf[2 * t..], if t == 0 then n else buf[2 * t - 1])
    ensures |Radices(buf[2 * t..])| == i - t
    decreases i - t
  {
    assert LinkAt(buf, n, t);
    var rest := buf[2 * t..];
    if t < i - 1 {
      assert LinkAt(buf, n, t + 1);
      LinkedIsChain(buf, n, i, t + 1);
      assert rest[2..] == buf[2 * (t + 1)..];
    }
  }

  lemma Pow2Bound(i: nat)
    requires Pow2(i) <= INT_MAX
    ensures i <= 30
  {
    Pow2Of31();
    if i > 30 {
      Pow2Monotone(31, i);
    }
  }

  lemma Pow2Of31()
    ensures Pow2(31) == INT_MAX + 1
  {
    assert Pow2(8) == 0x100 && Pow2(12) == 0x1000;
    assert Pow2(16) == 0x1_0000 && Pow2(20) == 0x10_0000;
    assert Pow2(24) == 0x100_0000 && Pow2(28) == 0x1000_0000;
  }

  /** i radices, each at least 2, have been taken out of n and cur is left. */
  ghost predicate Budget(i: nat, cur: int, n: int) {
    Pow2(i) * cur <= n
  }

  lemma BudgetStep(i: nat, cur: int, p: int, n: int)
    requires Budget(i, cur, n) && p >= 2 && Divides(p, cur) && cur >= 1 && n <= INT_MAX
    ensures Budget(i + 1, cur / p, n) && 1 <= cur / p < cur && i + 1 <= 30
    ensures Pow2(i + 1) <= n
  {
    DividesQuotient(p, cur);
    var d := cur / p;
    Pow2Monotone(0, i);
    MulMonotone(2, p, d);
    MulMonotone(2 * d, cur, Pow2(i));
    assert Pow2(i + 1) * d == Pow2(i) * (2 * d);
    MulMonotone(1, d, Pow2(i + 1));
    Pow2Bound(i + 1);
  }

  /** The inner loop of kf_factor: the first candidate from p on that divides cur. */
  method NextRadix(cur: int, start: int, floorSqrt: int, ghost n: int) returns (p: int)
    requires 1 <= cur <= n && (cur == 1 ==> n == 1) && Candidate(cur, start, n)
    requires floorSqrt >= 1 && floorSqrt * floorSqrt <= n < (floorSqrt + 1) * (floorSqrt + 1)
    ensures Candidate(cur, p, n) && Divides(p, cur) && (n >= 2 ==> p >= 2 && IsNextRadix(p, cur))
  {
    p := start;
    CandidateBound(cur, p, n);
    while cur % p != 0
      invariant Candidate(cur, p, n) && p >= 1 && (p == 4 || p <= cur)
      decreases p == 4, cur - p
    {
      CandidateStep(cur, p, floorSqrt, n);
      p := NextCandidate(p);
      if p > floorSqrt {
        p := cur;
      }
    }
    RadixFound(cur, p, n);
  }

  /** kf_factor: powers of 4 first, then 2, then odd candidates up to the square
      root of the original n, then what is left. */
  method KfFactor(n: int, facbuf: array<int>)
    requires 1 <= n <= INT_MAX && facbuf.Length == 2 * MAXFACTORS
    modifies facbuf
    ensures FactorChain(facbuf[..], n)
    ensures Product(Radices(facbuf[..])) == n
    ensures n >= 2 ==> forall p | p in Radices(facbuf[..]) :: p == 4 || IsPrime(p)
    ensures n >= 2 ==> InOrder(facbuf[..], n)
    ensures n >= 2 ==> Pow2(|Radices(facbuf[..])|) <= n
  {
    var cur, p, i := n, 4, 0;
    assert Linked(facbuf[..], n, 0, n) && Candidate(cur, p, n) && Budget(0, n, n);
    hide *;
    var floorSqrt := FloorSqrt(n);
    while true
      invariant 1 <= cur <= n && (i == 0 ==> cur == n) && (i > 0 ==> 1 < cur < n) && 0 <= i <= 30
      invariant Linked(facbuf[..], n, i, cur) && Candidate(cur, p, n) && Budget(i, cur, n)
      decreases cur
    {
      p := NextRadix(cur, p, floorSqrt, n);
      ghost var was, last := facbuf[..], cur;
      if n >= 2 {
        BudgetStep(i, cur, p, n);
      } else {
        OnlyOne(p, cur);
      }
      cur := cur / p;
      facbuf[2 * i] := p;
      facbuf[2 * i + 1] := cur;
      LinkedStep(was, facbuf[..], n, i, last, p);
      i := i + 1;
      if !(cur > 1) {
        break;
      }
      CandidateKept(last, p, n);
    }
    LinkedIsChain(facbuf[..], n, i, 0);
    assert facbuf[..][0..] == facbuf[..];
  }

  lemma OnlyOne(p: int, cur: int)
    requires Divides(p, cur) && cur == 1
    ensures p == 1 && cur / p == 1
  {
    DividesQuotient(p, cur);
    if p > 1 {
      MulMonotone(2, p, cur / p);
    }
  }

  /** A candidate that divides the cofactor is a radix: 4 or a prime. */
  lemma RadixFound(cur: int, p: int, n: int)
    requires 1 <= cur && Candidate(cur, p, n) && p > 0 && cur % p == 0 && (cur == 1 ==> n == 1)
    ensures Divides(p, cur) && (n >= 2 ==> p >= 2 && IsNextRadix(p, cur))
  {
    if n >= 2 && p != 4 {
      assert NoFactorBelow(cur, p);
      LeastFactorPrime(cur, p);
    }
  }

  lemma CandidateKept(cur: int, p: int, n: int)
    requires 1 <= cur && Candidate(cur, p, n) && Divides(p, cur) && cur / p > 1
    ensures Candidate(cur / p, p, n)
  {
    DividesQuotient(p, cur);
    if Divides(4, cur / p) {
      DividesTransitive(4, cur / p, cur);
    }
    if p != 4 && p != 2 {
      QuotientKeepsBound(cur, p, p);
    }
  }
}
