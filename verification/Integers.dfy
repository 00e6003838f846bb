/** Facts about multiplication, division and remainder of integers that the
    solver does not find on its own. */
module Integers {

  lemma MulMonotone(a: int, b: int, c: int)
    requires a <= b && 0 <= c
    ensures a * c <= b * c && c * a <= c * b
  {
  }

  lemma MulNonNegative(a: int, b: int)
    requires 0 <= a && 0 <= b
    ensures 0 <= a * b
  {
  }

  /** The quotient and remainder of a division are unique. */
  lemma DivModUnique(x: int, n: int, q: int, r: int)
    requires n > 0 && 0 <= r < n && x == q * n + r
    ensures x / n == q && x % n == r
  {
    var q', r' := x / n, x % n;
    assert x == n * q' + r';
    assert (q - q') * n == r' - r;
    assert (q' - q) * n == r - r';
    if q > q' {
      MulMonotone(1, q - q', n);
    } else if q < q' {
      MulMonotone(1, q' - q, n);
    }
  }

  /** Adding a multiple of the modulus changes nothing. */
  lemma ModShift(t: int, c: int, n: int)
    requires n > 0
    ensures (t + n * c) % n == t % n
  {
    var q, r := t / n, t % n;
    assert t + n * c == (q + c) * n + r;
    DivModUnique(t + n * c, n, q + c, r);
  }

  lemma ModAdd(a: int, b: int, n: int)
    requires n > 0
    ensures (a + b) % n == (a % n + b % n) % n
  {
    var c := a / n + b / n;
    assert a + b == (a % n + b % n) + n * c;
    ModShift(a % n + b % n, c, n);
  }

  lemma ModSub(a: int, b: int, n: int)
    requires n > 0
    ensures (a - b) % n == (a % n - b % n) % n
  {
    var c := a / n - b / n;
    assert a - b == (a % n - b % n) + n * c;
    ModShift(a % n - b % n, c, n);
  }

  lemma ModMul(a: int, b: int, n: int)
    requires n > 0
    ensures (a * b) % n == ((a % n) * b) % n
  {
    var c := a / n * b;
    calc {
      a * b;
      (n * (a / n) + a % n) * b;
      (a % n) * b + (n * (a / n)) * b;
      (a % n) * b + n * c;
    }
    ModShift((a % n) * b, c, n);
  }

  /** Two numbers with equal remainders differ by a multiple. */
  lemma ModEqualDifference(a: int, b: int, n: int)
    requires n > 0
    ensures a % n == b % n <==> (a - b) % n == 0
  {
    ModSub(a, b, n);
    var r := a % n - b % n;
    if 0 < r {
      DivModUnique(r, n, 0, r);
    } else if r < 0 {
      DivModUnique(r, n, -1, r + n);
    }
  }

  /** Splitting j = p*i + q in the exponent s*j*k of a length s*p*m root of unity. */
  lemma ExponentSplit(s: int, p: int, m: int, i: int, q: int, k: int)
    requires m > 0
    ensures s * (p * i + q) * k == ((s * p) * i * (k % m) + q * s * k) + (s * p * m) * (i * (k / m))
  {
    var r, d := k % m, k / m;
    assert k == m * d + r;
    calc {
      s * (p * i + q) * k;
      (s * p * i + s * q) * k;
      s * p * i * k + s * q * k;
      s * p * i * (m * d + r) + q * s * k;
      s * p * i * m * d + s * p * i * r + q * s * k;
      { assert s * p * i * m * d == (s * p * m) * (i * d); }
      (s * p) * i * r + q * s * k + (s * p * m) * (i * d);
    }
  }

  lemma ExponentReduce(e: int, p: int, h: int)
    requires p > 0
    ensures e * h == e % p * h + (p * h) * (e / p)
  {
    var d, r := e / p, e % p;
    assert e == p * d + r;
    assert (p * d + r) * h == r * h + (p * h) * d;
  }

  lemma MulSucc(a: int, b: int)
    ensures a * (b + 1) == a * b + a && (b + 1) * a == b * a + a
  {
  }

  /** Row u < m and column q < p of a table of s*p*m entries. */
  lemma ProductBelow(s: nat, p: nat, m: nat, u: nat, q: nat)
    requires 0 < s && u < m && q < p
    ensures 0 <= q * s * u < p * (s * m)
  {
    var x, y := q * s, p * s;
    MulNonNegative(q, s);
    MulNonNegative(x, u);
    MulMonotone(q + 1, p, s);
    MulSucc(s, q);
    MulMonotone(u, m, x);
    MulMonotone(x + s, y, m);
    MulMonotone(1, s, m);
    assert (x + s) * m == x * m + s * m;
    assert y * m == p * (s * m);
  }

  lemma EntryForms(u: int, s: int)
    ensures u * s == s * u && 2 * u * s == 2 * (s * u) && 3 * u * s == 3 * (s * u) && 4 * u * s == 4 * (s * u)
  {
  }

  lemma MultipleOf(d: int, k: int, n: int)
    requires n > 0 && d % n == 0
    ensures (d * k) % n == 0
  {
    var c := d / n;
    assert d == n * c;
    assert (n * c) * k == (c * k) * n + 0;
    DivModUnique(d * k, n, c * k, 0);
  }

  lemma ProductForms(s: int, p: int, m: int)
    ensures s * p * m == p * (s * m)
  {
  }

  function Pow2(k: nat): (r: nat)
    ensures r > 0
  {
    if k == 0 then 1 else 2 * Pow2(k - 1)
  }

  lemma {:induction false} Pow2Monotone(a: nat, b: nat)
    requires a <= b
    ensures Pow2(a) <= Pow2(b)
    decreases b - a
  {
    if a < b {
      Pow2Monotone(a, b - 1);
    }
  }

  lemma OddTimes(b: int, x: int)
    requires b % 2 == 1
    ensures (b * x) % 2 == x % 2
  {
    var c := b / 2;
    assert b == 2 * c + 1;
    assert (2 * c + 1) * x == x + 2 * (c * x);
    ModShift(x, c * x, 2);
  }

  lemma OneModFourTimes(b: int, x: int)
    requires b % 4 == 1
    ensures (b * x) % 4 == x % 4
  {
    var c := b / 4;
    assert b == 4 * c + 1;
    assert (4 * c + 1) * x == x + 4 * (c * x);
    ModShift(x, c * x, 4);
  }

  lemma HalfOfSuccessor(p: int, g: int)
    requires p % 4 == 1
    ensures ((p + 1) / 2) % 2 == 1
    ensures p * g + g == 2 * ((p + 1) / 2 * g)
  {
    var odd := (p + 1) / 2;
    assert p + 1 == 2 * odd;
    assert p * g + g == (p + 1) * g == (2 * odd) * g == 2 * (odd * g);
  }

  lemma DifferenceOfProducts(c: int, x: int, y: int)
    ensures c * (x + y) - c * y == c * x
  {
  }

  lemma OddMod4(p: int)
    requires p % 4 == 1
    ensures p % 2 == 1
  {
    assert p == 2 * (2 * (p / 4)) + 1;
  }

  lemma ParitySucc(t: int, n: int)
    requires t % 2 == n % 2
    ensures (t + 1) % 2 == (n + 1) % 2
  {
  }
}
