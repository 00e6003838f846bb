/** kiss_fft_next_fast_size: the next length whose transform needs no generic butterfly. */
module FastSize {
  import opened Integers

  /** A product of twos, threes and fives. */
  predicate Smooth(m: int) {
    m == 1
    || (m > 1 && m % 2 == 0 && Smooth(m / 2))
    || (m > 1 && m % 3 == 0 && Smooth(m / 3))
    || (m > 1 && m % 5 == 0 && Smooth(m / 5))
  }

  predicate IsRadix(p: int) { p == 2 || p == 3 || p == 5 }

  lemma CommonQuotient(m: int, p: int, q: int)
    requires m > 1 && IsRadix(p) && IsRadix(q) && p != q && m % p == 0 && m % q == 0
    ensures (m / p) % q == 0 && (m / q) % p == 0 && m / p / q == m / q / p && m / p > 1
  {
    var c := CommonMultiple(m, p, q);
    QuotientIs(m, p, c * q);
    QuotientIs(m, q, c * p);
    QuotientIs(c * q, q, c);
    QuotientIs(c * p, p, c);
    if c <= 0 {
      MulMonotone(c, 0, p * q);
    } else {
      MulMonotone(1, c, q);
    }
  }

  lemma QuotientIs(m: int, p: int, c: int)
    requires p > 0 && m == c * p
    ensures m / p == c && m % p == 0
  {
    DivModUnique(m, p, c, 0);
  }

  /** A multiple of two coprime radices is a multiple of their product. */
  lemma CommonMultiple(m: int, p: int, q: int) returns (c: int)
    requires IsRadix(p) && IsRadix(q) && p != q && m % p == 0 && m % q == 0
    ensures m == c * (p * q) && m == (c * q) * p && m == (c * p) * q
  {
    var x, y := m / p, m / q;
    var u, v := if p == 2 then (if q == 3 then -1 else -2) else if p == 3 then (if q == 2 then 1 else 2)
                else (if q == 2 then 1 else -1),
                if p == 2 then 1 else if p == 3 then (if q == 2 then -1 else -1) else (if q == 2 then -2 else 2);
    assert p * u + q * v == 1;
    c := u * y + v * x;
    Bezout(m, p, q, u, v, x, y);
    assert (c * q) * p == c * (p * q) && (c * p) * q == c * (p * q);
  }

  lemma Bezout(m: int, p: int, q: int, u: int, v: int, x: int, y: int)
    requires p * u + q * v == 1 && m == p * x && m == q * y
    ensures m == (u * y + v * x) * (p * q)
  {
    var a, b := p * u, q * v;
    assert (u * y) * (p * q) == a * (q * y);
    assert (v * x) * (p * q) == b * (p * x);
    assert (u * y + v * x) * (p * q) == (u * y) * (p * q) + (v * x) * (p * q);
    assert a * m + b * m == (a + b) * m;
  }

  /** Dividing a radix out does not change whether a number is smooth. */
  lemma {:induction false} SmoothQuotient(m: int, p: int)
    requires m > 1 && IsRadix(p) && m % p == 0
    ensures m / p >= 1 && (Smooth(m) <==> Smooth(m / p))
    decreases m
  {
    if Smooth(m) && !Smooth(m / p) {
      var q := if m % 2 == 0 && Smooth(m / 2) then 2 else if m % 3 == 0 && Smooth(m / 3) then 3 else 5;
      CommonQuotient(m, q, p);
      SmoothQuotient(m / q, p);
    }
  }

  lemma {:induction false} PowersSmooth(k: nat)
    ensures Smooth(Pow2(k)) && Pow2(k) > k
    decreases k
  {
    hide Smooth;
    OneSmooth();
    if k > 0 {
      PowersSmooth(k - 1);
      TwiceSmooth(Pow2(k - 1));
    }
  }

  lemma OneSmooth()
    ensures Smooth(1)
  {
  }

  lemma TwiceSmooth(x: int)
    requires x >= 1 && Smooth(x)
    ensures Smooth(2 * x)
  {
    QuotientIs(2 * x, 2, x);
  }

  /** The inner loops: a radix is divided out as often as possible. */
  method DivideOut(m0: int, p: int) returns (m: int)
    requires m0 >= 1 && IsRadix(p)
    ensures 1 <= m <= m0 && m % p != 0 && (Smooth(m) <==> Smooth(m0))
    ensures m0 % 2 != 0 ==> m % 2 != 0
    ensures m0 % 3 != 0 ==> m % 3 != 0
    ensures m0 % 5 != 0 ==> m % 5 != 0
  {
    m := m0;
    while m % p == 0
      invariant 1 <= m <= m0 && (Smooth(m) <==> Smooth(m0))
      invariant (m0 % 2 != 0 ==> m % 2 != 0) && (m0 % 3 != 0 ==> m % 3 != 0) && (m0 % 5 != 0 ==> m % 5 != 0)
      decreases m
    {
      SmoothQuotient(m, p);
      KeepsIndivisible(m, p, 2);
      KeepsIndivisible(m, p, 3);
      KeepsIndivisible(m, p, 5);
      m := m / p;
    }
  }

  lemma KeepsIndivisible(m: int, p: int, q: int)
    requires m >= 1 && IsRadix(p) && m % p == 0 && q > 0
    ensures m > 1 && (m % q != 0 ==> (m / p) % q != 0)
  {
    var c := m / p;
    if c % q == 0 {
      MultipleOf(c, p, q);
    }
  }

  lemma OnlyOneIsSmooth(m: int)
    requires m >= 1 && m % 2 != 0 && m % 3 != 0 && m % 5 != 0
    ensures Smooth(m) <==> m == 1
  {
  }

  /** The least smooth number that is not below n. */
  method KissFftNextFastSize(n0: int) returns (n: int)
    requires n0 >= 1
    ensures n >= n0 && Smooth(n) && forall j | n0 <= j < n :: !Smooth(j)
  {
    n := n0;
    ghost var bound := Pow2(n0);
    PowersSmooth(n0);
    hide Smooth, Pow2;
    while true
      invariant n0 <= n <= bound && forall j | n0 <= j < n :: !Smooth(j)
      decreases bound - n
    {
      var m := DivideOut(n, 2);
      m := DivideOut(m, 3);
      m := DivideOut(m, 5);
      OnlyOneIsSmooth(m);
      if m <= 1 {
        break;
      }
      n := n + 1;
    }
  }
}
