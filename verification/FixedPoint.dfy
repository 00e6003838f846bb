/** `fpm/fixed.hpp` and the square root of `fpm/math.hpp`, on the raw values of
    fixed-point numbers. */
module FixedPoint {
  import opened Integers

  // ----- Truncating division of the source language -----

  function Abs(x: int): nat { if x < 0 then -x else x }

  function TruncDiv(a: int, b: int): int
    requires b != 0
  {
    if (a < 0) == (b < 0) then Abs(a) / Abs(b) else -(Abs(a) / Abs(b))
  }

  function TruncMod(a: int, b: int): int
    requires b != 0
  {
    a - b * TruncDiv(a, b)
  }

  // ----- Powers of two -----

  lemma {:induction false} Pow2Add(a: nat, b: nat)
    ensures Pow2(a + b) == Pow2(a) * Pow2(b)
    decreases a
  {
    if a > 0 {
      Pow2Add(a - 1, b);
      assert Pow2(a + b) == 2 * Pow2(a - 1 + b);
      assert 2 * (Pow2(a - 1) * Pow2(b)) == (2 * Pow2(a - 1)) * Pow2(b);
    }
  }

  /** find_highest_bit */
  function HighestBit(value: int): (r: nat)
    requires value > 0
    ensures Pow2(r) <= value < Pow2(r + 1)
    decreases value
  {
    if value == 1 then assert Pow2(0) == 1 && Pow2(1) == 2; 0
    else
      var h := HighestBit(value / 2);
      assert Pow2(h + 1) == 2 * Pow2(h) && Pow2(h + 2) == 2 * Pow2(h + 1);
      h + 1
  }

  /** Shifting the raw value left shifts its highest bit. */
  lemma ShiftedBelow(value: int, shift: nat)
    requires value > 0
    ensures 0 < value * Pow2(shift) < Pow2(HighestBit(value) + shift + 1)
  {
    var h := HighestBit(value);
    Pow2Add(h + 1, shift);
    assert value + 1 <= Pow2(h + 1);
    MulMonotone(value + 1, Pow2(h + 1), Pow2(shift));
    MulSucc(Pow2(shift), value);
    MulMonotone(1, value, Pow2(shift));
  }

  // ----- Square root -----

  function Sq(x: int): int { x * x }

  /** r is the square root of n rounded to the nearest integer. */
  ghost predicate NearestRoot(n: int, r: int) {
    r > 0 && Sq(r) - r < n <= Sq(r) + r
  }

  lemma SqDigit(q: int, t: int)
    ensures Sq((2 * q + 1) * t) == Sq(q * (2 * t)) + (4 * q * Sq(t) + Sq(t))
    ensures Sq((2 * q) * t) == Sq(q * (2 * t)) && Sq((2 * q + 2) * t) == Sq((q + 1) * (2 * t))
    ensures q * Sq(2 * t) == 4 * q * Sq(t)
  {
    var a := q * t;
    assert q * (2 * t) == 2 * a && (2 * q) * t == 2 * a && (2 * q + 1) * t == 2 * a + t;
    assert (2 * q + 2) * t == 2 * a + 2 * t && (q + 1) * (2 * t) == 2 * a + 2 * t;
    assert Sq(2 * a + t) == Sq(2 * a) + 4 * (a * t) + Sq(t);
    assert a * t == q * (t * t);
    assert 4 * q * Sq(t) == 4 * (q * (t * t));
    assert Sq(2 * t) == 4 * Sq(t);
    assert q * (4 * Sq(t)) == 4 * (q * Sq(t));
  }

  /** bit is t * t with t a power of two; dividing it by four halves t. */
  lemma BitDown(k: nat)
    ensures Sq(Pow2(k)) / 4 == if k == 0 then 0 else Sq(Pow2(k - 1))
  {
    if k > 0 {
      var t := Pow2(k - 1);
      assert Sq(2 * t) == 4 * Sq(t);
    }
  }

  lemma SqAt(x: int)
    ensures Sq(x * 1) == Sq(x) && x * Sq(1) == x
  {
  }

  /** The greatest power of four that is not greater than the argument. */
  lemma FirstBit(raw: int, f: nat)
    requires raw > 0
    ensures var k := (HighestBit(raw) + f) / 2;
            raw * Pow2(f) < Sq(1 * Pow2(k + 1)) && Pow2(2 * k) == Sq(Pow2(k))
  {
    var h := HighestBit(raw) + f;
    var k := h / 2;
    ShiftedBelow(raw, f);
    Pow2Monotone(h + 1, 2 * k + 2);
    Pow2Add(k + 1, k + 1);
    Pow2Add(k, k);
    assert k + 1 + (k + 1) == 2 * k + 2;
  }

  lemma RoundLastDigit(n: int, q: int)
    requires 0 < n && 0 <= q && Sq(q) <= n < Sq(q + 1)
    ensures NearestRoot(n, if n - Sq(q) > q then q + 1 else q)
  {
    assert Sq(q + 1) == Sq(q) + 2 * q + 1;
  }

  /** sqrt, for F fraction bits, in words of the intermediate type: n is the raw value
      shifted left by F. No intermediate value leaves its type. */
  method Sqrt(raw: int, f: nat, bits: nat, wide: nat) returns (root: int)
    requires 0 < f < bits && 2 * bits <= wide && Fits(raw, bits) && raw >= 0
    ensures if raw == 0 then root == 0 else NearestRoot(raw * Pow2(f), root)
  {
    hide *;
    if raw == 0 {
      return 0;
    }
    var num := Wrap(raw * Pow2(f), wide);
    var res := 0;
    var bit := Wrap(Pow2((HighestBit(raw) + f) / 2 * 2), wide);
    ghost var n, k, q := raw * Pow2(f), (HighestBit(raw) + f) / 2, 0;
    SqrtStart(raw, f, bits, wide);
    while bit != 0
      invariant SqrtRemains(n, num, res, bit, q, k)
      decreases k
    {
      SqrtStep(n, num, res, bit, q, k, wide);
      var val := Wrap(res + bit, wide);
      res := res / 2;
      q := 2 * q;
      if num >= val {
        num := num - val;
        res := Wrap(res + bit, wide);
        q := q + 1;
      }
      bit := bit / 4;
      k := k - 1;
    }
    SqrtEnd(n, num, res, q, k, wide);
    if num > res {
      res := Wrap(res + 1, wide);
    }
    RootFits(raw, f, bits, res);
    WrapFits(res, bits);
    return Wrap(res, bits);
  }

  /** The leading digits q of the root, their share taken away from n, and the next digit k. */
  ghost predicate SqrtRemains(n: int, num: int, res: int, bit: int, q: int, k: int) {
    && -1 <= k && 0 <= q && (q >= 1 || (k >= 0 && Sq(Pow2(k)) <= n))
    && bit == (if k == -1 then 0 else Sq(Pow2(k)))
    && res == q * Sq(Pow2(k + 1))
    && num == n - Sq(q * Pow2(k + 1)) >= 0
    && n < Sq((q + 1) * Pow2(k + 1))
  }

  lemma SqrtStep(n: int, num: int, res: int, bit: int, q: int, k: int, wide: nat)
    requires wide > 0 && 2 * n < Pow2(wide - 1) && bit != 0 && SqrtRemains(n, num, res, bit, q, k)
    ensures k >= 0 && Wrap(res + bit, wide) == res + bit && Wrap(res / 2 + bit, wide) == res / 2 + bit
    ensures if num >= res + bit then SqrtRemains(n, num - (res + bit), res / 2 + bit, bit / 4, 2 * q + 1, k - 1)
            else SqrtRemains(n, num, res / 2, bit / 4, 2 * q, k - 1)
  {
    hide *;
    RemainsIs(n, num, res, bit, q, k);
    BitPositive(k);
    var t := Pow2(k);
    StepBound(n, q, t);
    BitDown(k);
    SqDigit(q, t);
    HalfOf(2 * q, Sq(t));
    assert res == 4 * q * Sq(t) && res / 2 == (2 * q) * Sq(t);
    ValueFits(res + bit, n, wide);
    ValueFits(res / 2 + bit, n, wide);
    RemainsIs(n, num - (res + bit), res / 2 + bit, bit / 4, 2 * q + 1, k - 1);
    RemainsIs(n, num, res / 2, bit / 4, 2 * q, k - 1);
    FirstIsOne(n, q, t);
  }

  /** While no digit is found, the next share is within n. */
  lemma FirstIsOne(n: int, q: int, t: int)
    requires q >= 0 && (q >= 1 || Sq(t) <= n)
    ensures n - Sq(q * (2 * t)) < q * Sq(2 * t) + Sq(t) ==> 2 * q >= 1
  {
    hide Sq;
    ZeroProducts(2 * t);
  }

  lemma ZeroProducts(s: int)
    ensures 0 * Sq(s) == 0 && Sq(0 * s) == 0
  {
  }

  lemma RemainsIs(n: int, num: int, res: int, bit: int, q: int, k: int)
    ensures SqrtRemains(n, num, res, bit, q, k) <==>
            && -1 <= k && 0 <= q && (q >= 1 || (k >= 0 && Sq(Pow2(k)) <= n))
            && bit == (if k == -1 then 0 else Sq(Pow2(k)))
            && res == q * Sq(Pow2(k + 1))
            && num == n - Sq(q * Pow2(k + 1)) >= 0
            && n < Sq((q + 1) * Pow2(k + 1))
  {
    hide Sq, Pow2;
  }

  /** What remains below the last digit decides the rounding. */
  lemma SqrtEnd(n: int, num: int, res: int, q: int, k: int, wide: nat)
    requires n > 0 && wide > 0 && 2 * n < Pow2(wide - 1) && SqrtRemains(n, num, res, 0, q, k)
    ensures Wrap(res + 1, wide) == res + 1 && NearestRoot(n, if num > res then res + 1 else res)
  {
    ScaleOne(k);
    SqAt(q);
    SqAt(q + 1);
    hide Wrap, Sq;
    RoundLastDigit(n, q);
    RootBound(n, q);
    ValueFits(res + 1, n, wide);
  }

  /** The argument stays two bits below the intermediate type. */
  lemma ArgumentFits(raw: int, f: nat, bits: nat, wide: nat)
    requires 0 < f < bits && 2 * bits <= wide && Fits(raw, bits) && raw > 0
    ensures 2 * (raw * Pow2(f)) < Pow2(wide - 1) && Pow2(2 * ((HighestBit(raw) + f) / 2)) <= raw * Pow2(f)
  {
    var h := HighestBit(raw);
    Pow2Add(bits - 1, f);
    MulMonotone(raw + 1, Pow2(bits - 1), Pow2(f));
    MulSucc(Pow2(f), raw);
    Pow2Monotone(bits - 1 + f, wide - 2);
    assert Pow2(wide - 1) == 2 * Pow2(wide - 2);
    Pow2Add(h, f);
    MulMonotone(Pow2(h), raw, Pow2(f));
    Pow2Monotone(2 * ((h + f) / 2), h + f);
  }

  lemma SqrtStart(raw: int, f: nat, bits: nat, wide: nat)
    requires 0 < f < bits && 2 * bits <= wide && Fits(raw, bits) && raw > 0
    ensures var n, k := raw * Pow2(f), (HighestBit(raw) + f) / 2;
            && 0 < n && 2 * n < Pow2(wide - 1) && SqrtRemains(n, n, 0, Sq(Pow2(k)), 0, k)
            && Wrap(n, wide) == n && Wrap(Pow2(k * 2), wide) == Sq(Pow2(k))
  {
    hide *;
    var n, k := raw * Pow2(f), (HighestBit(raw) + f) / 2;
    FirstBit(raw, f);
    ShiftedBelow(raw, f);
    ArgumentFits(raw, f, bits, wide);
    ValueFits(n, n, wide);
    assert k * 2 == 2 * k;
    ValueFits(Pow2(2 * k), n, wide);
    ZeroProducts(Pow2(k + 1));
    RemainsIs(n, n, 0, Sq(Pow2(k)), 0, k);
  }

  lemma ValueFits(x: int, n: int, wide: nat)
    requires wide > 0 && 2 * n < Pow2(wide - 1) && 0 <= x <= 2 * n
    ensures Wrap(x, wide) == x
  {
    WrapFits(x, wide);
  }

  /** The value compared with num is at most twice n. */
  lemma StepBound(n: int, q: int, t: int)
    requires q >= 0 && t > 0 && Sq(q * (2 * t)) <= n && (q >= 1 || Sq(t) <= n)
    ensures 0 <= q * Sq(2 * t) + Sq(t) <= 2 * n && 0 <= Sq(t) && 0 <= q * Sq(2 * t)
    ensures 0 <= q * Sq(2 * t) / 2 + Sq(t) <= 2 * n
  {
    MulNonNegative(t, t);
    var s := Sq(t);
    assert Sq(2 * t) == 4 * s;
    SqProduct(q, 2 * t);
    hide Sq;
    MulNonNegative(q, 4 * s);
    if q >= 1 {
      MulMonotone(1, q, 4 * s);
      SqAtLeast(q);
      MulMonotone(q, Sq(q), 4 * s);
    }
  }

  lemma SqProduct(a: int, b: int)
    ensures Sq(a * b) == Sq(a) * Sq(b)
  {
    assert (a * b) * (a * b) == a * (b * (a * b)) == a * (a * (b * b)) == (a * a) * (b * b);
  }

  lemma SqAtLeast(q: int)
    requires q >= 1
    ensures Sq(q) >= q
  {
    MulMonotone(1, q, q);
  }

  lemma RootBound(n: int, q: int)
    requires n > 0 && 0 <= q && Sq(q) <= n
    ensures 0 <= q + 1 <= 2 * n
  {
    if q > 0 {
      MulMonotone(1, q, q);
    }
  }

  lemma BitPositive(k: int)
    requires k >= -1 && 0 != if k == -1 then 0 else Sq(Pow2(k))
    ensures k >= 0 && Pow2(k + 1) == 2 * Pow2(k)
  {
  }

  lemma HalfOf(q: int, s: int)
    ensures (2 * q * s) / 2 == q * s && (q + 1) * s == q * s + s
  {
    assert 2 * q * s == 2 * (q * s);
  }

  lemma ScaleOne(k: int)
    requires k >= -1 && 0 == if k == -1 then 0 else Sq(Pow2(k))
    ensures k == -1 && Pow2(k + 1) == 1
  {
    if k >= 0 {
      MulMonotone(1, Pow2(k), Pow2(k));
    }
  }

  // ----- Multiplication and division -----

  /** r is p / d rounded to the nearest integer, halves away from zero. */
  ghost predicate Nearest(p: int, d: int, r: int) {
    var e := 2 * (p - r * d);
    -d <= e <= d && (e == d ==> p < 0) && (e == -d ==> p > 0)
  }

  /** r is p / d without its fraction. */
  ghost predicate Truncated(p: int, d: int, r: int) {
    if p >= 0 then r * d <= p < r * d + d else r * d - d < p <= r * d
  }

  ghost predicate Quotient(rounding: bool, p: int, d: int, r: int) {
    if rounding then Nearest(p, d, r) else Truncated(p, d, r)
  }

  /** There is only one such quotient. */
  lemma QuotientUnique(rounding: bool, p: int, d: int, r: int, s: int)
    requires d > 0 && Quotient(rounding, p, d, r) && Quotient(rounding, p, d, s)
    ensures r == s
  {
    assert (r - s) * d == r * d - s * d;
    if r > s {
      MulMonotone(1, r - s, d);
    } else if s > r {
      assert (s - r) * d == s * d - r * d;
      MulMonotone(1, s - r, d);
    }
  }

  /** x is a value of a signed word of this width. */
  predicate Fits(x: int, bits: nat) {
    bits > 0 && var m: int := Pow2(bits - 1); -m <= x < m
  }

  /** The value modulo 2^bits that a signed word of this width can hold. */
  function Wrap(x: int, bits: nat): int
    requires bits > 0
  {
    (x + Pow2(bits - 1)) % Pow2(bits) - Pow2(bits - 1)
  }

  lemma WrapFits(x: int, bits: nat)
    requires bits > 0
    ensures Fits(Wrap(x, bits), bits)
    ensures Fits(x, bits) ==> Wrap(x, bits) == x
  {
    var m := Pow2(bits);
    assert m == 2 * Pow2(bits - 1);
    if Fits(x, bits) {
      DivModUnique(x + Pow2(bits - 1), m, 0, x + Pow2(bits - 1));
    }
  }

  /** A value of the width that differs from x by a multiple of 2^bits is what is stored of x. */
  lemma WrapIs(x: int, bits: nat, k: int, y: int)
    requires bits > 0 && x == k * Pow2(bits) + y
    ensures y == Wrap(x, bits) <==> Fits(y, bits)
  {
    WrapFits(x, bits);
    var m, h := Pow2(bits), Pow2(bits - 1);
    assert m == 2 * h;
    if Fits(y, bits) {
      var t := y + h;
      assert x + h == k * m + t;
      DivModUnique(x + h, m, k, t);
    }
  }

  lemma TruncDivIs(a: int, b: int)
    requires b > 0
    ensures Truncated(a, b, TruncDiv(a, b))
  {
    var q := Abs(a) / b;
    assert Abs(a) == b * q + Abs(a) % b;
    assert b * q == q * b && (-q) * b == -(q * b);
  }

  /** The extra bit below the quotient rounds it. */
  lemma Rounds(p: int, d: int, v: int)
    requires d > 0 && Truncated(2 * p, d, v)
    ensures Nearest(p, d, TruncDiv(v, 2) + TruncMod(v, 2))
  {
    var r := TruncDiv(v, 2) + TruncMod(v, 2);
    SignOf(2 * p, d, v);
    Halves(v, r);
    hide TruncDiv, TruncMod;
    if v == 2 * r {
      assert v * d == 2 * (r * d);
    } else if v > 0 {
      assert v * d == 2 * (r * d) - d;
    } else {
      assert v * d == 2 * (r * d) + d;
    }
  }

  lemma Halves(v: int, r: int)
    requires r == TruncDiv(v, 2) + TruncMod(v, 2)
    ensures v == 2 * r || (v == 2 * r - 1 && v > 0) || (v == 2 * r + 1 && v < 0)
  {
  }

  lemma SignOf(p: int, d: int, v: int)
    requires d > 0 && Truncated(p, d, v)
    ensures p >= 0 ==> v >= 0
    ensures p <= 0 ==> v <= 0
  {
    if v > 0 {
      MulMonotone(1, v, d);
    } else if v < 0 {
      MulMonotone(v, -1, d);
    }
  }

  lemma HalfDivisor(p: int, h: int)
    requires h > 0
    ensures TruncDiv(p, h) == TruncDiv(2 * p, 2 * h)
  {
    var a := Abs(p);
    var q, r := a / h, a % h;
    assert a == h * q + r;
    assert 2 * a == q * (2 * h) + 2 * r;
    DivModUnique(2 * a, 2 * h, q, 2 * r);
  }

  function Sign(y: int): int { if y < 0 then -1 else 1 }

  lemma SignMoves(a: int, y: int)
    requires y != 0
    ensures TruncDiv(a, y) == TruncDiv(Sign(y) * a, Abs(y))
  {
    var b := Sign(y) * a;
    assert b == if y < 0 then -a else a;
    assert Abs(b) == Abs(a) && Abs(Abs(y)) == Abs(y);
    hide Abs;
    ZeroQuotient(Abs(y));
  }

  lemma ZeroQuotient(d: int)
    requires d != 0
    ensures 0 / d == 0 && Abs(0) == 0
  {
  }

  class Fixed {
    const bits: nat
    const fractionBits: nat
    const enableRounding: bool
    var raw: int

    ghost predicate Valid()
      reads this
    {
      0 < fractionBits < bits && Fits(raw, bits)
    }

    constructor FromRawValue(bits: nat, fractionBits: nat, enableRounding: bool, raw: int)
      requires 0 < fractionBits < bits
      ensures Valid() && this.raw == Wrap(raw, bits)
      ensures this.bits == bits && this.fractionBits == fractionBits && this.enableRounding == enableRounding
    {
      this.bits, this.fractionBits, this.enableRounding := bits, fractionBits, enableRounding;
      this.raw := Wrap(raw, bits);
      WrapFits(raw, bits);
    }

    /** operator*= */
    method MulAssign(y: Fixed)
      requires Valid() && y.Valid()
      modifies this`raw
      ensures Valid()
      ensures exists r :: Quotient(enableRounding, old(raw) * old(y.raw), Pow2(fractionBits), r) && raw == Wrap(r, bits)
    {
      var fractionMult := Pow2(fractionBits);
      ghost var p := raw * y.raw;
      assert fractionMult == 2 * Pow2(fractionBits - 1);
      hide Pow2, TruncDiv, TruncMod, Wrap, Nearest, Truncated;
      var r: int;
      if enableRounding {
        var value := TruncDiv(raw * y.raw, fractionMult / 2);
        HalfDivisor(p, fractionMult / 2);
        Rounds(p, fractionMult, value);
        r := TruncDiv(value, 2) + TruncMod(value, 2);
      } else {
        r := TruncDiv(raw * y.raw, fractionMult);
        TruncDivIs(p, fractionMult);
      }
      WrapFits(r, bits);
      raw := Wrap(r, bits);
      assert Quotient(enableRounding, p, fractionMult, r);
    }

    /** operator/= */
    method DivAssign(y: Fixed)
      requires Valid() && y.Valid() && y.raw != 0
      modifies this`raw
      ensures Valid()
      ensures exists r ::
                && Quotient(enableRounding, Sign(old(y.raw)) * (old(raw) * Pow2(fractionBits)), Abs(old(y.raw)), r)
                && raw == Wrap(r, bits)
    {
      var fractionMult := Pow2(fractionBits);
      hide Pow2, TruncDiv, TruncMod, Wrap, Nearest, Truncated;
      ghost var p, d := Sign(y.raw) * (raw * fractionMult), Abs(y.raw);
      SignTwice(y.raw, raw * fractionMult);
      var r: int;
      if enableRounding {
        var value := TruncDiv(raw * fractionMult * 2, y.raw);
        SignMoves(raw * fractionMult * 2, y.raw);
        TruncDivIs(2 * p, d);
        Rounds(p, d, value);
        r := TruncDiv(value, 2) + TruncMod(value, 2);
      } else {
        r := TruncDiv(raw * fractionMult, y.raw);
        SignMoves(raw * fractionMult, y.raw);
        TruncDivIs(p, d);
      }
      WrapFits(r, bits);
      raw := Wrap(r, bits);
      assert Quotient(enableRounding, p, d, r);
    }
  }

  lemma SignTwice(y: int, a: int)
    ensures Sign(y) * (a * 2) == 2 * (Sign(y) * a)
  {
  }

  // ----- The intermediate type -----

  /** The products in multiplication and division fit twice the width. */
  lemma ProductsFit(x: int, y: int, f: nat, bits: nat)
    requires 0 < f < bits && Fits(x, bits) && Fits(y, bits)
    ensures Fits(x * y, 2 * bits) && Fits(x * Pow2(f) * 2, 2 * bits)
  {
    var m := Pow2(bits - 1);
    Pow2Add(bits - 1, bits - 1);
    assert bits - 1 + (bits - 1) == 2 * bits - 2;
    assert Pow2(2 * bits - 1) == 2 * (m * m);
    Pow2Monotone(f, bits - 1);
    hide Pow2;
    AbsProduct(x, y, m, m);
    AbsProduct(x, Pow2(f), m, m);
    if x >= 0 {
      MulMonotone(x + 1, m, Pow2(f));
      MulSucc(Pow2(f), x);
      MulMonotone(Pow2(f), m, m);
    }
  }

  lemma AbsProduct(x: int, y: int, a: int, b: int)
    requires -a <= x <= a && -b <= y <= b
    ensures -(a * b) <= x * y <= a * b
  {
    MulMonotone(Abs(x), a, Abs(y));
    MulMonotone(Abs(y), b, a);
    assert x * y == Abs(x) * Abs(y) || x * y == -(Abs(x) * Abs(y));
  }

  /** A rounded square root fits the type of its argument. */
  lemma RootFits(raw: int, f: nat, bits: nat, root: int)
    requires 0 < f < bits && raw > 0 && Fits(raw, bits) && NearestRoot(raw * Pow2(f), root)
    ensures Fits(root, bits)
  {
    var m := Pow2(bits - 1);
    Pow2Monotone(f, bits - 1);
    MulMonotone(raw, m - 1, Pow2(f));
    MulMonotone(Pow2(f), m, m - 1);
    ProductOfSuccessors(m, root);
    assert Sq(root) - root < m * (m - 1);
  }

  lemma ProductOfSuccessors(m: int, root: int)
    requires m > 0
    ensures root >= m ==> Sq(root) - root >= m * (m - 1)
  {
    if root >= m {
      MulMonotone(m - 1, root - 1, root);
      MulMonotone(m, root, m - 1);
      assert Sq(root) - root == root * (root - 1);
    }
  }
}
