/** `cbrt` of `fpm/math.hpp`: the digit-by-digit cube root in two shifted rounds, in the
    words of the intermediate type. */
module CubeRoot {
  import opened Integers
  import opened FixedPoint

  function Cube(x: int): int { x * x * x }

  /** r is the cube root of n rounded down. */
  ghost predicate FloorCubeRoot(n: int, r: int) {
    r >= 0 && Cube(r) <= n < Cube(r + 1)
  }

  // ----- The algorithm -----

  /** What is left of the argument, the digits found so far, and the next digit's offset. */
  datatype Digits = Digits(num: int, res: int, ofs: int)

  /** x as a signed word of this width; width 0 stands for unbounded integers. */
  function Stored(x: int, wide: nat): int {
    if wide == 0 then x else Wrap(x, wide)
  }

  /** The share of the digit one behind the digits r, which num is compared with. */
  function Share(r: int, ofs: nat): int {
    (3 * r * (r + 1) + 1) * Pow2(ofs)
  }

  function NextDigit(d: Digits, wide: nat): Digits
    requires d.ofs >= 0
  {
    var r := Stored(d.res + d.res, wide);
    var val := Stored(Share(r, d.ofs), wide);
    if d.num >= val then Digits(Stored(d.num - val, wide), Stored(r + 1, wide), d.ofs - 3) else Digits(d.num, r, d.ofs - 3)
  }

  /** One round of digits: the lambda do_round. */
  function AllDigits(d: Digits, wide: nat): Digits
    decreases d.ofs
  {
    if d.ofs < 0 then d else AllDigits(NextDigit(d, wide), wide)
  }

  /** The offset of the greatest power of eight that is not above the shifted argument. */
  function TopOffset(raw: int, f: nat): int
    requires raw > 0
  {
    (HighestBit(raw) + 2 * f) / 3 * 3
  }

  function BeforeFirst(raw: int, f: nat, wide: nat): Digits
    requires raw > 0
  {
    Digits(Stored(raw * Pow2(f), wide), 0, TopOffset(raw, f) - f)
  }

  function BeforeSecond(raw: int, f: nat, wide: nat): Digits
    requires raw > 0
  {
    var d := AllDigits(BeforeFirst(raw, f, wide), wide);
    Digits(Stored(d.num * Pow2(f), wide), d.res, d.ofs + f)
  }

  /** cbrt of a fixed-point number with F = f in `bits` bits, computed in words of `wide` bits. */
  function CbrtWords(raw: int, f: nat, bits: nat, wide: nat): int
    decreases if raw < 0 then 1 else 0
  {
    if raw == 0 then 0
    else if raw < 0 then Stored(-CbrtWords(-raw, f, bits, wide), bits)
    else Stored(AllDigits(BeforeSecond(raw, f, wide), wide).res, bits)
  }

  method Round(num0: int, res0: int, ofs0: int, wide: nat) returns (num: int, res: int, ofs: int)
    ensures Digits(num, res, ofs) == AllDigits(Digits(num0, res0, ofs0), wide)
  {
    num, res, ofs := num0, res0, ofs0;
    while ofs >= 0
      invariant AllDigits(Digits(num, res, ofs), wide) == AllDigits(Digits(num0, res0, ofs0), wide)
      decreases ofs
    {
      hide Stored, Share;
      ghost var d := Digits(num, res, ofs);
      res := Stored(res + res, wide);
      var val := Stored((3 * res * (res + 1) + 1) * Pow2(ofs), wide);
      assert val == Stored(Share(res, ofs), wide) by { ShareIs(res, ofs); }
      if num >= val {
        num := Stored(num - val, wide);
        res := Stored(res + 1, wide);
      }
      ofs := ofs - 3;
      assert Digits(num, res, ofs) == NextDigit(d, wide);
    }
  }

  lemma ShareIs(r: int, ofs: nat)
    ensures Share(r, ofs) == (3 * r * (r + 1) + 1) * Pow2(ofs)
  {
  }

  // ----- The words that are large enough -----

  /** Every share of a round fits, when the words before it were large enough. */
  ghost predicate RoundFits(d: Digits, wide: nat)
    decreases d.ofs
  {
    d.ofs >= 0 ==> Fits(Share(2 * d.res, d.ofs), wide) && RoundFits(NextDigit(d, 0), wide)
  }

  /** No intermediate value of cbrt leaves its type. */
  ghost predicate CbrtFits(raw: int, f: nat, wide: nat)
    requires raw > 0
  {
    && Fits(BeforeFirst(raw, f, 0).num, wide) && RoundFits(BeforeFirst(raw, f, 0), wide)
    && Fits(BeforeSecond(raw, f, 0).num, wide) && RoundFits(BeforeSecond(raw, f, 0), wide)
  }

  /** cbrt: the result in machine words; exactly the root, rounded down, where every
      intermediate value fits. The least raw value has no negation: the source's recursion
      does not end for it. */
  method Cbrt(raw: int, f: nat, bits: nat, wide: nat) returns (root: int)
    requires 0 < f < bits && 2 * bits <= wide && Fits(raw, bits) && Fits(-raw, bits)
    ensures root == CbrtWords(raw, f, bits, wide)
    ensures raw == 0 || CbrtFits(Abs(raw), f, wide) ==>
              FloorCubeRoot(Abs(raw) * Pow2(2 * f), Abs(root)) && if raw < 0 then root <= 0 else root >= 0
    decreases if raw < 0 then 1 else 0
  {
    hide *;
    if raw == 0 {
      CbrtWordsIs(raw, f, bits, wide);
      ZeroRoot(Pow2(2 * f));
      return 0;
    }
    if raw < 0 {
      CbrtWordsIs(raw, f, bits, wide);
      var positive := Cbrt(-raw, f, bits, wide);
      NegationFits(raw, f, bits, wide, positive);
      return Stored(-positive, bits);
    }
    var num, res, ofs := raw, 0, TopOffset(raw, f);
    num := Stored(num * Pow2(f), wide);
    ofs := ofs - f;
    num, res, ofs := Round(num, res, ofs, wide);
    num := Stored(num * Pow2(f), wide);
    ofs := ofs + f;
    num, res, ofs := Round(num, res, ofs, wide);
    CbrtWordsIs(raw, f, bits, wide);
    RoundsAre(raw, f, wide);
    PositiveRoot(raw, f, bits, wide);
    return Stored(res, bits);
  }

  lemma RoundsAre(raw: int, f: nat, wide: nat)
    requires raw > 0
    ensures BeforeFirst(raw, f, wide) == Digits(Stored(raw * Pow2(f), wide), 0, TopOffset(raw, f) - f)
    ensures var d := AllDigits(BeforeFirst(raw, f, wide), wide);
            BeforeSecond(raw, f, wide) == Digits(Stored(d.num * Pow2(f), wide), d.res, d.ofs + f)
  {
    hide AllDigits;
  }

  lemma ZeroRoot(s: int)
    ensures FloorCubeRoot(Abs(0) * s, Abs(0))
  {
  }

  lemma PositiveRoot(raw: int, f: nat, bits: nat, wide: nat)
    requires 0 < f < bits && 0 < wide && raw > 0 && Fits(raw, bits)
    ensures Abs(raw) == raw
    ensures CbrtFits(raw, f, wide) ==>
              var root := CbrtWords(raw, f, bits, wide);
              root >= 0 && Abs(root) == root && FloorCubeRoot(raw * Pow2(2 * f), root)
  {
    hide CbrtWords, CbrtFits, Pow2, Cube;
    if CbrtFits(raw, f, wide) {
      WordsExact(raw, f, bits, wide);
    }
  }

  lemma NegationFits(raw: int, f: nat, bits: nat, wide: nat, positive: int)
    requires 0 < f < bits && 0 < wide && raw < 0 && Fits(-raw, bits) && positive == CbrtWords(-raw, f, bits, wide)
    ensures Abs(raw) == -raw == Abs(-raw)
    ensures CbrtFits(-raw, f, wide) ==> Stored(-positive, bits) == -positive <= 0 && Abs(-positive) == Abs(positive)
  {
    hide CbrtWords, CbrtFits, Pow2, Cube;
    if CbrtFits(-raw, f, wide) {
      WordsExact(-raw, f, bits, wide);
      RootInWord(-raw * Pow2(2 * f), f, bits, -raw, positive);
      WrapFits(-positive, bits);
      hide Wrap;
      assert Fits(-positive, bits);
    }
  }

  // ----- Without bounds the result is the cube root -----

  lemma CubeSum(a: int, t: int)
    ensures Cube(a + t) == Cube(a) + (3 * a * a * t + 3 * a * t * t) + Cube(t)
  {
    assert (a + t) * (a + t) == a * a + 2 * a * t + t * t;
  }

  lemma CubeScale(c: int, t: int)
    ensures Cube(c * t) == Cube(c) * Cube(t)
  {
    var x, y := c * c, t * t;
    assert (c * t) * (c * t) == x * y by {
      assert (c * t) * (c * t) == c * (t * (c * t)) == c * (c * (t * t));
    }
    assert (x * y) * (c * t) == (x * c) * (y * t) by {
      assert (x * y) * (c * t) == x * (y * (c * t)) == x * (c * (y * t));
    }
  }

  lemma CubeDigit(q: int, t: int)
    ensures Cube((2 * q + 1) * t) == Cube(q * (2 * t)) + (3 * (2 * q) * (2 * q + 1) + 1) * Cube(t)
    ensures Cube((2 * q) * t) == Cube(q * (2 * t)) && Cube((2 * q + 2) * t) == Cube((q + 1) * (2 * t))
  {
    var r := 2 * q;
    assert (r + 1) * t == r * t + t;
    assert q * (2 * t) == r * t && (2 * q + 2) * t == (q + 1) * (2 * t);
    CubeScale(r + 1, t);
    CubeScale(r, t);
    CubeSum(r, 1);
    assert Cube(r + 1) == Cube(r) + (3 * r * (r + 1) + 1);
    assert Cube(r + 1) * Cube(t) == Cube(r) * Cube(t) + (3 * r * (r + 1) + 1) * Cube(t);
  }

  lemma CubeOfPower(k: nat)
    ensures Cube(Pow2(k)) == Pow2(3 * k)
  {
    Pow2Add(k, k);
    Pow2Add(2 * k, k);
    assert k + k == 2 * k && 2 * k + k == 3 * k;
  }

  /** What is left of n after the root's leading digits q, scaled down by 2^shift. */
  ghost predicate Remaining(n: int, num: int, shift: nat, q: int, k: int) {
    && k >= -1 && q >= 0
    && num * Pow2(shift) == n - Cube(q * Pow2(k + 1)) && 0 <= num
    && n < Cube((q + 1) * Pow2(k + 1))
  }

  /** The value compared with num is the next digit's share of n. */
  lemma ScaledShare(v: int, ofs: nat, shift: nat, k: nat, num: int)
    requires ofs + shift == 3 * k
    ensures v * Pow2(ofs) * Pow2(shift) == v * Cube(Pow2(k))
    ensures num >= v * Pow2(ofs) <==> num * Pow2(shift) >= v * Cube(Pow2(k))
    ensures (num - v * Pow2(ofs)) * Pow2(shift) == num * Pow2(shift) - v * Cube(Pow2(k))
  {
    Pow2Add(ofs, shift);
    CubeOfPower(k);
    hide *;
    Scaled(v, Pow2(ofs), Pow2(shift), num);
  }

  lemma Scaled(v: int, a: int, p: int, num: int)
    requires p > 0
    ensures v * a * p == v * (a * p)
    ensures num >= v * a <==> num * p >= v * (a * p)
    ensures (num - v * a) * p == num * p - v * (a * p)
  {
    var x := v * a;
    assert x * p == v * (a * p);
    assert (num - x) * p == num * p - x * p;
    if num >= x {
      MulMonotone(x, num, p);
    } else {
      MulMonotone(num + 1, x, p);
      MulSucc(p, num);
    }
  }

  lemma RemainingRange(n: int, num: int, shift: nat, q: int, k: int)
    requires Remaining(n, num, shift, q, k)
    ensures k >= -1 && q >= 0 && num >= 0
  {
  }

  lemma DigitFound(n: int, num: int, shift: nat, q: int, k: int, ofs: nat)
    requires Remaining(n, num, shift, q, k) && ofs + shift == 3 * k
    ensures var r := q + q;
            var val := (3 * r * (r + 1) + 1) * Pow2(ofs);
            if num >= val then Remaining(n, num - val, shift, r + 1, k - 1) else Remaining(n, num, shift, r, k - 1)
  {
    var r := q + q;
    var v := 3 * r * (r + 1) + 1;
    var t := Pow2(k);
    CubeDigit(q, t);
    ScaledShare(v, ofs, shift, k, num);
    assert r == 2 * q && v == 3 * (2 * q) * (2 * q + 1) + 1;
    hide Cube;
    assert Pow2(k + 1) == 2 * t;
    assert r + 1 + 1 == 2 * q + 2;
  }

  lemma NothingFound(raw: int, f: nat)
    requires raw > 0
    ensures Remaining(raw * Pow2(2 * f), raw * Pow2(f), f, 0, TopOffset(raw, f) / 3)
  {
    hide *;
    var k := TopOffset(raw, f) / 3;
    TopOffsetIs(raw, f);
    CubeAbove(raw, f, k);
    Pow2Add(f, f);
    assert f + f == 2 * f;
    NoDigits(raw, Pow2(f), Pow2(k + 1));
    RemainingIs(raw * Pow2(2 * f), raw * Pow2(f), f, 0, k);
  }

  lemma TopOffsetIs(raw: int, f: nat)
    requires raw > 0
    ensures TopOffset(raw, f) == 3 * ((HighestBit(raw) + 2 * f) / 3)
  {
    hide HighestBit;
  }

  lemma RemainingIs(n: int, num: int, shift: nat, q: int, k: int)
    requires k >= -1 && q >= 0 && num >= 0 && num * Pow2(shift) == n - Cube(q * Pow2(k + 1))
    requires n < Cube((q + 1) * Pow2(k + 1))
    ensures Remaining(n, num, shift, q, k)
  {
    hide Cube, Pow2;
  }

  lemma CubeAbove(raw: int, f: nat, k: nat)
    requires raw > 0 && k == (HighestBit(raw) + 2 * f) / 3
    ensures raw * Pow2(2 * f) < Cube(Pow2(k + 1))
  {
    hide Pow2, Cube;
    ShiftedBelow(raw, 2 * f);
    Pow2Monotone(HighestBit(raw) + 2 * f + 1, 3 * (k + 1));
    CubeOfPower(k + 1);
  }

  lemma NoDigits(raw: int, p: int, s: int)
    requires raw > 0 && p > 0
    ensures raw * (p * p) == (raw * p) * p && raw * p >= 0
    ensures Cube(0 * s) == 0 && Cube((0 + 1) * s) == Cube(s)
  {
    MulNonNegative(raw, p);
  }

  /** The second shift turns the scaled remainder into the remainder itself. */
  lemma SecondShift(n: int, num: int, f: nat, q: int, k: int)
    requires Remaining(n, num, f, q, k)
    ensures Remaining(n, num * Pow2(f), 0, q, k)
  {
    MulNonNegative(num, Pow2(f));
    assert Pow2(0) == 1;
    assert num * Pow2(f) * Pow2(0) == num * Pow2(f);
  }

  lemma NothingLeft(n: int, num: int, q: int)
    requires Remaining(n, num, 0, q, -1)
    ensures FloorCubeRoot(n, q)
  {
    assert Pow2(0) == 1;
    assert q * 1 == q && (q + 1) * 1 == q + 1;
  }

  /** A round finds all digits whose scaled weight is an integer. */
  lemma {:induction false} RoundExact(n: int, d: Digits, shift: nat, k: int)
    requires d.ofs + shift == 3 * k && d.ofs >= -3 && Remaining(n, d.num, shift, d.res, k)
    ensures var e := AllDigits(d, 0);
            && (e.ofs + shift) % 3 == 0 && -3 <= e.ofs < 0 && Remaining(n, e.num, shift, e.res, (e.ofs + shift) / 3)
    decreases d.ofs
  {
    hide Remaining, Share, Pow2, Cube;
    if d.ofs >= 0 {
      RemainingRange(n, d.num, shift, d.res, k);
      DigitFound(n, d.num, shift, d.res, k, d.ofs);
      ShareIs(d.res + d.res, d.ofs);
      RoundExact(n, NextDigit(d, 0), shift, k - 1);
    }
  }

  /** The first round leaves f / 3 digits, rounded up, to the second one. */
  lemma FirstRound(raw: int, f: nat)
    requires raw > 0 && f > 0
    ensures var d, k := AllDigits(BeforeFirst(raw, f, 0), 0), (f - 1) / 3;
            d.ofs == 3 * k - f && Remaining(raw * Pow2(2 * f), d.num, f, d.res, k)
  {
    hide Remaining, Pow2, AllDigits;
    NothingFound(raw, f);
    RoundExact(raw * Pow2(2 * f), BeforeFirst(raw, f, 0), f, TopOffset(raw, f) / 3);
  }

  /** Both rounds together find the whole root. */
  lemma ExactRoot(raw: int, f: nat)
    requires raw > 0 && f > 0
    ensures FloorCubeRoot(raw * Pow2(2 * f), AllDigits(BeforeSecond(raw, f, 0), 0).res)
  {
    hide Remaining, Pow2, AllDigits, FloorCubeRoot;
    FirstRound(raw, f);
    var n, d, k := raw * Pow2(2 * f), AllDigits(BeforeFirst(raw, f, 0), 0), (f - 1) / 3;
    SecondShift(n, d.num, f, d.res, k);
    RoundExact(n, BeforeSecond(raw, f, 0), 0, k);
    var e := AllDigits(BeforeSecond(raw, f, 0), 0);
    RemainingRange(n, e.num, 0, e.res, (e.ofs + 0) / 3);
    NothingLeft(n, e.num, e.res);
  }

  // ----- Large words give the same digits -----

  lemma DigitStored(d: Digits, wide: nat)
    requires wide > 0 && d.ofs >= 0 && d.res >= 0 && 0 <= d.num && Fits(d.num, wide) && Fits(Share(2 * d.res, d.ofs), wide)
    ensures NextDigit(d, wide) == NextDigit(d, 0)
    ensures 0 <= NextDigit(d, 0).num <= d.num && NextDigit(d, 0).res >= 0 && Share(2 * d.res, d.ofs) > 2 * d.res
  {
    var r := 2 * d.res;
    SharePositive(r, d.ofs);
    hide Share, Wrap;
    WrapFits(r, wide);
    WrapFits(r + 1, wide);
    WrapFits(Share(r, d.ofs), wide);
    WrapFits(d.num - Share(r, d.ofs), wide);
  }

  lemma SharePositive(r: int, ofs: nat)
    requires r >= 0
    ensures Share(r, ofs) >= r + 1
  {
    MulNonNegative(r, r + 1);
    assert 3 * r * (r + 1) == 3 * (r * (r + 1));
    MulNonNegative(r, r);
    assert r * (r + 1) == r * r + r;
    MulMonotone(1, Pow2(ofs), 3 * r * (r + 1) + 1);
  }

  lemma {:induction false} RoundStored(d: Digits, wide: nat)
    requires wide > 0 && d.res >= 0 && 0 <= d.num && Fits(d.num, wide) && RoundFits(d, wide)
    ensures AllDigits(d, wide) == AllDigits(d, 0)
    ensures AllDigits(d, 0).num >= 0 && AllDigits(d, 0).res >= 0
    decreases d.ofs
  {
    hide Wrap, Share, Stored;
    if d.ofs >= 0 {
      DigitStored(d, wide);
      var e := NextDigit(d, 0);
      assert Fits(e.num, wide);
      assert e.ofs == d.ofs - 3;
      RoundStored(e, wide);
    }
  }

  lemma RootInWord(n: int, f: nat, bits: nat, raw: int, root: int)
    requires 0 < f < bits && raw > 0 && Fits(raw, bits) && n == raw * Pow2(2 * f) && FloorCubeRoot(n, root)
    ensures Fits(root, bits) && Stored(root, bits) == root
  {
    var m := Pow2(bits - 1);
    WrapFits(root, bits);
    CubeOfPower(bits - 1);
    Pow2Monotone(2 * f, 2 * (bits - 1));
    Pow2Add(bits - 1, 2 * (bits - 1));
    assert bits - 1 + 2 * (bits - 1) == 3 * (bits - 1);
    MulMonotone(raw, m, Pow2(2 * f));
    MulMonotone(Pow2(2 * f), Pow2(2 * (bits - 1)), m);
    MulMonotone(raw + 1, m, Pow2(2 * f));
    MulSucc(Pow2(2 * f), raw);
    hide Pow2, Cube, Wrap;
    if root >= m {
      CubeMonotone(m, root);
    }
  }

  /** Where no intermediate value leaves its type, the words hold the cube root. */
  lemma WordsExact(raw: int, f: nat, bits: nat, wide: nat)
    requires 0 < f < bits && 0 < wide && raw > 0 && Fits(raw, bits) && CbrtFits(raw, f, wide)
    ensures FloorCubeRoot(raw * Pow2(2 * f), CbrtWords(raw, f, bits, wide))
  {
    ExactRoot(raw, f);
    RootInWord(raw * Pow2(2 * f), f, bits, raw, AllDigits(BeforeSecond(raw, f, 0), 0).res);
    ShiftPositive(raw, f);
    RoundsStored(raw, f, wide);
    hide *;
    CbrtWordsIs(raw, f, bits, wide);
  }

  lemma ShiftPositive(num: int, f: nat)
    requires num >= 0
    ensures num * Pow2(f) >= 0
  {
    MulNonNegative(num, Pow2(f));
  }

  lemma CbrtWordsIs(raw: int, f: nat, bits: nat, wide: nat)
    ensures raw == 0 ==> CbrtWords(raw, f, bits, wide) == 0
    ensures raw < 0 ==> CbrtWords(raw, f, bits, wide) == Stored(-CbrtWords(-raw, f, bits, wide), bits)
    ensures raw > 0 ==> CbrtWords(raw, f, bits, wide) == Stored(AllDigits(BeforeSecond(raw, f, wide), wide).res, bits)
  {
  }

  lemma RoundsStored(raw: int, f: nat, wide: nat)
    requires 0 < wide && raw > 0 && CbrtFits(raw, f, wide)
    ensures AllDigits(BeforeSecond(raw, f, wide), wide) == AllDigits(BeforeSecond(raw, f, 0), 0)
  {
    hide *;
    RoundsAre(raw, f, 0);
    RoundsAre(raw, f, wide);
    ShiftPositive(raw, f);
    StoredIs(raw * Pow2(f), wide);
    CbrtFitsIs(raw, f, wide);
    RoundStored(BeforeFirst(raw, f, 0), wide);
    var num := AllDigits(BeforeFirst(raw, f, 0), 0).num;
    ShiftPositive(num, f);
    StoredIs(num * Pow2(f), wide);
    RoundStored(BeforeSecond(raw, f, 0), wide);
  }

  lemma StoredIs(x: int, wide: nat)
    ensures Stored(x, 0) == x && (Fits(x, wide) ==> Stored(x, wide) == x)
  {
    if wide > 0 {
      WrapFits(x, wide);
    }
  }

  lemma CbrtFitsIs(raw: int, f: nat, wide: nat)
    requires raw > 0
    ensures CbrtFits(raw, f, wide) <==>
            && Fits(BeforeFirst(raw, f, 0).num, wide) && RoundFits(BeforeFirst(raw, f, 0), wide)
            && Fits(BeforeSecond(raw, f, 0).num, wide) && RoundFits(BeforeSecond(raw, f, 0), wide)
  {
  }

  // ----- When everything fits -----

  lemma EightTimes(ofs: nat)
    ensures Pow2(ofs + 3) == 8 * Pow2(ofs)
  {
    assert Pow2(ofs + 3) == 2 * Pow2(ofs + 2) == 4 * Pow2(ofs + 1);
  }

  /** A digit's share never exceeds that of the digit before it. */
  lemma ShareFalls(r: int, next: int, ofs: nat)
    requires r >= 2 && 0 <= next <= 2 * r + 2
    ensures Share(next, ofs) <= Share(r, ofs + 3)
  {
    EightTimes(ofs);
    FactorFalls(r, next);
    ShareIs(next, ofs);
    ShareIs(r, ofs + 3);
    hide *;
    var v, w, s := 3 * next * (next + 1) + 1, 3 * r * (r + 1) + 1, Pow2(ofs);
    MulMonotone(v, 8 * w, s);
    assert (8 * w) * s == w * (8 * s);
  }

  lemma FactorFalls(r: int, next: int)
    requires r >= 2 && 0 <= next <= 2 * r + 2
    ensures 3 * next * (next + 1) + 1 <= 8 * (3 * r * (r + 1) + 1)
  {
    MulMonotone(next, 2 * r + 2, next + 1);
    MulMonotone(next + 1, 2 * r + 3, 2 * r + 2);
    MulMonotone(2, r, r);
    Expanded(r, next);
    var x, y, z := next * (next + 1), (2 * r + 2) * (2 * r + 3), r * r;
    assert x <= y == 4 * z + 10 * r + 6;
  }

  lemma Expanded(r: int, next: int)
    ensures (2 * r + 2) * (2 * r + 3) == 4 * (r * r) + 10 * r + 6
    ensures 3 * next * (next + 1) == 3 * (next * (next + 1)) && 3 * r * (r + 1) == 3 * (r * r) + 3 * r
  {
  }

  lemma {:induction false} RoundStaysSmall(d: Digits, wide: nat)
    requires d.ofs >= 0 && d.res >= 0 && (d.res >= 1 || d.ofs < 3) && Fits(Share(2 * d.res, d.ofs), wide)
    ensures RoundFits(d, wide)
    decreases d.ofs
  {
    hide Share, Pow2;
    if d.ofs >= 3 {
      var e := NextDigit(d, 0);
      ShareFalls(2 * d.res, 2 * e.res, e.ofs);
      SharePositive(2 * e.res, e.ofs);
      RoundStaysSmall(e, wide);
    }
  }

  /** The first round always fits. */
  lemma FirstRoundFits(raw: int, f: nat, bits: nat, wide: nat)
    requires 0 < f < bits && 2 * bits <= wide && raw > 0 && Fits(raw, bits)
    ensures Fits(BeforeFirst(raw, f, 0).num, wide) && RoundFits(BeforeFirst(raw, f, 0), wide)
  {
    hide *;
    RoundsAre(raw, f, 0);
    StoredIs(raw * Pow2(f), wide);
    ShiftPositive(raw, f);
    TopBit(raw, f, bits, wide);
    TopOffsetIs(raw, f);
    var d := BeforeFirst(raw, f, 0);
    FitsIs(d.num, wide);
    if d.ofs < 0 {
      RoundFitsIs(d, wide);
    } else {
      Pow2Monotone(d.ofs, HighestBit(raw) + f);
      FirstShares(d.ofs);
      FitsIs(Share(0, d.ofs), wide);
      if d.ofs < 3 {
        RoundStaysSmall(d, wide);
      } else {
        FitsIs(Share(2, d.ofs - 3), wide);
        FirstDigit(d);
        RoundStaysSmall(NextDigit(d, 0), wide);
        RoundFitsIs(d, wide);
      }
    }
  }

  lemma FirstDigit(d: Digits)
    requires d.ofs >= 0 && d.res == 0 && d.num >= Share(0, d.ofs)
    ensures NextDigit(d, 0) == Digits(d.num - Share(0, d.ofs), 1, d.ofs - 3)
  {
    hide Share;
  }

  lemma FirstShares(ofs: nat)
    ensures Share(0, ofs) == Pow2(ofs)
    ensures ofs >= 3 ==> Share(2, ofs - 3) <= 3 * Pow2(ofs) && Share(2, ofs - 3) >= 0
  {
    hide Pow2;
    if ofs >= 3 {
      EightTimes(ofs - 3);
    }
  }

  lemma FitsIs(x: int, wide: nat)
    requires wide > 0 && 0 <= x
    ensures Fits(x, wide) <==> x < Pow2(wide - 1)
  {
  }

  lemma RoundFitsIs(d: Digits, wide: nat)
    ensures d.ofs < 0 ==> RoundFits(d, wide)
    ensures d.ofs >= 0 ==> (RoundFits(d, wide) <==> Fits(Share(2 * d.res, d.ofs), wide) && RoundFits(NextDigit(d, 0), wide))
  {
    hide Share;
  }

  /** The highest bit of the shifted argument is well below the word. */
  lemma TopBit(raw: int, f: nat, bits: nat, wide: nat)
    requires 0 < f < bits && 2 * bits <= wide && raw > 0 && Fits(raw, bits)
    ensures Pow2(HighestBit(raw) + f) <= raw * Pow2(f) < Pow2(wide - 1)
    ensures 3 * Pow2(HighestBit(raw) + f) < Pow2(wide - 1)
  {
    var h := HighestBit(raw);
    Pow2Add(h, f);
    MulMonotone(Pow2(h), raw, Pow2(f));
    if h >= bits - 1 {
      Pow2Monotone(bits - 1, h);
    }
    ShiftedBelow(raw, f);
    Pow2Monotone(h + f + 1, wide - 2);
    assert Pow2(wide - 1) == 2 * Pow2(wide - 2);
    Pow2Monotone(h + f, wide - 3);
    assert Pow2(wide - 2) == 2 * Pow2(wide - 3);
  }

  /** For every type and argument: the whole computation stays inside the intermediate type
      exactly when what the first digits q leave, and the share of the digit behind them, do. */
  lemma CbrtFitsIff(raw: int, f: nat, bits: nat, wide: nat, q: int)
    requires 0 < f < bits && 2 * bits <= wide && raw > 0 && Fits(raw, bits)
    requires FloorCubeRoot(raw * Pow2(2 * f) / Pow2(3 * ((f - 1) / 3 + 1)), q)
    ensures CbrtFits(raw, f, wide) <==>
            && raw * Pow2(2 * f) - Cube(q) * Pow2(3 * ((f - 1) / 3 + 1)) < Pow2(wide - 1)
            && Share(2 * q, 3 * ((f - 1) / 3)) < Pow2(wide - 1)
  {
    hide *;
    var k, d := (f - 1) / 3, BeforeSecond(raw, f, 0);
    LeftForSecond(raw, f, q);
    FirstRoundFits(raw, f, bits, wide);
    CbrtFitsIs(raw, f, wide);
    FitsIs(d.num, wide);
    SharePositive(2 * q, d.ofs);
    FitsIs(Share(2 * q, d.ofs), wide);
    RoundFitsIs(d, wide);
    if Fits(Share(2 * q, d.ofs), wide) {
      RoundStaysSmall(d, wide);
    }
  }

  /** The first round leaves the root of the leading digits, and the rest of the argument. */
  lemma LeftForSecond(raw: int, f: nat, q: int)
    requires raw > 0 && f > 0 && FloorCubeRoot(raw * Pow2(2 * f) / Pow2(3 * ((f - 1) / 3 + 1)), q)
    ensures var k, d := (f - 1) / 3, BeforeSecond(raw, f, 0);
            && d.res == q >= 0 && d.ofs == 3 * k && (q >= 1 || k == 0)
            && d.num == raw * Pow2(2 * f) - Cube(q) * Pow2(3 * (k + 1)) >= 0
  {
    hide *;
    var n, k, d := raw * Pow2(2 * f), (f - 1) / 3, AllDigits(BeforeFirst(raw, f, 0), 0);
    FirstRound(raw, f);
    RoundsAre(raw, f, 0);
    StoredIs(d.num * Pow2(f), 0);
    RemainingIsRoot(n, d.num, f, d.res, k);
    RootUnique(n / Pow2(3 * (k + 1)), q, d.res);
    RootPositive(raw, f, q);
  }

  lemma RemainingIsRoot(n: int, num: int, shift: nat, q: int, k: int)
    requires Remaining(n, num, shift, q, k)
    ensures FloorCubeRoot(n / Pow2(3 * (k + 1)), q)
    ensures num * Pow2(shift) == n - Cube(q) * Pow2(3 * (k + 1)) >= 0
  {
    var s := Pow2(k + 1);
    CubeOfPower(k + 1);
    CubeScale(q, s);
    CubeScale(q + 1, s);
    MulNonNegative(num, Pow2(shift));
    hide *;
    BetweenMultiples(n, Cube(q), Cube(q + 1), Cube(s));
  }

  lemma BetweenMultiples(n: int, a: int, b: int, p: int)
    requires p > 0 && a * p <= n < b * p
    ensures a <= n / p < b
  {
    var c := n / p;
    assert n == p * c + n % p && p * c == c * p;
    if c < a {
      MulMonotone(c + 1, a, p);
      MulSucc(p, c);
    }
    if c >= b {
      MulMonotone(b, c, p);
    }
  }

  lemma RootUnique(n: int, q: int, r: int)
    requires FloorCubeRoot(n, q) && FloorCubeRoot(n, r)
    ensures q == r >= 0
  {
    hide Cube;
    if q < r {
      CubeMonotone(q + 1, r);
    } else if r < q {
      CubeMonotone(r + 1, q);
    }
  }

  /** With two or more fraction bits the first round finds a digit. */
  lemma RootPositive(raw: int, f: nat, q: int)
    requires raw > 0 && f > 0 && FloorCubeRoot(raw * Pow2(2 * f) / Pow2(3 * ((f - 1) / 3 + 1)), q)
    ensures q >= 1 || (f - 1) / 3 == 0
  {
    var k := (f - 1) / 3;
    if k > 0 {
      Pow2Monotone(3 * (k + 1), 2 * f);
      MulMonotone(1, raw, Pow2(2 * f));
      hide Pow2;
      BetweenMultiples(raw * Pow2(2 * f), 1, raw * Pow2(2 * f) + 1, Pow2(3 * (k + 1))) by {
        MulMonotone(1, Pow2(3 * (k + 1)), raw * Pow2(2 * f) + 1);
      }
    }
  }

  /** The part of n beyond the cube of q*s, when the root stays below top*s. */
  lemma GapBound(n: int, q: int, s: int, top: int)
    requires 0 <= q && 0 < s && 0 < top && Cube(q * s) <= n < Cube((q + 1) * s)
    ensures n < Cube(top * s) ==> n - Cube(q * s) <= (Cube(top) - Cube(top - 1)) * Cube(s)
  {
    if n < Cube(top * s) {
      hide *;
      if q >= top {
        MulMonotone(top, q, s);
        MulNonNegative(top, s);
        CubeMonotone(top * s, q * s);
      }
      CubeScale(q + 1, s);
      CubeScale(q, s);
      CubeGap(q, top - 1);
      CubePositive(s);
      MulMonotone(Cube(q + 1) - Cube(q), Cube(top) - Cube(top - 1), Cube(s));
      assert Cube((q + 1) * s) - Cube(q * s) == (Cube(q + 1) - Cube(q)) * Cube(s);
    }
  }

  lemma CubePositive(s: int)
    requires s >= 0
    ensures Cube(s) >= 0
  {
    MulNonNegative(s, s);
    MulNonNegative(s * s, s);
  }

  lemma CubeGap(a: int, b: int)
    requires 0 <= a
    ensures a <= b ==> Cube(a + 1) - Cube(a) <= Cube(b + 1) - Cube(b)
  {
    CubeSum(a, 1);
    CubeSum(b, 1);
    if a <= b {
      MulMonotone(a, b, a);
      MulMonotone(a, b, b);
    }
  }

  lemma CubeMonotone(a: int, b: int)
    requires 0 <= a <= b
    ensures Cube(a) <= Cube(b)
  {
    MulMonotone(a, b, a);
    MulMonotone(a, b, b);
    MulMonotone(a * a, b * b, a);
    MulNonNegative(b, b);
    MulMonotone(a, b, b * b);
  }

  lemma TopCubes(s: int, top: int)
    requires (s == 8 && top == 0x2000) || (s == 64 && top == 0x8000) || (s == 256 && top == 330281)
    ensures (Cube(top) - Cube(top - 1)) * Cube(s) <= 0x7fff_ffff_ffff_ffff
    ensures Cube(top * s) > if s == 8 then 0x7fff_ffff * 0x1_0000 else if s == 64 then 0x7fff_ffff * 0x1_0000_0000
                            else 0x7fff_ffff * 0x1_0000_0000_0000
  {
  }

  lemma WidePowers()
    ensures Pow2(3) == 8 && Pow2(6) == 64 && Pow2(8) == 0x100 && Pow2(15) == 0x8000 && Pow2(21) == 0x20_0000
    ensures Pow2(16) == 0x1_0000 && Pow2(24) == 0x100_0000 && Pow2(31) == 0x8000_0000
    ensures Pow2(32) == 0x1_0000_0000 && Pow2(48) == 0x1_0000_0000_0000 && Pow2(63) == 0x8000_0000_0000_0000
  {
    assert Pow2(3) == 8 && Pow2(4) == 16 && Pow2(7) == 0x80;
    hide Pow2;
    Pow2Add(3, 3);
    Pow2Add(4, 4);
    Pow2Add(8, 7);
    Pow2Add(15, 6);
    Pow2Add(8, 8);
    Pow2Add(16, 8);
    Pow2Add(16, 15);
    Pow2Add(16, 16);
    Pow2Add(32, 16);
    Pow2Add(32, 31);
  }

  // ----- The types in use -----

  /** For the shipped 32-bit types with 8, 16 and 24 fraction bits everything fits 64 bits. */
  lemma ShippedTypesFit(raw: int, f: nat)
    requires 0 < raw <= 0x7fff_ffff && (f == 8 || f == 16 || f == 24)
    ensures CbrtFits(raw, f, 64)
  {
    WidePowers();
    hide Pow2, Cube, Share, CbrtFits, AllDigits, BeforeFirst;
    var n, k, d := raw * Pow2(2 * f), (f - 1) / 3, AllDigits(BeforeFirst(raw, f, 0), 0);
    FirstRound(raw, f);
    RemainingIsRoot(n, d.num, f, d.res, k);
    var q := d.res;
    assert Fits(raw, 32);
    CbrtFitsIff(raw, f, 32, 64, q);
    if f == 8 {
      ShippedBound(n, q, 8, 0x2000, 6);
    } else if f == 16 {
      ShippedBound(n, q, 64, 0x8000, 15);
    } else {
      ShippedBound(n, q, 256, 330281, 21);
    }
    CubeScale(q, Pow2(k + 1));
    CubeOfPower(k + 1);
  }

  lemma ShippedBound(n: int, q: int, s: int, top: int, ofs: nat)
    requires (s == 8 && top == 0x2000 && ofs == 6) || (s == 64 && top == 0x8000 && ofs == 15)
          || (s == 256 && top == 330281 && ofs == 21)
    requires 0 <= q && Cube(q * s) <= n < Cube((q + 1) * s)
    requires n <= if s == 8 then 0x7fff_ffff * 0x1_0000 else if s == 64 then 0x7fff_ffff * 0x1_0000_0000
                  else 0x7fff_ffff * 0x1_0000_0000_0000
    ensures n - Cube(q * s) <= 0x7fff_ffff_ffff_ffff && Share(2 * q, ofs) <= 0x7fff_ffff_ffff_ffff
  {
    TopCubes(s, top);
    WidePowers();
    hide *;
    GapBound(n, q, s, top);
    if q >= top {
      MulMonotone(top, q, s);
      CubeMonotone(top * s, q * s);
    }
    ShareMonotone(2 * q, 2 * (top - 1), ofs);
    ShareIs(2 * (top - 1), ofs);
  }

  lemma ShareMonotone(r: int, s: int, ofs: nat)
    requires 0 <= r <= s
    ensures Share(r, ofs) <= Share(s, ofs)
  {
    MulMonotone(r, s, r + 1);
    MulMonotone(r + 1, s + 1, s);
    assert 3 * r * (r + 1) == 3 * (r * (r + 1)) && 3 * s * (s + 1) == 3 * (s * (s + 1));
    MulMonotone(3 * r * (r + 1) + 1, 3 * s * (s + 1) + 1, Pow2(ofs));
  }

  /** The 16-bit type of `src/Buffer.h`, with 14 fraction bits and 32-bit intermediate
      values: everything fits exactly for small numbers that are close above a cube. */
  lemma SixteenBitFits(raw: int, q: int)
    requires 0 < raw <= 32767 && FloorCubeRoot(raw * 8192, q)
    ensures CbrtFits(raw, 14, 32) <==> raw <= 1114 && raw * 8192 - Cube(q) < 65536
  {
    SixteenBitPowers();
    WidePowers();
    assert raw * 268435456 / 32768 == raw * 8192;
    assert Fits(raw, 16);
    hide Pow2, CbrtFits;
    CbrtFitsIff(raw, 14, 16, 32, q);
    assert Share(2 * q, 12) == (3 * (2 * q) * (2 * q + 1) + 1) * 4096;
    hide Share;
    SmallRoot(raw, q);
  }

  /** The share behind the digits q fits for q up to 208, that is, for numbers up to 1114. */
  lemma SmallRoot(raw: int, q: int)
    requires FloorCubeRoot(raw * 8192, q)
    ensures raw <= 1114 <==> q <= 208
    ensures q <= 208 <==> (3 * (2 * q) * (2 * q + 1) + 1) * 4096 < 0x8000_0000
    ensures q <= 208 ==> Cube(q + 1) - Cube(q) <= 130417
  {
    if q <= 208 {
      CubeMonotone(q + 1, 209);
      MulMonotone(q, 208, q);
      MulMonotone(q, 208, 208);
      CubeSum(q, 1);
    } else {
      CubeMonotone(209, q);
      MulMonotone(209, q, q);
      MulMonotone(209, q, 209);
    }
    assert Cube(209) == 9129329;
  }

  /** With wrap-around, up to 1114, the root is right under exactly the same condition:
      otherwise the second shift makes what is left negative and no digit is found any more. */
  lemma SixteenBitRight(raw: int, q: int)
    requires 0 < raw <= 1114 && FloorCubeRoot(raw * 8192, q)
    ensures FloorCubeRoot(raw * Pow2(28), CbrtWords(raw, 14, 16, 32)) <==> raw * 8192 - Cube(q) < 65536
  {
    SixteenBitFits(raw, q);
    SixteenBitPowers();
    WidePowers();
    assert Fits(raw, 16);
    if raw * 8192 - Cube(q) < 65536 {
      WordsExact(raw, 14, 16, 32);
    } else {
      hide *;
      SmallRoot(raw, q);
      WrappedSecond(raw, q);
      CbrtWordsIs(raw, 14, 16, 32);
      assert Fits(Share(2 * q, 12), 32) by { SmallShare(q); }
      StuckRound(BeforeSecond(raw, 14, 32), 32);
      SmallRootFits(q);
      assert q * 32 == 32 * q;
      RootMissed(raw, q);
    }
  }

  /** The second shift wraps around once, to a negative value. */
  lemma WrappedSecond(raw: int, q: int)
    requires 0 < raw <= 1114 && FloorCubeRoot(raw * 8192, q) && raw * 8192 - Cube(q) >= 65536
    ensures var d := BeforeSecond(raw, 14, 32); d.num < 0 && d.res == q && 1 <= q <= 208 && d.ofs == 12
  {
    hide *;
    SmallGap(raw, q);
    assert Fits(raw, 16) by { SmallFits(raw); }
    assert (14 - 1) / 3 == 4;
    LeftForSecond(raw, 14, q);
    FirstRoundFits(raw, 14, 16, 32);
    RoundsAre(raw, 14, 0);
    RoundsAre(raw, 14, 32);
    StoredIs(raw * Pow2(14), 32);
    ShiftPositive(raw, 14);
    RoundStored(BeforeFirst(raw, 14, 0), 32);
    var num := AllDigits(BeforeFirst(raw, 14, 0), 0).num * Pow2(14);
    StoredIs(num, 0);
    WrappedOnce(num);
    SmallRoot(raw, q);
  }

  lemma SmallFits(raw: int)
    requires 0 < raw <= 1114
    ensures Fits(raw, 16)
  {
    WidePowers();
  }

  lemma SmallGap(raw: int, q: int)
    requires 0 < raw <= 1114 && FloorCubeRoot(raw * 8192, q) && raw * 8192 - Cube(q) >= 65536
    ensures FloorCubeRoot(raw * Pow2(2 * 14) / Pow2(3 * ((14 - 1) / 3 + 1)), q) && q >= 1
    ensures 0x8000_0000 <= raw * Pow2(2 * 14) - Cube(q) * Pow2(3 * ((14 - 1) / 3 + 1)) < 0x1_0000_0000
  {
    SixteenBitPowers();
    WidePowers();
    SmallRoot(raw, q);
    assert raw * 268435456 / 32768 == raw * 8192;
    hide Pow2;
  }

  lemma WrappedOnce(x: int)
    ensures 0x8000_0000 <= x < 0x1_0000_0000 ==> Stored(x, 32) < 0
  {
    WidePowers();
    hide Pow2;
  }

  /** Without a positive remainder the digits are zero to the end. */
  lemma {:induction false} StuckRound(d: Digits, wide: nat)
    requires wide > 0 && d.num < 0 && d.ofs >= 0 && d.res >= 1 && Fits(Share(2 * d.res, d.ofs), wide)
    ensures AllDigits(d, wide).res == d.res * Pow2(d.ofs / 3 + 1)
    decreases d.ofs
  {
    var r := 2 * d.res;
    SharePositive(r, d.ofs);
    StoredIs(r, wide);
    StoredIs(Share(r, d.ofs), wide);
    assert Pow2(d.ofs / 3 + 1) == 2 * Pow2(d.ofs / 3);
    assert Pow2(0) == 1;
    assert d.res * (2 * Pow2(d.ofs / 3)) == r * Pow2(d.ofs / 3);
    hide Share, Stored, Pow2;
    var e := Digits(d.num, r, d.ofs - 3);
    assert NextDigit(d, wide) == e;
    if d.ofs >= 3 {
      ShareFalls(r, 2 * r, e.ofs);
      SharePositive(2 * r, e.ofs);
      StuckRound(e, wide);
      assert e.ofs / 3 + 1 == d.ofs / 3;
    }
  }

  /** The root then lies below the right one. */
  lemma RootMissed(raw: int, q: int)
    requires 0 < raw && q >= 0 && q <= 208 && raw * 8192 - Cube(q) >= 65536
    ensures !FloorCubeRoot(raw * Pow2(28), 32 * q)
  {
    SixteenBitPowers();
    assert Cube(32) == 32768 && Cube(1) == 1;
    hide *;
    var x := 32 * q;
    CubeScale(q, 32);
    assert q * 32 == x;
    CubeSum(x, 1);
    MulMonotone(x, 6656, x);
    MulMonotone(x, 6656, 6656);
    assert 3 * x * x * 1 == 3 * (x * x) && 3 * x * 1 * 1 == 3 * x;
    FloorCubeRootIs(raw * Pow2(28), x);
  }

  lemma FloorCubeRootIs(n: int, r: int)
    ensures FloorCubeRoot(n, r) <==> r >= 0 && Cube(r) <= n < Cube(r + 1)
  {
    hide Cube;
  }

  lemma SmallShare(q: int)
    requires 1 <= q && (3 * (2 * q) * (2 * q + 1) + 1) * 4096 < 0x8000_0000
    ensures Fits(Share(2 * q, 12), 32) && Pow2(12 / 3 + 1) == 32
  {
    WidePowers();
    SixteenBitPowers();
    SharePositive(2 * q, 12);
    assert Pow2(4) == 16;
    hide Pow2;
  }

  lemma SmallRootFits(q: int)
    requires 0 <= q <= 208
    ensures Stored(32 * q, 16) == 32 * q
  {
    WidePowers();
    hide Pow2;
    StoredIs(32 * q, 16);
  }

  /** An argument, about 0.0256, with a wrong root. */
  lemma SixteenBitWrong()
    ensures !FloorCubeRoot(420 * Pow2(28), CbrtWords(420, 14, 16, 32))
  {
    assert Cube(150) == 3375000 && Cube(151) == 3442951;
    hide CbrtWords, Pow2;
    SixteenBitRight(420, 150);
  }

  lemma SixteenBitPowers()
    ensures Pow2(12) == 4096 && Pow2(14) == 16384 && Pow2(28) == 268435456
  {
    assert Pow2(4) == 16 && Pow2(7) == 128;
    hide Pow2;
    Pow2Add(4, 4);
    Pow2Add(8, 4);
    Pow2Add(7, 7);
    Pow2Add(14, 14);
  }
}
