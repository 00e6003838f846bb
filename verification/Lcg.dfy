/** Linear congruential generators modulo a power of two, started at 0: with a
    multiplier congruent to 1 modulo 4 and an odd increment, the period is full. */
module Lcg {
  import opened Integers
  import opened Permutations

  /** The j-th state of x := (a*x + c) mod m from x == 0. */
  function State(a: nat, c: nat, m: nat, j: nat): nat
    requires m > 0
  {
    if j == 0 then 0 else (a * State(a, c, m, j - 1) + c) % m
  }

  /** 1 + a + ... + a^(n-1) */
  ghost function Geometric(a: nat, n: nat): nat {
    if n == 0 then 0 else a * Geometric(a, n - 1) + 1
  }

  ghost function Power(a: nat, n: nat): nat {
    if n == 0 then 1 else a * Power(a, n - 1)
  }

  /** 2^k divides x, by halving. */
  ghost predicate Halves(k: nat, x: int) {
    k == 0 || (x % 2 == 0 && Halves(k - 1, x / 2))
  }

  lemma HalvesStep(n: int, x: int)
    requires n > 0
    ensures x % (2 * n) == 0 <==> x % 2 == 0 && (x / 2) % n == 0
  {
    if x % (2 * n) == 0 {
      var q := x / (2 * n);
      assert x == (2 * n) * q;
      assert x == 2 * (q * n);
      DivModUnique(x / 2, n, q, 0);
    }
    if x % 2 == 0 && (x / 2) % n == 0 {
      var q := x / 2 / n;
      assert x / 2 == n * q;
      assert x == q * (2 * n);
      DivModUnique(x, 2 * n, q, 0);
    }
  }

  lemma {:induction false} HalvesIsDivides(k: nat, x: int)
    ensures Halves(k, x) <==> x % Pow2(k) == 0
  {
    if k > 0 {
      HalvesIsDivides(k - 1, x / 2);
      HalvesStep(Pow2(k - 1), x);
    }
  }

  /** An odd factor does not help a power of two to divide. */
  lemma {:induction false} OddFactor(k: nat, b: int, x: int)
    requires b % 2 == 1 && Halves(k, b * x)
    ensures Halves(k, x)
  {
    if k > 0 {
      var y := x / 2;
      OddTimes(b, x);
      assert b * x == 2 * (b * y) by { assert x == 2 * y; }
      OddFactor(k - 1, b, y);
    }
  }

  lemma {:induction false} GeometricParity(a: nat, n: nat)
    requires a % 2 == 1
    ensures Geometric(a, n) % 2 == n % 2
  {
    if n > 0 {
      GeometricParity(a, n - 1);
      var g := Geometric(a, n - 1);
      var t := a * g;
      assert Geometric(a, n) == t + 1;
      hide *;
      OddTimes(a, g);
      ParitySucc(t, n - 1);
    }
  }

  lemma {:induction false} PowerMod4(a: nat, n: nat)
    requires a % 4 == 1
    ensures Power(a, n) % 4 == 1
  {
    if n > 0 {
      PowerMod4(a, n - 1);
      OneModFourTimes(a, Power(a, n - 1));
    }
  }

  lemma GeometricNext(a: nat, n: nat)
    ensures Geometric(a, 0) == 0 && Geometric(a, n + 1) == a * Geometric(a, n) + 1
    ensures Power(a, 0) == 1 && Power(a, n + 1) == a * Power(a, n)
  {
  }

  lemma SplitProduct(a: int, p: int, g: int, h: int)
    ensures a * (p * g + h) + 1 == (a * p) * g + (a * h + 1)
  {
  }

  /** Splitting a geometric sum after m terms. */
  lemma {:induction false} GeometricSplit(a: nat, m: nat, n: nat)
    ensures Geometric(a, m + n) == Power(a, m) * Geometric(a, n) + Geometric(a, m)
  {
    hide *;
    if m == 0 {
      GeometricNext(a, 0);
    } else {
      GeometricSplit(a, m - 1, n);
      GeometricNext(a, m - 1 + n);
      GeometricNext(a, m - 1);
      SplitProduct(a, Power(a, m - 1), Geometric(a, n), Geometric(a, m - 1));
    }
  }

  /** Doubling the number of terms multiplies the sum by 2 and an odd number. */
  lemma GeometricDoubles(a: nat, h: nat) returns (odd: int)
    requires a % 4 == 1
    ensures odd % 2 == 1 && Geometric(a, 2 * h) == 2 * (odd * Geometric(a, h))
  {
    GeometricSplit(a, h, h);
    PowerMod4(a, h);
    var p, g := Power(a, h), Geometric(a, h);
    hide *;
    HalfOfSuccessor(p, g);
    odd := (p + 1) / 2;
  }

  /** 2^k divides the geometric sum of n terms only when it divides n. */
  lemma {:induction false} GeometricValuation(a: nat, n: nat, k: nat)
    requires a % 4 == 1 && Halves(k, Geometric(a, n))
    ensures Halves(k, n)
  {
    if k > 0 {
      GeometricParity(a, n);
      var h := n / 2;
      var odd := GeometricDoubles(a, h);
      OddFactor(k - 1, odd, Geometric(a, h));
      GeometricValuation(a, h, k - 1);
    }
  }

  /** Closed form of the orbit. */
  lemma {:induction false} StateClosedForm(a: nat, c: nat, m: nat, j: nat)
    requires m > 0
    ensures State(a, c, m, j) == (c * Geometric(a, j)) % m
  {
    if j == 0 {
      DivModUnique(0, m, 0, 0);
    } else {
      StateClosedForm(a, c, m, j - 1);
      GeometricNext(a, j - 1);
      var g, s := Geometric(a, j - 1), State(a, c, m, j - 1);
      assert State(a, c, m, j) == (a * s + c) % m;
      hide *;
      Distributed(a, c, g);
      ReducedStep(a, c, m, c * g, s);
    }
  }

  lemma Distributed(a: int, c: int, g: int)
    ensures c * (a * g + 1) == a * (c * g) + c
  {
  }

  lemma ReducedStep(a: int, c: int, m: int, x: int, r: int)
    requires m > 0 && r == x % m
    ensures (a * r + c) % m == (a * x + c) % m
  {
    ModMul(x, a, m);
    ModAdd(a * r, c, m);
    ModAdd(a * x, c, m);
    assert a * r == r * a && a * x == x * a;
  }

  /** Equal states are a multiple of the modulus of steps apart. */
  lemma EqualStates(a: nat, c: nat, k: nat, i: nat, n: nat)
    requires a % 4 == 1 && c % 2 == 1
    requires State(a, c, Pow2(k), i) == State(a, c, Pow2(k), i + n)
    ensures n % Pow2(k) == 0
  {
    hide *;
    var m := Pow2(k);
    var p, g, gi, gj := Power(a, i), Geometric(a, n), Geometric(a, i), Geometric(a, i + n);
    StateClosedForm(a, c, m, i);
    StateClosedForm(a, c, m, i + n);
    GeometricSplit(a, i, n);
    ModEqualDifference(c * gj, c * gi, m);
    DifferenceOfProducts(c, p * g, gi);
    HalvesIsDivides(k, c * (p * g));
    OddFactor(k, c, p * g);
    PowerMod4(a, i);
    OddMod4(p);
    OddFactor(k, p, g);
    GeometricValuation(a, n, k);
    HalvesIsDivides(k, n);
  }

  /** No state repeats within one period. */
  lemma NoRepeat(a: nat, c: nat, k: nat, i: nat, j: nat)
    requires a % 4 == 1 && c % 2 == 1 && i < j < Pow2(k)
    ensures State(a, c, Pow2(k), i) != State(a, c, Pow2(k), j)
  {
    if State(a, c, Pow2(k), i) == State(a, c, Pow2(k), j) {
      EqualStates(a, c, k, i, j - i);
      DivModUnique(j - i, Pow2(k), 0, j - i);
    }
  }

  /** The first j states. */
  function States(a: nat, c: nat, m: nat, j: nat): (s: seq<int>)
    requires m > 0
    ensures |s| == j
  {
    seq(j, i requires 0 <= i => State(a, c, m, i))
  }

  /** The full-period theorem: the first 2^k states are the residues modulo 2^k, each once. */
  lemma FullPeriod(a: nat, c: nat, k: nat)
    requires a % 4 == 1 && c % 2 == 1
    ensures IsPermutation(States(a, c, Pow2(k), Pow2(k)), Pow2(k))
  {
    var m := Pow2(k);
    var s := States(a, c, m, m);
    forall i, j | 0 <= i < j < m ensures s[i] != s[j] {
      NoRepeat(a, c, k, i, j);
    }
    forall i | 0 <= i < m ensures 0 <= s[i] < m {
      if i == 0 { assert s[0] == 0; }
    }
    DistinctFills(s, m);
  }
}
