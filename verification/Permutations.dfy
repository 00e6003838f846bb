/** Counting: injective sequences into a finite range. */
module Permutations {

  ghost predicate InRange(s: seq<int>, n: nat) {
    forall i | 0 <= i < |s| :: 0 <= s[i] < n
  }

  ghost predicate Distinct<T>(s: seq<T>) {
    forall i, j | 0 <= i < j < |s| :: s[i] != s[j]
  }

  /** Every number below n occurs exactly once. */
  ghost predicate IsPermutation(s: seq<int>, n: nat) {
    |s| == n && InRange(s, n) && Distinct(s) && forall v | 0 <= v < n :: v in s
  }

  /** The numbers below n. */
  ghost function Below(n: nat): set<int> {
    set v {:trigger Number(v)} | Number(v) && 0 <= v < n
  }

  ghost predicate Number(v: int) { true }

  lemma {:induction false} BelowSize(n: nat)
    ensures |Below(n)| == n
  {
    if n > 0 {
      BelowSize(n - 1);
      assert Below(n) == Below(n - 1) + {n - 1};
    }
  }

  ghost function Elements(s: seq<int>): set<int> {
    set x | x in s
  }

  lemma {:induction false} DistinctSize(s: seq<int>)
    requires Distinct(s)
    ensures |Elements(s)| == |s|
  {
    if s != [] {
      var n := |s| - 1;
      DistinctSize(s[..n]);
      assert Elements(s) == Elements(s[..n]) + {s[n]} by {
        assert s == s[..n] + [s[n]];
      }
    }
  }

  lemma SubsetSize<T>(a: set<T>, b: set<T>)
    requires a <= b
    ensures |a| <= |b|
  {
    assert b == a + (b - a);
  }

  lemma EqualSizes<T>(a: set<T>, b: set<T>)
    requires a <= b && |a| == |b|
    ensures a == b
  {
    assert b == a + (b - a);
  }

  /** Pigeonhole: distinct numbers below n are at most n many. */
  lemma DistinctBelow(s: seq<int>, n: nat)
    requires Distinct(s) && InRange(s, n)
    ensures |s| <= n
  {
    DistinctSize(s);
    BelowSize(n);
    SubsetSize(Elements(s), Below(n));
  }

  /** n distinct numbers below n are all of them. */
  lemma DistinctFills(s: seq<int>, n: nat)
    requires Distinct(s) && InRange(s, n) && |s| == n
    ensures IsPermutation(s, n)
  {
    DistinctSize(s);
    BelowSize(n);
    EqualSizes(Elements(s), Below(n));
    forall v | 0 <= v < n ensures v in s {
      assert v in Below(n);
    }
  }

  /** Distinct numbers below n that leave none out are n many. */
  lemma CoverFills(s: seq<int>, n: nat)
    requires Distinct(s) && InRange(s, n) && forall v | 0 <= v < n :: v in s
    ensures IsPermutation(s, n)
  {
    DistinctSize(s);
    BelowSize(n);
    assert Elements(s) == Below(n);
  }
}
