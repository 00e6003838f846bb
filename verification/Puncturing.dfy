/** `PuncturingRule.cpp` and `PuncturingEncoder.cpp`: dropping bits of the mother code
    by patterns (section 11.1.2 of ETSI EN 300 401). */
module Puncturing {
  import opened Common
  import opened Bits

  // ----- Patterns as bits -----

  function Shr(x: bv32): bv32 { x >> 1 }

  function ShiftedRight(x: bv32, n: nat): bv32 {
    if n == 0 then x else Shr(ShiftedRight(x, n - 1))
  }

  /** The n pattern bits from the mask downwards. */
  function PatternBits(pattern: bv32, mask: bv32, n: nat): (r: seq<bool>)
    ensures |r| == n
    decreases n
  {
    if n == 0 then [] else [Tested(pattern, mask)] + PatternBits(pattern, Shr(mask), n - 1)
  }

  /** A rule's pattern, most significant bit first. */
  function PatternWord(pattern: bv32): (r: seq<bool>)
    ensures |r| == 32
  {
    PatternBits(pattern, 0x8000_0000, 32)
  }

  function Count(p: seq<bool>): nat {
    if p == [] then 0 else Count(p[..|p| - 1]) + if p[|p| - 1] then 1 else 0
  }

  /** The bits of a that the pattern keeps, in order. */
  function Selected(a: seq<bool>, p: seq<bool>): (r: seq<bool>)
    requires |a| == |p|
    ensures |r| == Count(p)
  {
    if p == [] then []
    else
      var n := |p| - 1;
      Selected(a[..n], p[..n]) + if p[n] then [a[n]] else []
  }

  lemma {:induction false} SelectedAppend(a: seq<bool>, p: seq<bool>, b: seq<bool>, q: seq<bool>)
    requires |a| == |p| && |b| == |q|
    ensures Selected(a + b, p + q) == Selected(a, p) + Selected(b, q)
    decreases |q|
  {
    if q == [] {
      assert a + b == a && p + q == p;
    } else {
      var n := |q| - 1;
      var x := if q[n] then [b[n]] else [];
      SelectedAppend(a, p, b[..n], q[..n]);
      SelectedLast(b, q);
      SelectedLast(a + b, p + q);
      hide Selected, Count;
      assert (a + b)[..|a| + n] == a + b[..n] && (p + q)[..|p| + n] == p + q[..n];
      var s, t := Selected(a, p), Selected(b[..n], q[..n]);
      assert (s + t) + x == s + (t + x);
    }
  }

  lemma SelectedLast(a: seq<bool>, p: seq<bool>)
    requires |a| == |p| > 0
    ensures var n := |p| - 1; Selected(a, p) == Selected(a[..n], p[..n]) + if p[n] then [a[n]] else []
  {
  }

  lemma {:induction false} CountAppend(p: seq<bool>, q: seq<bool>)
    ensures Count(p + q) == Count(p) + Count(q)
    decreases |q|
  {
    if q == [] {
      assert p + q == p;
    } else {
      var n := |q| - 1;
      assert (p + q)[..|p| + n] == p + q[..n];
      CountAppend(p, q[..n]);
    }
  }

  lemma {:induction false} PatternSplit(pattern: bv32, mask: bv32, m: nat, n: nat)
    ensures PatternBits(pattern, mask, m + n) == PatternBits(pattern, mask, m) + PatternBits(pattern, ShiftedRight(mask, m), n)
    decreases m
  {
    hide Tested, Shr;
    if m > 0 {
      PatternSplit(pattern, Shr(mask), m - 1, n);
      ShiftFirst(mask, m - 1);
    }
  }

  lemma {:induction false} ShiftFirst(x: bv32, n: nat)
    ensures ShiftedRight(Shr(x), n) == ShiftedRight(x, n + 1)
    decreases n
  {
    hide Shr;
    if n > 0 {
      ShiftFirst(x, n - 1);
    }
  }

  lemma {:induction false} ShiftAdd(x: bv32, m: nat, n: nat)
    ensures ShiftedRight(x, m + n) == ShiftedRight(ShiftedRight(x, m), n)
    decreases n
  {
    hide Shr;
    if n > 0 {
      ShiftAdd(x, m, n - 1);
    }
  }

  lemma EightShrs(x: bv32)
    ensures Shr(Shr(Shr(Shr(Shr(Shr(Shr(Shr(x)))))))) == x >> 8
  {
  }

  lemma ShiftEight(x: bv32)
    ensures ShiftedRight(x, 8) == x >> 8
  {
    EightShrs(x);
    hide Shr;
    assert ShiftedRight(x, 1) == Shr(ShiftedRight(x, 0)) == Shr(x);
    assert ShiftedRight(x, 2) == Shr(ShiftedRight(x, 1));
    assert ShiftedRight(x, 4) == Shr(Shr(ShiftedRight(x, 2)));
    assert ShiftedRight(x, 6) == Shr(Shr(ShiftedRight(x, 4)));
    assert ShiftedRight(x, 8) == Shr(Shr(ShiftedRight(x, 6)));
  }

  lemma MaskGone()
    ensures ShiftedRight(0x8000_0000, 32) == 0
  {
    ShiftEight(0x8000_0000);
    ShiftEight(0x0080_0000);
    ShiftEight(0x0000_8000);
    ShiftEight(0x0000_0080);
    hide ShiftedRight;
    ShiftAdd(0x8000_0000, 8, 8);
    ShiftAdd(0x8000_0000, 16, 8);
    ShiftAdd(0x8000_0000, 24, 8);
  }

  lemma {:induction false} NothingTested(pattern: bv32, n: nat)
    ensures Count(PatternBits(pattern, 0, n)) == 0
    decreases n
  {
    if n > 0 {
      NothingTested(pattern, n - 1);
      CountAppend([Tested(pattern, 0)], PatternBits(pattern, 0, n - 1));
      assert [Tested(pattern, 0)][..0] == [];
    }
  }

  lemma FirstCounted(pattern: bv32, mask: bv32, n: nat)
    requires n > 0
    ensures Count(PatternBits(pattern, mask, n))
         == (if Tested(pattern, mask) then 1 else 0) + Count(PatternBits(pattern, Shr(mask), n - 1))
  {
    var b := Tested(pattern, mask);
    hide Tested, Shr;
    CountAppend([b], PatternBits(pattern, Shr(mask), n - 1));
    assert [b][..0] == [] && Count([b]) == if b then 1 else 0;
  }

  /** A rule's pattern is read from its most significant bit down. */
  lemma PatternFromTop(pattern: bv32)
    ensures PatternWord(pattern)[0] <==> pattern >= 0x8000_0000
    ensures PatternWord(pattern)[1..] == PatternWord(pattern << 1)[..31]
  {
    hide *;
    RawTopTested(pattern);
    PatternWordIs(pattern);
    PatternWordIs(pattern << 1);
    PatternSplit(pattern << 1, 0x8000_0000, 31, 1);
    PatternShifted(pattern, 0x8000_0000, 31);
    FirstBit(pattern, 0x8000_0000, 31);
  }

  lemma FirstBit(pattern: bv32, mask: bv32, n: nat)
    ensures PatternBits(pattern, mask, n + 1) == [Tested(pattern, mask)] + PatternBits(pattern, Shr(mask), n)
  {
    hide Tested, Shr;
  }

  lemma RawTopTested(x: bv32)
    ensures Tested(x, 0x8000_0000) <==> x >= 0x8000_0000
  {
  }

  lemma {:induction false} PatternShifted(pattern: bv32, mask: bv32, n: nat)
    ensures PatternBits(pattern << 1, mask, n) == PatternBits(pattern, Shr(mask), n)
    decreases n
  {
    if n > 0 {
      RawTestedShift(pattern, mask);
      PatternShifted(pattern, Shr(mask), n - 1);
      hide Tested, Shr;
    }
  }

  lemma RawTestedShift(x: bv32, mask: bv32)
    ensures Tested(x << 1, mask) == Tested(x, Shr(mask))
  {
  }

  datatype Rule = Rule(length: nat, pattern: bv32)

  /** PuncturingRule::bit_size */
  method BitSize(rule: Rule) returns (bits: nat)
    ensures bits == Count(PatternWord(rule.pattern))
  {
    hide *;
    MaskGone();
    PatternWordIs(rule.pattern);
    bits := CountFrom(rule.pattern, 0x8000_0000);
  }

  /** The loop over the mask. */
  method CountFrom(pattern: bv32, start: bv32) returns (bits: nat)
    requires ShiftedRight(start, 32) == 0
    ensures bits == Count(PatternBits(pattern, start, 32))
  {
    hide *;
    bits := 0;
    var mask := start;
    ghost var n := 0;
    NoShift(mask);
    while mask != 0
      invariant n <= 32 && mask == ShiftedRight(start, n)
      invariant bits + Count(PatternBits(pattern, mask, 32 - n)) == Count(PatternBits(pattern, start, 32))
      decreases 32 - n
    {
      FirstCounted(pattern, mask, 32 - n);
      ShiftAdd(start, n, 1);
      OneShift(mask);
      if Tested(pattern, mask) {
        bits := bits + 1;
      }
      mask := Shr(mask);
      n := n + 1;
    }
    NothingTested(pattern, 32 - n);
  }

  lemma PatternWordIs(pattern: bv32)
    ensures PatternWord(pattern) == PatternBits(pattern, 0x8000_0000, 32)
  {
    hide PatternBits;
  }

  lemma NoShift(x: bv32)
    ensures ShiftedRight(x, 0) == x
  {
  }

  lemma OneShift(x: bv32)
    ensures ShiftedRight(x, 1) == Shr(x)
  {
    assert ShiftedRight(x, 0) == x;
  }

  // ----- Bits into an output buffer that holds anything -----

  /** The place of the next bit: out_count and bit_count. */
  datatype Cursor = Cursor(byte: nat, bit: nat)

  /** The bits written so far are in place; the rest of the buffer is unknown. */
  ghost predicate Written(bytes: seq<bv8>, c: Cursor, bits: seq<bool>) {
    && c.byte <= |bytes| && c.bit < 8 && |bits| == 8 * c.byte + c.bit
    && BitsOfAll(bytes[..c.byte]) == bits[..8 * c.byte]
    && (c.bit > 0 ==> c.byte < |bytes| && BitsOf(bytes[c.byte])[8 - c.bit..] == bits[8 * c.byte..])
  }

  function Advanced(c: Cursor): Cursor {
    if c.bit == 7 then Cursor(c.byte + 1, 0) else Cursor(c.byte, c.bit + 1)
  }

  lemma BitWritten(bytes: seq<bv8>, c: Cursor, bits: seq<bool>, b: bool)
    requires Written(bytes, c, bits) && c.byte < |bytes|
    ensures Written(bytes[c.byte := Push(bytes[c.byte], b)], Advanced(c), bits + [b])
  {
    hide Push, BitsOf, BitsOfAll;
    var x, n := bytes[c.byte], 8 * c.byte;
    var y := Push(x, b);
    var next := bytes[c.byte := y];
    PushShifts(x, b);
    LastShifted(BitsOf(x), b, c.bit);
    Longer(bits, b, n);
    assert next[..c.byte] == bytes[..c.byte];
    if c.bit == 0 {
      assert bits[n..] == [];
      assert BitsOf(x)[8..] == [];
    }
    assert BitsOf(y)[7 - c.bit..] == (bits + [b])[n..];
    if c.bit == 7 {
      ByteFull(next, c.byte, bits + [b]);
    }
  }

  lemma LastShifted(s: seq<bool>, b: bool, m: nat)
    requires |s| == 8 && m < 8
    ensures (s[1..] + [b])[7 - m..] == s[8 - m..] + [b]
  {
  }

  lemma Longer(bits: seq<bool>, b: bool, n: nat)
    requires n <= |bits|
    ensures (bits + [b])[..n] == bits[..n] && (bits + [b])[n..] == bits[n..] + [b]
  {
  }

  lemma ByteFull(bytes: seq<bv8>, n: nat, bits: seq<bool>)
    requires n < |bytes| && |bits| == 8 * n + 8
    requires BitsOfAll(bytes[..n]) == bits[..8 * n] && BitsOf(bytes[n])[0..] == bits[8 * n..]
    ensures BitsOfAll(bytes[..n + 1]) == bits
  {
    hide BitsOf, BitsOfAll;
    assert bytes[..n + 1] == bytes[..n] + [bytes[n]];
    BitsOfAllAppend(bytes[..n], [bytes[n]]);
    BitsOfOne(bytes[n]);
    assert bits == bits[..8 * n] + bits[8 * n..];
  }

  method PutBit(out: array<bv8>, c0: Cursor, b: bool, ghost bits: seq<bool>) returns (c: Cursor)
    requires Written(out[..], c0, bits) && |bits| < 8 * out.Length
    modifies out
    ensures Written(out[..], c, bits + [b])
  {
    hide Push;
    BitWritten(out[..], c0, bits, b);
    ghost var was := out[..];
    out[c0.byte] := Push(out[c0.byte], b);
    assert out[..] == was[c0.byte := Push(was[c0.byte], b)];
    c := Advanced(c0);
  }

  // ----- Selecting -----

  lemma SelectOne(a: seq<bool>, p: seq<bool>, j: nat)
    requires j < |a| == |p|
    ensures Selected(a[..j + 1], p[..j + 1]) == Selected(a[..j], p[..j]) + (if p[j] then [a[j]] else [])
  {
    assert a[..j + 1][..j] == a[..j] && p[..j + 1][..j] == p[..j];
  }

  lemma {:induction false} CountGrows(p: seq<bool>, j: nat)
    requires j <= |p|
    ensures Count(p[..j]) <= Count(p)
    decreases |p|
  {
    if j < |p| {
      var n := |p| - 1;
      CountGrows(p[..n], j);
      assert p[..n][..j] == p[..j];
    } else {
      assert p[..j] == p;
    }
  }

  lemma {:induction false} PatternBitAt(pattern: bv32, mask: bv32, n: nat, j: nat)
    requires j < n
    ensures PatternBits(pattern, mask, n)[j] == Tested(pattern, ShiftedRight(mask, j))
    decreases n
  {
    hide Tested, Shr;
    NoShift(mask);
    if j > 0 {
      PatternBitAt(pattern, Shr(mask), n - 1, j - 1);
      ShiftFirst(mask, j - 1);
    }
  }

  /** Room for the j-th of the bits that are selected from one byte. */
  lemma Room(bits: seq<bool>, a: seq<bool>, p: seq<bool>, j: nat, size: nat)
    requires j < |a| == |p| && |bits| + Count(p) <= size
    ensures |bits + Selected(a[..j], p[..j])| <= size
    ensures p[j] ==> |bits + Selected(a[..j], p[..j])| < size
  {
    CountGrows(p, j);
    CountGrows(p, j + 1);
    assert p[..j + 1][..j] == p[..j];
  }

  lemma TopBit(x: bv8, j: nat)
    requires j < 8
    ensures TestBit(ShiftedLeft(x, j), 0x80) == BitsOf(x)[j]
    ensures ShiftedLeft(x, j + 1) == ShiftedLeft(x, j) << 1 && ShiftedLeft(x, 0) == x
  {
    TopAfterShifts(x, j);
  }

  lemma NoneSelected(a: seq<bool>, p: seq<bool>)
    requires a == [] && p == []
    ensures Selected(a, p) == []
  {
  }

  /** The inner loop: the selected bits of one input byte. */
  method PutByte(out: array<bv8>, c0: Cursor, x: bv8, pattern: bv32, mask0: bv32, ghost bits: seq<bool>)
    returns (c: Cursor, mask: bv32)
    requires Written(out[..], c0, bits) && |bits| + Count(PatternBits(pattern, mask0, 8)) <= 8 * out.Length
    modifies out
    ensures Written(out[..], c, bits + Selected(BitsOf(x), PatternBits(pattern, mask0, 8)))
    ensures mask == ShiftedRight(mask0, 8)
  {
    hide *;
    ghost var a, p := BitsOf(x), PatternBits(pattern, mask0, 8);
    c, mask := c0, mask0;
    var data := x;
    NoShift(mask0);
    TopBit(x, 0);
    NoneSelected(a[..0], p[..0]);
    assert bits + [] == bits;
    for j := 0 to 8
      invariant Written(out[..], c, bits + Selected(a[..j], p[..j]))
      invariant data == ShiftedLeft(x, j) && mask == ShiftedRight(mask0, j)
    {
      ghost var sofar := Selected(a[..j], p[..j]);
      TopBit(x, j);
      PatternBitAt(pattern, mask0, 8, j);
      SelectOne(a, p, j);
      Room(bits, a, p, j, 8 * out.Length);
      ShiftAdd(mask0, j, 1);
      OneShift(mask);
      if Tested(pattern, mask) {
        c := PutBit(out, c, TestBit(data, 0x80), bits + sofar);
        assert (bits + sofar) + [a[j]] == bits + (sofar + [a[j]]);
      } else {
        assert sofar + [] == sofar;
      }
      data := data << 1;
      mask := Shr(mask);
    }
    assert a[..8] == a && p[..8] == p;
  }

  lemma {:induction false} PatternOfBytes(pattern: bv32, mask: bv32, n: nat)
    ensures PatternBits(pattern, mask, 8 * (n + 1))
         == PatternBits(pattern, mask, 8 * n) + PatternBits(pattern, ShiftedRight(mask, 8 * n), 8)
  {
    hide PatternBits, ShiftedRight;
    PatternSplit(pattern, mask, 8 * n, 8);
  }

  lemma PatternPrefix(pattern: bv32, mask: bv32, n: nat, total: nat)
    requires n <= total
    ensures Count(PatternBits(pattern, mask, 8 * n)) <= Count(PatternBits(pattern, mask, 8 * total))
  {
    hide PatternBits, ShiftedRight, Count;
    PatternSplit(pattern, mask, 8 * n, 8 * (total - n));
    assert 8 * n + 8 * (total - n) == 8 * total;
    CountAppend(PatternBits(pattern, mask, 8 * n), PatternBits(pattern, ShiftedRight(mask, 8 * n), 8 * (total - n)));
  }

  /** Input bytes from..from + n under one pattern that starts at the mask. */
  method PutBytes(out: array<bv8>, c0: Cursor, dataIn: seq<bv8>, from: nat, n: nat, pattern: bv32, mask0: bv32,
                  ghost bits: seq<bool>)
    returns (c: Cursor)
    requires from + n <= |dataIn|
    requires Written(out[..], c0, bits) && |bits| + Count(PatternBits(pattern, mask0, 8 * n)) <= 8 * out.Length
    modifies out
    ensures |BitsOfAll(dataIn[from..from + n])| == 8 * n
    ensures Written(out[..], c, bits + Selected(BitsOfAll(dataIn[from..from + n]), PatternBits(pattern, mask0, 8 * n)))
  {
    hide *;
    c := c0;
    var mask := mask0;
    NoShift(mask0);
    NothingSelected(dataIn[from..from], PatternBits(pattern, mask0, 0), bits);
    for i := 0 to n
      invariant mask == ShiftedRight(mask0, 8 * i)
      invariant |BitsOfAll(dataIn[from..from + i])| == 8 * i
      invariant Written(out[..], c, bits + Selected(BitsOfAll(dataIn[from..from + i]), PatternBits(pattern, mask0, 8 * i)))
    {
      ghost var a, p := BitsOfAll(dataIn[from..from + i]), PatternBits(pattern, mask0, 8 * i);
      ghost var b, q := BitsOf(dataIn[from + i]), PatternBits(pattern, mask, 8);
      PatternOfBytes(pattern, mask0, i);
      PatternPrefix(pattern, mask0, i + 1, n);
      CountAppend(p, q);
      SelectedAppend(a, p, b, q);
      BytesGrow(dataIn, from, i);
      ShiftAdd(mask0, 8 * i, 8);
      assert |bits + Selected(a, p)| == |bits| + Count(p);
      c, mask := PutByte(out, c, dataIn[from + i], pattern, mask, bits + Selected(a, p));
      assert (bits + Selected(a, p)) + Selected(b, q) == bits + (Selected(a, p) + Selected(b, q));
    }
  }

  lemma NothingSelected(bytes: seq<bv8>, p: seq<bool>, bits: seq<bool>)
    requires bytes == [] && p == []
    ensures BitsOfAll(bytes) == [] && bits + Selected(BitsOfAll(bytes), p) == bits
  {
  }

  lemma BytesGrow(dataIn: seq<bv8>, from: nat, i: nat)
    requires from + i < |dataIn|
    ensures BitsOfAll(dataIn[from..from + i + 1]) == BitsOfAll(dataIn[from..from + i]) + BitsOf(dataIn[from + i])
  {
    hide *;
    assert dataIn[from..from + i + 1] == dataIn[from..from + i] + [dataIn[from + i]];
    BitsOfAllAppend(dataIn[from..from + i], [dataIn[from + i]]);
    BitsOfOne(dataIn[from + i]);
  }

  // ----- The pattern of a whole block -----

  function Repeated(pattern: bv32, k: nat): (r: seq<bool>)
    ensures |r| == 32 * k
  {
    if k == 0 then [] else Repeated(pattern, k - 1) + PatternWord(pattern)
  }

  function TotalLength(rules: seq<Rule>): nat {
    if rules == [] then 0 else TotalLength(rules[..|rules| - 1]) + rules[|rules| - 1].length
  }

  /** The source's loops step through a rule four bytes at a time. */
  predicate WholeGroups(rules: seq<Rule>) {
    forall r | r in rules :: r.length % 4 == 0
  }

  function RulesPattern(rules: seq<Rule>): (r: seq<bool>)
    requires WholeGroups(rules)
    ensures |r| == 8 * TotalLength(rules)
  {
    if rules == [] then []
    else
      var last := rules[|rules| - 1];
      RulesPattern(rules[..|rules| - 1]) + Repeated(last.pattern, last.length / 4)
  }

  /** A tail pattern has 24 bits; bytes past the third are dropped. */
  function TailPattern(tail: Rule): (r: seq<bool>)
    ensures |r| == 8 * tail.length
  {
    PatternBits(tail.pattern, 0x0080_0000, 8 * tail.length)
  }

  lemma MaskStarts()
    ensures ShiftedRight(0x8000_0000, 8) == 0x0080_0000 && ShiftedRight(0x0080_0000, 24) == 0
  {
    ShiftEight(0x8000_0000);
    ShiftEight(0x0080_0000);
    ShiftEight(0x0000_8000);
    ShiftEight(0x0000_0080);
    hide ShiftedRight;
    ShiftAdd(0x0080_0000, 8, 8);
    ShiftAdd(0x0080_0000, 16, 8);
  }

  /** The declared size of a tail rule covers the bits that it keeps. */
  lemma TailFits(tail: Rule)
    ensures Count(TailPattern(tail)) <= Count(PatternWord(tail.pattern))
  {
    hide *;
    var p := tail.pattern;
    MaskStarts();
    PatternWordIs(p);
    TailIs(tail);
    PatternSplit(p, 0x8000_0000, 8, 24);
    CountAppend(PatternBits(p, 0x8000_0000, 8), PatternBits(p, 0x0080_0000, 24));
    if tail.length <= 3 {
      PatternPrefix(p, 0x0080_0000, tail.length, 3);
    } else {
      var more := 8 * tail.length - 24;
      PatternSplit(p, 0x0080_0000, 24, more);
      CountAppend(PatternBits(p, 0x0080_0000, 24), PatternBits(p, 0, more));
      NothingTested(p, more);
    }
  }

  lemma TailIs(tail: Rule)
    ensures TailPattern(tail) == PatternBits(tail.pattern, 0x0080_0000, 8 * tail.length)
  {
    hide PatternBits;
  }

  lemma RulesGrow(rules: seq<Rule>, k: nat)
    requires k < |rules| && WholeGroups(rules)
    ensures WholeGroups(rules[..k]) && WholeGroups(rules[..k + 1]) && rules[k].length % 4 == 0
    ensures RulesPattern(rules[..k + 1]) == RulesPattern(rules[..k]) + Repeated(rules[k].pattern, rules[k].length / 4)
    ensures TotalLength(rules[..k + 1]) == TotalLength(rules[..k]) + rules[k].length
  {
    hide Repeated;
    assert rules[k] in rules;
    assert forall r | r in rules[..k] :: r in rules;
    assert forall r | r in rules[..k + 1] :: r in rules;
    assert rules[..k + 1][..k] == rules[..k];
  }

  lemma {:induction false} TotalMonotone(rules: seq<Rule>, k: nat)
    requires k <= |rules|
    ensures TotalLength(rules[..k]) <= TotalLength(rules)
    decreases |rules|
  {
    if k < |rules| {
      var n := |rules| - 1;
      TotalMonotone(rules[..n], k);
      assert rules[..n][..k] == rules[..k];
    } else {
      assert rules[..k] == rules;
    }
  }

  lemma {:induction false} RepeatedCount(pattern: bv32, k: nat)
    ensures Count(Repeated(pattern, k)) == k * Count(PatternWord(pattern))
    decreases k
  {
    hide PatternWord, Count;
    if k == 0 {
      CountNone();
    } else {
      RepeatedCount(pattern, k - 1);
      CountAppend(Repeated(pattern, k - 1), PatternWord(pattern));
      var w := Count(PatternWord(pattern));
      assert (k - 1) * w + w == k * w;
    }
  }

  lemma CountNone()
    ensures Count([]) == 0
  {
  }

  lemma {:induction false} PatternMonotone(rules: seq<Rule>, k: nat)
    requires WholeGroups(rules) && k <= |rules|
    ensures WholeGroups(rules[..k])
    ensures Count(RulesPattern(rules[..k])) <= Count(RulesPattern(rules))
    decreases |rules| - k
  {
    hide Repeated, Count;
    assert forall r | r in rules[..k] :: r in rules;
    if k < |rules| {
      RulesGrow(rules, k);
      PatternMonotone(rules, k + 1);
      CountAppend(RulesPattern(rules[..k]), Repeated(rules[k].pattern, rules[k].length / 4));
    } else {
      assert rules[..k] == rules;
    }
  }

  // ----- The encoder -----

  datatype Outcome = WrongUnits | WrongInputSize | Done(size: nat)

  function InSize(rules: seq<Rule>, tail: Option<Rule>): nat {
    TotalLength(rules) + if tail.Some? then tail.value.length else 0
  }

  /** The bytes that hold all bits the patterns can keep. */
  function OutSize(rules: seq<Rule>, tail: Option<Rule>): nat
    requires WholeGroups(rules)
  {
    (Count(RulesPattern(rules)) + (if tail.Some? then Count(PatternWord(tail.value.pattern)) else 0) + 7) / 8
  }

  /** The bits kept of a whole block. */
  function Punctured(rules: seq<Rule>, tail: Option<Rule>, dataIn: seq<bv8>): seq<bool>
    requires WholeGroups(rules) && |dataIn| == InSize(rules, tail)
  {
    BitsOfAllLength(dataIn);
    Selected(BitsOfAll(dataIn), RulesPattern(rules) + if tail.Some? then TailPattern(tail.value) else [])
  }

  /** One rule's share in adjust_item_size. */
  method CountRule(rule: Rule) returns (bits: nat, taken: nat)
    requires rule.length % 4 == 0
    ensures bits == rule.length / 4 * Count(PatternWord(rule.pattern)) && taken == rule.length
  {
    hide Count, PatternWord;
    bits, taken := 0, 0;
    var length: int := rule.length;
    ghost var groups, size := 0, Count(PatternWord(rule.pattern));
    while length > 0
      invariant length % 4 == 0 && 0 <= length <= rule.length && groups == (rule.length - length) / 4
      invariant bits == groups * size && taken == rule.length - length
    {
      var b := BitSize(rule);
      assert (groups + 1) * size == groups * size + size;
      bits := bits + b;
      taken := taken + 4;
      length := length - 4;
      groups := groups + 1;
    }
  }

  lemma RepeatedNext(pattern: bv32, k: nat)
    ensures Repeated(pattern, 0) == []
    ensures Repeated(pattern, k + 1) == Repeated(pattern, k) + PatternBits(pattern, 0x8000_0000, 32)
  {
    PatternWordIs(pattern);
    hide PatternWord, PatternBits;
  }

  lemma {:induction false} RepeatedMonotone(pattern: bv32, k: nat, n: nat)
    requires k <= n
    ensures Count(Repeated(pattern, k)) <= Count(Repeated(pattern, n))
    decreases n - k
  {
    hide PatternWord, Count;
    if k < n {
      CountAppend(Repeated(pattern, k), PatternWord(pattern));
      RepeatedMonotone(pattern, k + 1, n);
    }
  }

  /** All groups of four bytes under one rule. */
  method PutRule(out: array<bv8>, c0: Cursor, dataIn: seq<bv8>, from: nat, rule: Rule, ghost bits: seq<bool>)
    returns (c: Cursor)
    requires rule.length % 4 == 0 && from + rule.length <= |dataIn| && Written(out[..], c0, bits)
    requires |bits| + Count(Repeated(rule.pattern, rule.length / 4)) <= 8 * out.Length
    modifies out
    ensures |BitsOfAll(dataIn[from..from + rule.length])| == 8 * rule.length
    ensures Written(out[..], c, bits + Selected(BitsOfAll(dataIn[from..from + rule.length]),
                                                Repeated(rule.pattern, rule.length / 4)))
  {
    hide *;
    c := c0;
    var length, inCount := rule.length, from;
    ghost var k, n := 0, rule.length / 4;
    RepeatedNext(rule.pattern, 0);
    NothingSelected(dataIn[from..from], Repeated(rule.pattern, 0), bits);
    while length > 0
      invariant 0 <= length && k <= n && length == 4 * (n - k) && inCount == from + 4 * k
      invariant |BitsOfAll(dataIn[from..inCount])| == 32 * k
      invariant Written(out[..], c, bits + Selected(BitsOfAll(dataIn[from..inCount]), Repeated(rule.pattern, k)))
      decreases length
    {
      ghost var a, p := BitsOfAll(dataIn[from..inCount]), Repeated(rule.pattern, k);
      ghost var b, q := BitsOfAll(dataIn[inCount..inCount + 4]), PatternBits(rule.pattern, 0x8000_0000, 8 * 4);
      RepeatedNext(rule.pattern, k);
      RepeatedMonotone(rule.pattern, k + 1, n);
      CountAppend(p, q);
      assert |bits + Selected(a, p)| == |bits| + Count(p);
      c := PutBytes(out, c, dataIn, inCount, 4, rule.pattern, 0x8000_0000, bits + Selected(a, p));
      SelectedAppend(a, p, b, q);
      BytesJoin(dataIn, from, inCount, inCount + 4);
      assert (bits + Selected(a, p)) + Selected(b, q) == bits + (Selected(a, p) + Selected(b, q));
      inCount := inCount + 4;
      length := length - 4;
      k := k + 1;
    }
  }

  lemma BytesJoin(dataIn: seq<bv8>, from: nat, mid: nat, to: nat)
    requires from <= mid <= to <= |dataIn|
    ensures BitsOfAll(dataIn[from..to]) == BitsOfAll(dataIn[from..mid]) + BitsOfAll(dataIn[mid..to])
  {
    hide *;
    assert dataIn[from..to] == dataIn[from..mid] + dataIn[mid..to];
    BitsOfAllAppend(dataIn[from..mid], dataIn[mid..to]);
  }

  lemma RulesNone(rules: seq<Rule>, bytes: seq<bv8>)
    requires rules == [] && bytes == []
    ensures WholeGroups(rules) && RulesPattern(rules) == [] && TotalLength(rules) == 0
    ensures BitsOfAll(bytes) == [] && Selected([], []) == []
  {
  }

  /** The loop over the rules, which starts again after the last one. */
  method PutRules(rules: seq<Rule>, dataIn: seq<bv8>, size: nat, out: array<bv8>) returns (c: Cursor)
    requires WholeGroups(rules) && size == TotalLength(rules) <= |dataIn|
    requires Count(RulesPattern(rules)) <= 8 * out.Length
    modifies out
    ensures |BitsOfAll(dataIn[..size])| == 8 * size
    ensures Written(out[..], c, Selected(BitsOfAll(dataIn[..size]), RulesPattern(rules)))
  {
    hide *;
    c := Cursor(0, 0);
    var inCount, index := 0, 0;
    ghost var k := 0;
    RulesNone(rules[..0], dataIn[..0]);
    StartWritten(out[..], []);
    while inCount < size
      invariant k <= |rules| && index == (if k == |rules| then 0 else k)
      invariant WholeGroups(rules[..k]) && inCount == TotalLength(rules[..k]) <= size
      invariant |BitsOfAll(dataIn[..inCount])| == 8 * inCount
      invariant Written(out[..], c, Selected(BitsOfAll(dataIn[..inCount]), RulesPattern(rules[..k])))
      decreases |rules| - k
    {
      assert rules[..|rules|] == rules;
      assert k < |rules|;
      var rule := rules[index];
      ghost var a, p := BitsOfAll(dataIn[..inCount]), RulesPattern(rules[..k]);
      RulesGrow(rules, k);
      TotalMonotone(rules, k + 1);
      ghost var b, q := BitsOfAll(dataIn[inCount..inCount + rule.length]), Repeated(rule.pattern, rule.length / 4);
      PatternMonotone(rules, k + 1);
      CountAppend(p, q);
      c := PutRule(out, c, dataIn, inCount, rule, Selected(a, p));
      SelectedAppend(a, p, b, q);
      BytesJoin(dataIn, 0, inCount, inCount + rule.length);
      assert dataIn[0..inCount] == dataIn[..inCount];
      assert dataIn[0..inCount + rule.length] == dataIn[..inCount + rule.length];
      inCount := inCount + rule.length;
      index := index + 1;
      k := k + 1;
      if index == |rules| {
        index := 0;
      }
    }
    RulesDone(rules, k);
  }

  lemma RulesDone(rules: seq<Rule>, k: nat)
    requires k <= |rules| && WholeGroups(rules) && WholeGroups(rules[..k])
    requires TotalLength(rules[..k]) == TotalLength(rules)
    ensures RulesPattern(rules[..k]) == RulesPattern(rules)
    decreases |rules| - k
  {
    hide Repeated;
    if k < |rules| {
      RulesGrow(rules, k);
      TotalMonotone(rules, k + 1);
      assert Repeated(rules[k].pattern, 0) == [];
      RulesDone(rules, k + 1);
    } else {
      assert rules[..k] == rules;
    }
  }

  lemma StartWritten(bytes: seq<bv8>, bits: seq<bool>)
    requires bits == []
    ensures Written(bytes, Cursor(0, 0), bits)
  {
    assert BitsOfAll(bytes[..0]) == [];
  }

  /** Zero bits to the end of the byte, then zero bytes. */
  method PadToEnd(out: array<bv8>, c0: Cursor, ghost bits: seq<bool>)
    requires Written(out[..], c0, bits) && |bits| <= 8 * out.Length
    modifies out
    ensures BitsOfAll(out[..]) == bits + Zeros(8 * out.Length - |bits|)
  {
    hide BitsOf, BitsOfAll, Push;
    var c := c0;
    ghost var all := bits;
    assert all == bits + Zeros(|all| - |bits|);
    while c.bit != 0
      invariant Written(out[..], c, all) && |bits| <= |all| <= 8 * out.Length && all == bits + Zeros(|all| - |bits|)
      decreases 8 * out.Length - |all|
    {
      c := PutBit(out, c, false, all);
      assert all + [false] == bits + Zeros(|all| + 1 - |bits|);
      all := all + [false];
    }
    assert all[..8 * c.byte] == all;
    for i := c.byte to out.Length
      invariant BitsOfAll(out[..i]) == bits + Zeros(8 * i - |bits|)
    {
      ghost var before := out[..i];
      out[i] := 0;
      assert out[..i + 1] == before + [0];
      ZeroByte(before);
      assert Zeros(8 * i - |bits|) + Zeros(8) == Zeros(8 * (i + 1) - |bits|);
    }
    assert out[..out.Length] == out[..];
  }

  lemma ZeroByte(bytes: seq<bv8>)
    ensures BitsOfAll(bytes + [0]) == BitsOfAll(bytes) + Zeros(8)
  {
    BitsOfAllAppend(bytes, [0]);
    BitsOfOne(0);
    assert BitsOf(0) == Zeros(8);
  }

  lemma SizesCover(rules: seq<Rule>, tail: Option<Rule>, size: nat)
    requires WholeGroups(rules) && size >= OutSize(rules, tail)
    ensures Count(RulesPattern(rules)) + (if tail.Some? then Count(TailPattern(tail.value)) else 0) <= 8 * size
  {
    hide Count, PatternWord, RulesPattern, TailPattern;
    if tail.Some? {
      TailFits(tail.value);
    }
  }

  lemma WithTail(rules: seq<Rule>, tail: Rule, dataIn: seq<bv8>)
    requires WholeGroups(rules) && |dataIn| == InSize(rules, Some(tail))
    ensures |dataIn| == TotalLength(rules) + tail.length && |BitsOfAll(dataIn)| == 8 * |dataIn|
    ensures Punctured(rules, Some(tail), dataIn) == Selected(BitsOfAll(dataIn), RulesPattern(rules) + TailPattern(tail))
  {
    BitsOfAllLength(dataIn);
    hide Count, RulesPattern, TailPattern, TotalLength, Selected, BitsOfAll, WholeGroups;
  }

  lemma {:induction false} TailSelection(rules: seq<Rule>, tail: Rule, dataIn: seq<bv8>)
    requires WholeGroups(rules) && |dataIn| == InSize(rules, Some(tail))
    ensures var m := TotalLength(rules);
            && |BitsOfAll(dataIn[..m])| == 8 * m && |BitsOfAll(dataIn[m..m + tail.length])| == 8 * tail.length
            && Count(TailPattern(tail)) == Count(PatternBits(tail.pattern, 0x0080_0000, 8 * tail.length))
            && Punctured(rules, Some(tail), dataIn)
               == Selected(BitsOfAll(dataIn[..m]), RulesPattern(rules))
                + Selected(BitsOfAll(dataIn[m..m + tail.length]), PatternBits(tail.pattern, 0x0080_0000, 8 * tail.length))
  {
    hide *;
    var m := TotalLength(rules);
    WithTail(rules, tail, dataIn);
    TailIs(tail);
    BitsOfAllLength(dataIn[..m]);
    BitsOfAllLength(dataIn[m..m + tail.length]);
    BytesJoin(dataIn, 0, m, m + tail.length);
    assert dataIn[0..m] == dataIn[..m] && dataIn[0..m + tail.length] == dataIn;
    SelectedAppend(BitsOfAll(dataIn[..m]), RulesPattern(rules),
                   BitsOfAll(dataIn[m..m + tail.length]), TailPattern(tail));
  }

  lemma NoTailSelection(rules: seq<Rule>, dataIn: seq<bv8>)
    requires WholeGroups(rules) && |dataIn| == InSize(rules, None)
    ensures |BitsOfAll(dataIn[..TotalLength(rules)])| == 8 * TotalLength(rules)
    ensures Punctured(rules, None, dataIn) == Selected(BitsOfAll(dataIn[..TotalLength(rules)]), RulesPattern(rules))
  {
    BitsOfAllLength(dataIn);
    assert dataIn[..TotalLength(rules)] == dataIn;
    assert RulesPattern(rules) + [] == RulesPattern(rules);
  }

  lemma ValidSizes(e: PuncturingEncoder)
    requires e.Valid()
    ensures WholeGroups(e.rules) && e.outBlockSize >= OutSize(e.rules, e.tailRule)
    ensures e.inBlockSize == InSize(e.rules, e.tailRule)
         == TotalLength(e.rules) + if e.tailRule.Some? then e.tailRule.value.length else 0
  {
    hide OutSize, TotalLength, WholeGroups;
  }

  lemma PuncturedFits(rules: seq<Rule>, tail: Option<Rule>, dataIn: seq<bv8>)
    requires WholeGroups(rules) && |dataIn| == InSize(rules, tail)
    ensures |Punctured(rules, tail, dataIn)|
         == Count(RulesPattern(rules)) + if tail.Some? then Count(TailPattern(tail.value)) else 0
  {
    var p := RulesPattern(rules);
    BitsOfAllLength(dataIn);
    hide Count, RulesPattern, TailPattern, Selected, BitsOfAll;
    if tail.Some? {
      CountAppend(p, TailPattern(tail.value));
    } else {
      assert p + [] == p;
    }
  }

  /** The tail: 24 pattern bits. */
  method PutTail(out: array<bv8>, c0: Cursor, dataIn: seq<bv8>, from: nat, tail: Rule, ghost rules: seq<Rule>)
    returns (c: Cursor)
    requires WholeGroups(rules) && from == TotalLength(rules) && |dataIn| == InSize(rules, Some(tail))
    requires |BitsOfAll(dataIn[..from])| == 8 * from
    requires Written(out[..], c0, Selected(BitsOfAll(dataIn[..from]), RulesPattern(rules)))
    requires Count(RulesPattern(rules)) + Count(TailPattern(tail)) <= 8 * out.Length
    modifies out
    ensures Written(out[..], c, Punctured(rules, Some(tail), dataIn))
  {
    hide *;
    WithTail(rules, tail, dataIn);
    TailSelection(rules, tail, dataIn);
    ghost var a, p := BitsOfAll(dataIn[..from]), RulesPattern(rules);
    assert |Selected(a, p)| == Count(p);
    c := PutBytes(out, c0, dataIn, from, tail.length, tail.pattern, 0x0080_0000, Selected(a, p));
  }

  class PuncturingEncoder {
    const numCu: nat
    var inBlockSize: nat
    var outBlockSize: nat
    var rules: seq<Rule>
    var tailRule: Option<Rule>

    /** The sizes follow the rules; a capacity-unit count may have added one byte. */
    ghost predicate Valid()
      reads this
    {
      && WholeGroups(rules) && inBlockSize == InSize(rules, tailRule)
      && (outBlockSize == OutSize(rules, tailRule)
          || (numCu > 0 && outBlockSize == 8 * numCu == OutSize(rules, tailRule) + 1))
    }

    /** 0 capacity units: the size is not checked. */
    constructor (numCu: nat)
      ensures Valid() && this.numCu == numCu && rules == [] && tailRule == None
    {
      this.numCu := numCu;
      inBlockSize, outBlockSize := 0, 0;
      rules, tailRule := [], None;
    }

    method AdjustItemSize()
      requires WholeGroups(rules)
      modifies `inBlockSize, `outBlockSize
      ensures Valid() && outBlockSize == OutSize(rules, tailRule)
    {
      hide PatternWord, Count, Repeated, TailPattern;
      var inSize, outSize := 0, 0;
      CountNone();
      for k := 0 to |rules|
        invariant WholeGroups(rules[..k])
        invariant inSize == TotalLength(rules[..k]) && outSize == Count(RulesPattern(rules[..k]))
      {
        RulesGrow(rules, k);
        var bits, taken := CountRule(rules[k]);
        RepeatedCount(rules[k].pattern, rules[k].length / 4);
        CountAppend(RulesPattern(rules[..k]), Repeated(rules[k].pattern, rules[k].length / 4));
        outSize := outSize + bits;
        inSize := inSize + taken;
      }
      assert rules[..|rules|] == rules;
      if tailRule.Some? {
        inSize := inSize + tailRule.value.length;
        var bits := BitSize(tailRule.value);
        outSize := outSize + bits;
      }
      inBlockSize := inSize;
      outBlockSize := (outSize + 7) / 8;
    }

    method AppendRule(rule: Rule)
      requires Valid() && rule.length % 4 == 0
      modifies this
      ensures Valid() && rules == old(rules) + [rule] && tailRule == old(tailRule)
      ensures outBlockSize == OutSize(rules, tailRule)
    {
      rules := rules + [rule];
      AdjustItemSize();
    }

    method AppendTailRule(rule: Rule)
      requires Valid()
      modifies this
      ensures Valid() && rules == old(rules) && tailRule == Some(rule)
      ensures outBlockSize == OutSize(rules, tailRule)
    {
      tailRule := Some(rule);
      AdjustItemSize();
    }

    /** The body of process after the checks; d_in_block_size leaves out the tail
        meanwhile and is restored. */
    method Write(dataIn: seq<bv8>, out: array<bv8>)
      requires Valid() && |dataIn| == inBlockSize && out.Length == outBlockSize
      modifies `inBlockSize, out
      ensures inBlockSize == old(inBlockSize)
      ensures |Punctured(rules, tailRule, dataIn)| <= 8 * out.Length
      ensures BitsOfAll(out[..]) == Punctured(rules, tailRule, dataIn)
                                  + Zeros(8 * out.Length - |Punctured(rules, tailRule, dataIn)|)
    {
      ValidSizes(this);
      hide *;
      SizesCover(rules, tailRule, outBlockSize);
      if tailRule.Some? {
        inBlockSize := inBlockSize - tailRule.value.length;
      }
      var c := PutRules(rules, dataIn, inBlockSize, out);
      if tailRule.Some? {
        c := PutTail(out, c, dataIn, inBlockSize, tailRule.value, rules);
        inBlockSize := inBlockSize + tailRule.value.length;
      } else {
        NoTailSelection(rules, dataIn);
      }
      PuncturedFits(rules, tailRule, dataIn);
      PadToEnd(out, c, Punctured(rules, tailRule, dataIn));
    }

    /** process, into an output buffer with arbitrary contents: exactly the bits that the
        patterns keep, in order, then zeros up to the block size. */
    method Process(dataIn: seq<bv8>) returns (r: Outcome, out: array<bv8>)
      requires Valid()
      modifies this
      ensures Valid() && rules == old(rules) && tailRule == old(tailRule) && inBlockSize == old(inBlockSize)
      ensures r.WrongUnits? <==>
                numCu > 0 && 8 * numCu != OutSize(rules, tailRule) && 8 * numCu != OutSize(rules, tailRule) + 1
      ensures r.WrongInputSize? <==> !r.WrongUnits? && |dataIn| != InSize(rules, tailRule)
      ensures r.Done? ==>
                && r.size == outBlockSize == out.Length && (numCu > 0 ==> outBlockSize == 8 * numCu)
                && |Punctured(rules, tailRule, dataIn)| <= 8 * out.Length
                && BitsOfAll(out[..]) == Punctured(rules, tailRule, dataIn)
                                       + Zeros(8 * out.Length - |Punctured(rules, tailRule, dataIn)|)
    {
      hide Count, PatternWord, RulesPattern, TailPattern, TotalLength, Selected, BitsOfAll, Punctured;
      out := new bv8[0];
      if numCu > 0 {
        if numCu * 8 == outBlockSize + 1 {
          outBlockSize := numCu * 8;
        }
        if numCu * 8 != outBlockSize {
          return WrongUnits, out;
        }
      }
      out := new bv8[outBlockSize];
      if |dataIn| != inBlockSize {
        return WrongInputSize, out;
      }
      Write(dataIn, out);
      return Done(outBlockSize), out;
    }
  }
}
