/** Bytes as sequences of bits, most significant first. */
module Bits {

  function TestBit(x: bv8, mask: bv8): bool { x & mask != 0 }

  function Tested(x: bv32, mask: bv32): bool { x & mask != 0 }

  function Xor8(a: bv8, b: bv8): bv8 { a ^ b }

  predicate OneHot(mask: bv8) { mask & (mask - 1) == 0 }

  lemma TestXor(x: bv8, y: bv8, mask: bv8)
    requires OneHot(mask)
    ensures TestBit(Xor8(x, y), mask) == (TestBit(x, mask) != TestBit(y, mask))
  {
    RawTestXor(x, y, mask);
  }

  lemma RawTestXor(x: bv8, y: bv8, mask: bv8)
    requires mask & (mask - 1) == 0
    ensures ((x ^ y) & mask != 0) == ((x & mask != 0) != (y & mask != 0))
  {
  }

  lemma MasksOneHot(i: int)
    ensures OneHot(Mask(i))
  {
  }

  /** The mask of bit i of a byte, counted from the most significant: 0x80 >> i. */
  function Mask(i: int): bv8 {
    if i == 0 then 0x80 else if i == 1 then 0x40 else if i == 2 then 0x20 else if i == 3 then 0x10
    else if i == 4 then 0x08 else if i == 5 then 0x04 else if i == 6 then 0x02 else 0x01
  }

  /** The bits of a byte, most significant first. */
  function BitsOf(x: bv8): (r: seq<bool>)
    ensures |r| == 8
  {
    seq(8, i => TestBit(x, Mask(i)))
  }

  function BitsOfAll(data: seq<bv8>): seq<bool> {
    if data == [] then [] else BitsOf(data[0]) + BitsOfAll(data[1..])
  }

  function XorBits(a: seq<bool>, b: seq<bool>): seq<bool>
    requires |a| == |b|
  {
    seq(|a|, i requires 0 <= i < |a| => a[i] != b[i])
  }

  function XorBytes(a: seq<bv8>, b: seq<bv8>): (r: seq<bv8>)
    requires |a| == |b|
    ensures |r| == |a|
  {
    seq(|a|, i requires 0 <= i < |a| => Xor8(a[i], b[i]))
  }

  function Zeros(n: nat): (r: seq<bool>)
    ensures |r| == n
  {
    seq(n, _ => false)
  }

  lemma BitsXor(x: bv8, y: bv8)
    ensures BitsOf(Xor8(x, y)) == XorBits(BitsOf(x), BitsOf(y))
  {
    hide Xor8, TestBit, OneHot, Mask;
    forall i | 0 <= i < 8 ensures BitsOf(Xor8(x, y))[i] == XorBits(BitsOf(x), BitsOf(y))[i] {
      MasksOneHot(i);
      TestXor(x, y, Mask(i));
    }
  }

  function Index(x: bv8): (r: nat)
    ensures r < 256
  {
    x as int
  }

  lemma ByteRoundTrip(x: bv8)
    ensures Index(x) as bv8 == x
  {
  }

  function AsByte(i: nat): bv8
    requires i < 256
  {
    i as bv8
  }

  lemma {:induction false} BitsOfAllLength(data: seq<bv8>)
    ensures |BitsOfAll(data)| == 8 * |data|
    decreases data
  {
    if data != [] {
      BitsOfAllLength(data[1..]);
    }
  }

  lemma {:induction false} BitsOfAllAppend(a: seq<bv8>, b: seq<bv8>)
    ensures BitsOfAll(a + b) == BitsOfAll(a) + BitsOfAll(b)
    decreases a
  {
    if a == [] {
      assert a + b == b;
    } else {
      assert (a + b)[0] == a[0] && (a + b)[1..] == a[1..] + b;
      BitsOfAllAppend(a[1..], b);
    }
  }

  lemma BitsOfOne(x: bv8)
    ensures BitsOfAll([x]) == BitsOf(x)
  {
    assert [x][1..] == [] && BitsOfAll([]) == [];
  }

  /** Bit 8 * i + j of a stretch of bytes is bit j of byte i. */
  lemma {:induction false} BitAt(data: seq<bv8>, i: nat, j: nat)
    requires i < |data| && j < 8
    ensures 8 * i + j < |BitsOfAll(data)| && BitsOfAll(data)[8 * i + j] == BitsOf(data[i])[j]
    decreases data
  {
    BitsOfAllLength(data);
    if i > 0 {
      BitAt(data[1..], i - 1, j);
    }
  }

  // ----- Shifting bits into a byte -----

  /** x <<= 1; x |= b */
  function Push(x: bv8, b: bool): bv8 { (x << 1) | (if b then 1 else 0) }

  function Pushed(x: bv8, bits: seq<bool>): bv8
    decreases bits
  {
    if bits == [] then x else Pushed(Push(x, bits[0]), bits[1..])
  }

  lemma {:induction false} PushedAppend(x: bv8, a: seq<bool>, b: seq<bool>)
    ensures Pushed(x, a + b) == Pushed(Pushed(x, a), b)
    decreases a
  {
    hide Push;
    if a == [] {
      assert a + b == b;
    } else {
      assert (a + b)[0] == a[0] && (a + b)[1..] == a[1..] + b;
      PushedAppend(Push(x, a[0]), a[1..], b);
    }
  }

  lemma PushedOne(x: bv8, b: bool)
    ensures Pushed(x, [b]) == Push(x, b)
  {
    hide Push;
    assert [b][1..] == [];
    assert Pushed(Push(x, b), []) == Push(x, b);
  }

  lemma RawPush(x: bv8, b: bool)
    ensures ((x << 1) | (if b then 1 else 0)) & 0x01 != 0 <==> b
    ensures ((x << 1) | (if b then 1 else 0)) & 0x02 != 0 <==> x & 0x01 != 0
    ensures ((x << 1) | (if b then 1 else 0)) & 0x04 != 0 <==> x & 0x02 != 0
    ensures ((x << 1) | (if b then 1 else 0)) & 0x08 != 0 <==> x & 0x04 != 0
    ensures ((x << 1) | (if b then 1 else 0)) & 0x10 != 0 <==> x & 0x08 != 0
    ensures ((x << 1) | (if b then 1 else 0)) & 0x20 != 0 <==> x & 0x10 != 0
    ensures ((x << 1) | (if b then 1 else 0)) & 0x40 != 0 <==> x & 0x20 != 0
    ensures ((x << 1) | (if b then 1 else 0)) & 0x80 != 0 <==> x & 0x40 != 0
  {
  }

  lemma PushMask(x: bv8, b: bool, i: nat)
    requires i < 8
    ensures TestBit(Push(x, b), Mask(i)) == if i < 7 then TestBit(x, Mask(i + 1)) else b
  {
    RawPush(x, b);
  }

  lemma PushShifts(x: bv8, b: bool)
    ensures BitsOf(Push(x, b)) == BitsOf(x)[1..] + [b]
  {
    hide Push, TestBit, Mask;
    forall i | 0 <= i < 8 ensures BitsOf(Push(x, b))[i] == (BitsOf(x)[1..] + [b])[i] {
      PushMask(x, b, i);
    }
  }

  /** Each bit shifted in pushes the oldest one out. */
  lemma {:induction false} PushedShifts(x: bv8, bits: seq<bool>)
    requires |bits| <= 8
    ensures BitsOf(Pushed(x, bits)) == BitsOf(x)[|bits|..] + bits
    decreases bits
  {
    hide Push, BitsOf;
    if bits != [] {
      PushShifts(x, bits[0]);
      PushedShifts(Push(x, bits[0]), bits[1..]);
    }
  }

  /** After eight bits nothing is left of what the byte held before. */
  lemma PushedEight(x: bv8, bits: seq<bool>)
    requires |bits| == 8
    ensures BitsOf(Pushed(x, bits)) == bits
  {
    PushedShifts(x, bits);
  }

  /** x <<= 1, n times */
  function ShiftedLeft(x: bv8, n: nat): bv8 {
    if n == 0 then x else ShiftedLeft(x, n - 1) << 1
  }

  lemma RawTop(x: bv8)
    ensures (x << 1) & 0x80 != 0 <==> x & 0x40 != 0
    ensures (x << 1) & 0x40 != 0 <==> x & 0x20 != 0
    ensures (x << 1) & 0x20 != 0 <==> x & 0x10 != 0
    ensures (x << 1) & 0x10 != 0 <==> x & 0x08 != 0
    ensures (x << 1) & 0x08 != 0 <==> x & 0x04 != 0
    ensures (x << 1) & 0x04 != 0 <==> x & 0x02 != 0
    ensures (x << 1) & 0x02 != 0 <==> x & 0x01 != 0
  {
  }

  lemma {:induction false} MaskAfterShifts(x: bv8, n: nat, k: nat)
    requires n + k < 8
    ensures TestBit(ShiftedLeft(x, n), Mask(k)) == TestBit(x, Mask(n + k))
    decreases n
  {
    if n > 0 {
      MaskAfterShifts(x, n - 1, k + 1);
      RawTop(ShiftedLeft(x, n - 1));
    }
  }

  /** The bits of a byte appear at its top one after the other. */
  lemma TopAfterShifts(x: bv8, n: nat)
    requires n < 8
    ensures TestBit(ShiftedLeft(x, n), 0x80) == BitsOf(x)[n]
  {
    MaskAfterShifts(x, n, 0);
  }
}
