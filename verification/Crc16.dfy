/** The 16-bit CRC of `lib/crc.c` and the FIB check of `FigParser.cpp`
    (section 5.2.1 of ETSI EN 300 401). */
module Crc16 {
  import opened Bits

  // Bit-vector operations by name, so that proofs can use their laws without them.

  function Xor(a: bv16, b: bv16): bv16 { a ^ b }

  function Shl(a: bv16): bv16 { a << 1 }

  function Msb(a: bv16): bool { a & 0x8000 != 0 }

  lemma XorAssoc(x: bv16, y: bv16, p: bv16)
    ensures Xor(Xor(x, y), p) == Xor(x, Xor(y, p))
  {
  }

  lemma XorComm(x: bv16, y: bv16)
    ensures Xor(x, y) == Xor(y, x)
  {
  }

  lemma XorSelf(x: bv16)
    ensures Xor(x, x) == 0 && Xor(x, 0) == x
  {
  }

  lemma XorRegroup(x: bv16, y: bv16, p: bv16)
    ensures Xor(Xor(x, y), p) == Xor(Xor(x, p), y)
    ensures Xor(Xor(x, p), Xor(y, p)) == Xor(x, y)
  {
    hide *;
    XorAssoc(x, y, p);
    XorAssoc(x, p, y);
    XorComm(y, p);
    XorAssoc(x, p, Xor(y, p));
    XorAssoc(p, y, p);
    XorAssoc(y, p, p);
    XorComm(p, Xor(y, p));
    XorSelf(p);
    XorSelf(y);
  }

  lemma ShlXor(x: bv16, y: bv16)
    ensures Shl(Xor(x, y)) == Xor(Shl(x), Shl(y))
  {
  }

  lemma MsbXor(x: bv16, y: bv16)
    ensures Msb(Xor(x, y)) == (Msb(x) != Msb(y))
  {
  }

  /** The shift register: one message bit. */
  function StepBit(poly: bv16, crc: bv16, b: bool): bv16 {
    if Msb(crc) != b then Xor(Shl(crc), poly) else Shl(crc)
  }

  /** The bit-serial register on a message. */
  function RunBits(poly: bv16, crc: bv16, bits: seq<bool>): bv16
    decreases bits
  {
    if bits == [] then crc else RunBits(poly, StepBit(poly, crc, bits[0]), bits[1..])
  }

  // ----- Linearity -----

  lemma StepLinear(poly: bv16, c: bv16, d: bv16, a: bool, b: bool)
    ensures StepBit(poly, Xor(c, d), a != b) == Xor(StepBit(poly, c, a), StepBit(poly, d, b))
  {
    hide Xor, Shl, Msb;
    MsbXor(c, d);
    ShlXor(c, d);
    XorRegroup(Shl(c), Shl(d), poly);
    XorAssoc(Shl(c), Shl(d), poly);
  }

  lemma {:induction false} RunLinear(poly: bv16, c: bv16, d: bv16, a: seq<bool>, b: seq<bool>)
    requires |a| == |b|
    ensures RunBits(poly, Xor(c, d), XorBits(a, b)) == Xor(RunBits(poly, c, a), RunBits(poly, d, b))
    decreases a
  {
    hide Xor, StepBit;
    if a != [] {
      StepLinear(poly, c, d, a[0], b[0]);
      RunLinear(poly, StepBit(poly, c, a[0]), StepBit(poly, d, b[0]), a[1..], b[1..]);
      assert XorBits(a, b)[1..] == XorBits(a[1..], b[1..]);
    }
  }

  lemma {:induction false} RunAppend(poly: bv16, c: bv16, a: seq<bool>, b: seq<bool>)
    ensures RunBits(poly, c, a + b) == RunBits(poly, RunBits(poly, c, a), b)
    decreases a
  {
    if a == [] {
      assert a + b == b;
    } else {
      RunAppend(poly, StepBit(poly, c, a[0]), a[1..], b);
      assert (a + b)[1..] == a[1..] + b;
    }
  }

  /** RunBits on eight bits, written out. */
  function StepEight(poly: bv16, c: bv16, bits: seq<bool>): bv16
    requires |bits| == 8
  {
    var c1 := StepBit(poly, StepBit(poly, StepBit(poly, StepBit(poly, c, bits[0]), bits[1]), bits[2]), bits[3]);
    StepBit(poly, StepBit(poly, StepBit(poly, StepBit(poly, c1, bits[4]), bits[5]), bits[6]), bits[7])
  }

  lemma RunEight(poly: bv16, c: bv16, bits: seq<bool>)
    requires |bits| == 8
    ensures RunBits(poly, c, bits) == StepEight(poly, c, bits)
  {
    hide StepBit;
    var c1 := StepBit(poly, c, bits[0]);
    var c2 := StepBit(poly, c1, bits[1]);
    var c3 := StepBit(poly, c2, bits[2]);
    var c4 := StepBit(poly, c3, bits[3]);
    var c5 := StepBit(poly, c4, bits[4]);
    var c6 := StepBit(poly, c5, bits[5]);
    var c7 := StepBit(poly, c6, bits[6]);
    RunTail(poly, c, bits, 0);
    RunTail(poly, c1, bits, 1);
    RunTail(poly, c2, bits, 2);
    RunTail(poly, c3, bits, 3);
    RunTail(poly, c4, bits, 4);
    RunTail(poly, c5, bits, 5);
    RunTail(poly, c6, bits, 6);
    RunTail(poly, c7, bits, 7);
    assert bits[0..] == bits && bits[8..] == [];
  }

  lemma RunTail(poly: bv16, c: bv16, bits: seq<bool>, k: nat)
    requires k < |bits|
    ensures RunBits(poly, c, bits[k..]) == RunBits(poly, StepBit(poly, c, bits[k]), bits[k + 1..])
  {
    hide StepBit;
    assert bits[k..][1..] == bits[k + 1..];
  }

  /** Bit k of a byte held in the top half of the register reaches the top after k shifts. */
  lemma TopBits(d: bv8)
    ensures var c := (d as bv16) << 8;
            && Msb(c) == TestBit(d, 0x80)
            && Msb(Shl(c)) == TestBit(d, 0x40)
            && Msb(Shl(Shl(c))) == TestBit(d, 0x20)
            && Msb(Shl(Shl(Shl(c)))) == TestBit(d, 0x10)
            && Msb(Shl(Shl(Shl(Shl(c))))) == TestBit(d, 0x08)
            && Msb(Shl(Shl(Shl(Shl(Shl(c)))))) == TestBit(d, 0x04)
            && Msb(Shl(Shl(Shl(Shl(Shl(Shl(c))))))) == TestBit(d, 0x02)
            && Msb(Shl(Shl(Shl(Shl(Shl(Shl(Shl(c)))))))) == TestBit(d, 0x01)
            && Shl(Shl(Shl(Shl(Shl(Shl(Shl(Shl(c)))))))) == 0
  {
  }

  /** A register whose top byte equals the message byte is shifted out without feedback. */
  lemma TopByteCancels(poly: bv16, d: bv8)
    ensures RunBits(poly, (d as bv16) << 8, BitsOf(d)) == 0
  {
    TopBits(d);
    var c := (d as bv16) << 8;
    hide Shl, Msb, Xor, TestBit, RunBits;
    RunEight(poly, c, BitsOf(d));
  }

  /** A register whose top byte is clear is only shifted by eight zero bits. */
  lemma LowByteShifts(poly: bv16, c: bv16)
    requires c & 0xff00 == 0
    ensures RunBits(poly, c, BitsOf(0)) == c << 8
  {
    LowBits(c);
    hide Shl, Msb, Xor, RunBits;
    RunEight(poly, c, BitsOf(0));
  }

  lemma LowBits(c: bv16)
    requires c & 0xff00 == 0
    ensures !Msb(c) && !Msb(Shl(c)) && !Msb(Shl(Shl(c))) && !Msb(Shl(Shl(Shl(c))))
    ensures !Msb(Shl(Shl(Shl(Shl(c))))) && !Msb(Shl(Shl(Shl(Shl(Shl(c))))))
    ensures !Msb(Shl(Shl(Shl(Shl(Shl(Shl(c))))))) && !Msb(Shl(Shl(Shl(Shl(Shl(Shl(Shl(c))))))))
    ensures Shl(Shl(Shl(Shl(Shl(Shl(Shl(Shl(c)))))))) == c << 8
  {
  }

  // ----- The table -----

  function Shl8(c: bv16): bv16 { c << 8 }

  /** The top byte of the register: l_crc >> 8. */
  function Hi(c: bv16): bv8 { (c >> 8) as bv8 }

  function OnTop(d: bv8): bv16 { (d as bv16) << 8 }

  function Low(c: bv16): bv16 { c & 0xff }

  lemma SplitRegister(c: bv16)
    ensures c == Xor(OnTop(Hi(c)), Low(c))
  {
  }

  lemma LowIsLow(c: bv16)
    ensures Low(c) & 0xff00 == 0 && Low(c) << 8 == Shl8(c)
  {
  }

  lemma Xor8Laws(e: bv8, d: bv8)
    ensures Xor8(e, Xor8(e, d)) == d && Xor8(0, d) == d
  {
  }

  /** The table-driven step equals eight serial steps, for any polynomial. */
  lemma ByteStep(poly: bv16, c: bv16, d: bv8)
    ensures RunBits(poly, c, BitsOf(d)) == Xor(Shl8(c), RunBits(poly, 0, BitsOf(Xor8(Hi(c), d))))
  {
    hide *;
    var e, low := Hi(c), Low(c);
    var f := Xor8(e, d);
    SplitRegister(c);
    LowIsLow(c);
    Xor8Laws(e, d);
    Xor8Laws(e, f);
    BitsXor(e, f);
    BitsXor(0, f);
    RunLinear(poly, OnTop(e), low, BitsOf(e), BitsOf(f));
    RunLinear(poly, low, 0, BitsOf(0), BitsOf(f));
    OnTopCancels(poly, e);
    LowByteShifts(poly, low);
    XorSelf(low);
    XorSelf(RunBits(poly, low, BitsOf(f)));
    XorComm(0, RunBits(poly, low, BitsOf(f)));
  }

  lemma OnTopCancels(poly: bv16, e: bv8)
    ensures RunBits(poly, OnTop(e), BitsOf(e)) == 0
  {
    TopByteCancels(poly, e);
  }

  /** Entry i as init_crc16tab computes it: the complemented index from an initial register. */
  function TableEntry(code: bv16, init: bv16, i: bv8): bv16 {
    Xor(RunBits(code, init, BitsOf(Xor8(i, 0xff))), 0xff00)
  }

  lemma AllOnes(i: bv8)
    ensures Hi(0xffff) == 0xff && Shl8(0xffff) == 0xff00
    ensures Xor8(0xff, Xor8(i, 0xff)) == i
  {
  }

  /** From the register 0xffff, the complementing cancels: entry i is the register after the byte i. */
  lemma TableEntryMeaning(code: bv16, i: bv8)
    ensures TableEntry(code, 0xffff, i) == RunBits(code, 0, BitsOf(i))
  {
    AllOnes(i);
    hide Xor, Xor8, Shl8, Hi, RunBits, BitsOf;
    ByteStep(code, 0xffff, Xor8(i, 0xff));
    var r := RunBits(code, 0, BitsOf(i));
    XorRegroup(0xff00, r, 0xff00);
    XorSelf(0xff00);
    XorSelf(r);
    XorComm(0, r);
  }

  /** The inner loop of init_crc16tab: eight bits of nb into the register. */
  method FeedByte(code: bv16, init: bv16, nb: bv8) returns (crc: bv16)
    ensures crc == RunBits(code, init, BitsOf(nb))
  {
    hide *;
    crc := init;
    ghost var bits := BitsOf(nb);
    assert bits[0..] == bits;
    for j := 0 to 8
      invariant RunBits(code, init, bits) == RunBits(code, crc, bits[j..])
    {
      RunTail(code, crc, bits, j);
      TableBit(code, crc, nb, j);
      var msb := TestBit(nb, Mask(j));
      msb := msb != Msb(crc);
      crc := Shl(crc);
      if msb {
        crc := Xor(crc, code);
      }
    }
    RunNone(code, crc, bits[8..]);
  }

  /** init_crc16tab */
  method InitCrc16Tab(code: bv16, init: bv16, tab: array<bv16>)
    requires tab.Length == 256
    modifies tab
    ensures forall x: bv8 :: tab[Index(x)] == TableEntry(code, init, x)
    ensures init == 0xffff ==> IsTable(tab[..], code)
  {
    hide *;
    for i := 0 to 256
      invariant forall k | 0 <= k < i :: tab[k] == TableEntry(code, init, k as bv8)
    {
      var nb := Xor8(i as bv8, 0xff);
      var crc := FeedByte(code, init, nb);
      TableEntryUnfolds(code, init, i as bv8);
      crc := Xor(crc, 0xff00);
      tab[i] := crc;
    }
    forall x: bv8 ensures tab[Index(x)] == TableEntry(code, init, x) {
      ByteRoundTrip(x);
    }
    if init == 0xffff {
      InitialisedIsTable(tab[..], code);
    }
  }

  lemma TableEntryUnfolds(code: bv16, init: bv16, i: bv8)
    ensures TableEntry(code, init, i) == Xor(RunBits(code, init, BitsOf(Xor8(i, 0xff))), 0xff00)
  {
  }

  lemma RunNone(code: bv16, crc: bv16, bits: seq<bool>)
    requires |bits| == 0
    ensures RunBits(code, crc, bits) == crc
  {
  }

  lemma TableBit(code: bv16, crc: bv16, nb: bv8, j: nat)
    requires j < 8
    ensures StepBit(code, crc, BitsOf(nb)[j])
         == if TestBit(nb, Mask(j)) != Msb(crc) then Xor(Shl(crc), code) else Shl(crc)
  {
    hide Xor, Shl, TestBit, Msb, Mask;
  }

  /** A table that computes the register after a single byte. */
  ghost predicate IsTable(tab: seq<bv16>, poly: bv16) {
    |tab| == 256 && forall x: bv8 :: tab[Index(x)] == RunBits(poly, 0, BitsOf(x))
  }

  lemma InitialisedIsTable(tab: seq<bv16>, code: bv16)
    requires |tab| == 256 && forall x: bv8 :: tab[Index(x)] == TableEntry(code, 0xffff, x)
    ensures IsTable(tab, code)
  {
    hide TableEntry, RunBits, BitsOf, Index;
    forall x: bv8 ensures tab[Index(x)] == RunBits(code, 0, BitsOf(x)) {
      TableEntryMeaning(code, x);
    }
  }

  /** crc16 equals the bit-serial register on every message and seed. */
  method Compute(tab: seq<bv16>, seed: bv16, data: seq<bv8>, ghost poly: bv16) returns (crc: bv16)
    requires IsTable(tab, poly)
    ensures crc == RunBits(poly, seed, BitsOfAll(data))
  {
    assert |tab| == 256;
    hide *;
    crc := seed;
    var nb := |data|;
    assert data[0..] == data;
    while nb > 0
      invariant 0 <= nb <= |data|
      invariant RunBits(poly, seed, BitsOfAll(data)) == RunBits(poly, crc, BitsOfAll(data[|data| - nb..]))
    {
      var d := data[|data| - nb];
      ByteOfMessage(tab, poly, crc, data[|data| - nb..]);
      nb := nb - 1;
      crc := Xor(Shl8(crc), tab[Index(Xor8(Hi(crc), d))]);
    }
    EmptyMessage(poly, crc, data[|data|..]);
  }

  lemma ByteOfMessage(tab: seq<bv16>, poly: bv16, crc: bv16, rest: seq<bv8>)
    requires IsTable(tab, poly) && rest != []
    ensures |tab| == 256
    ensures Index(Xor8(Hi(crc), rest[0])) < 256
    ensures RunBits(poly, crc, BitsOfAll(rest))
         == RunBits(poly, Xor(Shl8(crc), tab[Index(Xor8(Hi(crc), rest[0]))]), BitsOfAll(rest[1..]))
  {
    hide Xor, Shl8, Hi, Xor8, RunBits, BitsOf, Index;
    ByteStep(poly, crc, rest[0]);
    RunAppend(poly, crc, BitsOf(rest[0]), BitsOfAll(rest[1..]));
  }

  lemma EmptyMessage(poly: bv16, crc: bv16, rest: seq<bv8>)
    requires rest == []
    ensures RunBits(poly, crc, BitsOfAll(rest)) == crc
  {
  }
}
