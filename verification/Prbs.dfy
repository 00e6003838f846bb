/** `PrbsGenerator.cpp`: energy dispersal by a table-driven 32-bit shift register
    (section 10 of ETSI EN 300 401). */
module Prbs {
  import opened Bits

  function Xor(a: bv32, b: bv32): bv32 { a ^ b }

  function And(a: bv32, b: bv32): bv32 { a & b }

  function Shl(a: bv32): bv32 { a << 1 }

  function Shl8(a: bv32): bv32 { a << 8 }

  function Low(a: bv32): bv32 { a & 0xff }

  function Bit(b: bool): bv32 { if b then 1 else 0 }

  predicate OneHot(mask: bv32) { mask & (mask - 1) == 0 }

  // ----- The serial register -----

  /** The parity of the n bits of x from the mask's bit upwards. */
  function ParityOf(x: bv32, mask: bv32, n: nat): bool
    decreases n
  {
    if n == 0 then false else Tested(x, mask) != ParityOf(x, Shl(mask), n - 1)
  }

  function Parity(x: bv32): bool { ParityOf(x, 1, 32) }

  /** Shift, and feed back the parity of the tapped bits. */
  function SerialStep(poly: bv32, acc: bv32): bv32 {
    Xor(Shl(acc), Bit(Parity(And(acc, poly))))
  }

  function SerialRun(poly: bv32, acc: bv32, n: nat): bv32 {
    if n == 0 then acc else SerialStep(poly, SerialRun(poly, acc, n - 1))
  }

  // ----- Linearity over GF(2) -----

  lemma RawXor(x: bv32, y: bv32, z: bv32)
    ensures (x ^ y) ^ z == x ^ (y ^ z) && x ^ y == y ^ x && x ^ x == 0 && x ^ 0 == x && 0 ^ x == x
  {
  }

  lemma XorLaws(x: bv32, y: bv32, z: bv32)
    ensures Xor(Xor(x, y), z) == Xor(x, Xor(y, z)) && Xor(x, y) == Xor(y, x)
    ensures Xor(x, x) == 0 && Xor(x, 0) == x && Xor(0, x) == x
  {
    RawXor(x, y, z);
  }

  lemma XorSwap(a: bv32, b: bv32, c: bv32, d: bv32)
    ensures Xor(Xor(a, b), Xor(c, d)) == Xor(Xor(a, c), Xor(b, d))
  {
    hide Xor;
    XorLaws(a, b, Xor(c, d));
    XorLaws(b, c, d);
    XorLaws(c, b, d);
    XorLaws(a, c, Xor(b, d));
  }

  lemma RawShift(x: bv32, y: bv32)
    ensures (x ^ y) << 1 == (x << 1) ^ (y << 1)
  {
  }

  lemma XorIs(x: bv32, y: bv32)
    ensures Xor(x, y) == x ^ y
  {
  }

  lemma ShlIs(x: bv32)
    ensures Shl(x) == x << 1
  {
  }

  lemma ShlXor(x: bv32, y: bv32)
    ensures Shl(Xor(x, y)) == Xor(Shl(x), Shl(y))
  {
    hide *;
    RawShift(x, y);
    XorIs(x, y);
    ShlIs(Xor(x, y));
    ShlIs(x);
    ShlIs(y);
    XorIs(Shl(x), Shl(y));
  }

  lemma AndXor(x: bv32, y: bv32, p: bv32)
    ensures And(Xor(x, y), p) == Xor(And(x, p), And(y, p))
  {
    RawDistribute(x, y, p);
  }

  lemma LowXor(x: bv32, y: bv32)
    ensures Low(Xor(x, y)) == Xor(Low(x), Low(y))
  {
    LowIs(Xor(x, y));
    LowIs(x);
    LowIs(y);
    hide *;
    AndXor(x, y, 0xff);
  }

  lemma LowIs(x: bv32)
    ensures Low(x) == And(x, 0xff)
  {
  }

  lemma BitXor(a: bool, b: bool)
    ensures Bit(a != b) == Xor(Bit(a), Bit(b))
  {
  }

  lemma RawTested(x: bv32, y: bv32, mask: bv32)
    requires mask & (mask - 1) == 0
    ensures ((x ^ y) & mask != 0) == ((x & mask != 0) != (y & mask != 0))
  {
    RawHit(x, mask);
    RawHit(y, mask);
    RawHit(x ^ y, mask);
    RawDistribute(x, y, mask);
  }

  lemma RawHit(x: bv32, mask: bv32)
    requires mask & (mask - 1) == 0
    ensures x & mask == 0 || x & mask == mask
  {
  }

  lemma RawDistribute(x: bv32, y: bv32, mask: bv32)
    ensures (x ^ y) & mask == (x & mask) ^ (y & mask)
  {
  }

  lemma TestedXor(x: bv32, y: bv32, mask: bv32)
    requires OneHot(mask)
    ensures Tested(Xor(x, y), mask) == (Tested(x, mask) != Tested(y, mask))
  {
    RawTested(x, y, mask);
  }

  lemma NextMask(mask: bv32)
    requires OneHot(mask)
    ensures OneHot(Shl(mask))
  {
  }

  lemma {:induction false} ParityXor(x: bv32, y: bv32, mask: bv32, n: nat)
    requires OneHot(mask)
    ensures ParityOf(Xor(x, y), mask, n) == (ParityOf(x, mask, n) != ParityOf(y, mask, n))
    decreases n
  {
    hide OneHot, Xor, Tested, Shl;
    if n > 0 {
      TestedXor(x, y, mask);
      NextMask(mask);
      ParityXor(x, y, Shl(mask), n - 1);
    }
  }

  lemma FirstMask()
    ensures OneHot(1)
  {
  }

  lemma StepLinear(poly: bv32, x: bv32, y: bv32)
    ensures SerialStep(poly, Xor(x, y)) == Xor(SerialStep(poly, x), SerialStep(poly, y))
  {
    var a, b := And(x, poly), And(y, poly);
    FirstMask();
    hide Xor, And, Shl, Bit, OneHot, ParityOf;
    AndXor(x, y, poly);
    ShlXor(x, y);
    ParityXor(a, b, 1, 32);
    BitXor(Parity(a), Parity(b));
    XorSwap(Shl(x), Shl(y), Bit(Parity(a)), Bit(Parity(b)));
  }

  lemma {:induction false} RunLinear(poly: bv32, x: bv32, y: bv32, n: nat)
    ensures SerialRun(poly, Xor(x, y), n) == Xor(SerialRun(poly, x, n), SerialRun(poly, y, n))
    decreases n
  {
    hide Xor, SerialStep;
    if n > 0 {
      RunLinear(poly, x, y, n - 1);
      StepLinear(poly, SerialRun(poly, x, n - 1), SerialRun(poly, y, n - 1));
    }
  }

  lemma {:induction false} RunAdd(poly: bv32, x: bv32, m: nat, n: nat)
    ensures SerialRun(poly, x, m + n) == SerialRun(poly, SerialRun(poly, x, m), n)
    decreases n
  {
    hide SerialStep;
    if n > 0 {
      RunAdd(poly, x, m, n - 1);
    }
  }

  // ----- Eight steps only feed the low byte -----

  function ShlN(x: bv32, n: nat): bv32 {
    if n == 0 then x else Shl(ShlN(x, n - 1))
  }

  function Ones(n: nat): bv32 {
    if n == 0 then 0 else Grow(Ones(n - 1))
  }

  function Grow(m: bv32): bv32 { (m << 1) | 1 }

  predicate Within(x: bv32, m: bv32) { x & m == x }

  lemma FeedWithin(x: bv32, m: bv32, b: bool)
    requires Within(x, m)
    ensures Within(Xor(Shl(x), Bit(b)), Grow(m))
  {
    RawFeed(x, m, Bit(b));
  }

  lemma RawFeed(x: bv32, m: bv32, b: bv32)
    requires x & m == x && (b == 0 || b == 1)
    ensures ((x << 1) ^ b) & ((m << 1) | 1) == (x << 1) ^ b
  {
  }

  lemma NothingWithin()
    ensures Within(0, 0) && Grow(0) == 1
  {
  }

  /** n steps shift the register and feed n bits into its low end. */
  lemma {:induction false} RunFeeds(poly: bv32, x: bv32, n: nat) returns (fed: bv32)
    ensures SerialRun(poly, x, n) == Xor(ShlN(x, n), fed) && Within(fed, Ones(n))
    decreases n
  {
    hide Xor, Within, Grow, Bit, Shl, Parity, And;
    if n == 0 {
      fed := 0;
      NothingWithin();
      XorLaws(x, 0, 0);
    } else {
      var f := RunFeeds(poly, x, n - 1);
      var before := SerialRun(poly, x, n - 1);
      var b := Parity(And(before, poly));
      fed := Xor(Shl(f), Bit(b));
      FeedWithin(f, Ones(n - 1), b);
      ShlXor(ShlN(x, n - 1), f);
      XorLaws(Shl(ShlN(x, n - 1)), Shl(f), Bit(b));
    }
  }

  lemma EightShifts(x: bv32)
    ensures ShlN(x, 8) == Shl8(x)
  {
    ShiftsUnrolled(x);
    hide Shl, Shl8;
    assert ShlN(x, 1) == Shl(ShlN(x, 0)) == Shl(x);
    assert ShlN(x, 2) == Shl(ShlN(x, 1));
    assert ShlN(x, 4) == Shl(Shl(ShlN(x, 2)));
    assert ShlN(x, 6) == Shl(Shl(ShlN(x, 4)));
    assert ShlN(x, 8) == Shl(Shl(ShlN(x, 6)));
  }

  lemma ShiftsUnrolled(x: bv32)
    ensures Shl(Shl(Shl(Shl(Shl(Shl(Shl(Shl(x)))))))) == Shl8(x)
  {
  }

  lemma EightOnes()
    ensures Ones(8) == 0xff
  {
  }

  lemma LowOfFed(x: bv32, fed: bv32)
    requires Within(fed, 0xff)
    ensures Low(Xor(Shl8(x), fed)) == fed
  {
  }

  lemma EightSteps(poly: bv32, x: bv32)
    ensures SerialRun(poly, x, 8) == Xor(Shl8(x), Low(SerialRun(poly, x, 8)))
  {
    hide *;
    var fed := RunFeeds(poly, x, 8);
    EightShifts(x);
    EightOnes();
    LowOfFed(x, fed);
  }

  // ----- The byte tables -----

  /** Byte i of the register, counted from the low end. */
  function Byte(acc: bv32, i: int): bv8 {
    if i == 0 then (acc & 0xff) as bv8
    else if i == 1 then ((acc >> 8) & 0xff) as bv8
    else if i == 2 then ((acc >> 16) & 0xff) as bv8
    else ((acc >> 24) & 0xff) as bv8
  }

  /** A byte in its place in the register: j << (i * 8). */
  function Place(b: bv8, i: int): bv32 {
    if i == 0 then b as bv32
    else if i == 1 then (b as bv32) << 8
    else if i == 2 then (b as bv32) << 16
    else (b as bv32) << 24
  }

  lemma SplitWord(acc: bv32)
    ensures acc == Xor(Xor(Xor(Place(Byte(acc, 0), 0), Place(Byte(acc, 1), 1)), Place(Byte(acc, 2), 2)), Place(Byte(acc, 3), 3))
  {
  }

  /** The entry for byte b in place i: what eight steps feed into the low byte. */
  function Entry(poly: bv32, i: int, b: bv8): bv32 {
    Low(SerialRun(poly, Place(b, i), 8))
  }

  /** The XOR of the first n table entries for the register. */
  function Lookups(poly: bv32, acc: bv32, n: nat): bv32 {
    if n == 0 then 0 else Xor(Lookups(poly, acc, n - 1), Entry(poly, n - 1, Byte(acc, n - 1)))
  }

  /** The four lookups equal eight serial steps, for every polynomial and register. */
  lemma FourLookups(poly: bv32, acc: bv32)
    ensures Xor(Shl8(acc), Lookups(poly, acc, 4)) == SerialRun(poly, acc, 8)
  {
    EightSteps(poly, acc);
    SplitWord(acc);
    LookupsUnrolled(poly, acc);
    hide *;
    LowOfFour(poly, Place(Byte(acc, 0), 0), Place(Byte(acc, 1), 1), Place(Byte(acc, 2), 2), Place(Byte(acc, 3), 3));
  }

  lemma {:induction false} LowOfFour(poly: bv32, p0: bv32, p1: bv32, p2: bv32, p3: bv32)
    ensures Low(SerialRun(poly, Xor(Xor(Xor(p0, p1), p2), p3), 8))
         == Xor(Xor(Xor(Low(SerialRun(poly, p0, 8)), Low(SerialRun(poly, p1, 8))), Low(SerialRun(poly, p2, 8))),
                Low(SerialRun(poly, p3, 8)))
  {
    hide *;
    var r0, r1, r2, r3 := SerialRun(poly, p0, 8), SerialRun(poly, p1, 8), SerialRun(poly, p2, 8), SerialRun(poly, p3, 8);
    RunLinear(poly, Xor(Xor(p0, p1), p2), p3, 8);
    RunLinear(poly, Xor(p0, p1), p2, 8);
    RunLinear(poly, p0, p1, 8);
    LowXor(Xor(Xor(r0, r1), r2), r3);
    LowXor(Xor(r0, r1), r2);
    LowXor(r0, r1);
  }

  lemma LookupsUnrolled(poly: bv32, acc: bv32)
    ensures Lookups(poly, acc, 4)
         == Xor(Xor(Xor(Entry(poly, 0, Byte(acc, 0)), Entry(poly, 1, Byte(acc, 1))), Entry(poly, 2, Byte(acc, 2))),
                Entry(poly, 3, Byte(acc, 3)))
    ensures Entry(poly, 0, Byte(acc, 0)) == Low(SerialRun(poly, Place(Byte(acc, 0), 0), 8))
    ensures Entry(poly, 1, Byte(acc, 1)) == Low(SerialRun(poly, Place(Byte(acc, 1), 1), 8))
    ensures Entry(poly, 2, Byte(acc, 2)) == Low(SerialRun(poly, Place(Byte(acc, 2), 2), 8))
    ensures Entry(poly, 3, Byte(acc, 3)) == Low(SerialRun(poly, Place(Byte(acc, 3), 3), 8))
  {
    var e0 := Entry(poly, 0, Byte(acc, 0));
    XorLaws(e0, 0, 0);
    hide Xor, Byte, Place, SerialRun, Low;
    assert Lookups(poly, acc, 1) == Xor(0, e0);
    assert Lookups(poly, acc, 2) == Xor(Lookups(poly, acc, 1), Entry(poly, 1, Byte(acc, 1)));
    assert Lookups(poly, acc, 3) == Xor(Lookups(poly, acc, 2), Entry(poly, 2, Byte(acc, 2)));
  }

  lemma ByteIndex(b: bv8)
    ensures AsByte(Index(b)) == b
  {
  }

  /** parity_check */
  method ParityCheck(x: bv32) returns (parity: bv32)
    ensures parity == Bit(Parity(x))
  {
    var mask: bv32 := 1;
    parity := 0;
    ghost var done := false;
    assert Parity(x) == ParityOf(x, 1, 32);
    NoBits();
    hide *;
    for i := 0 to 32
      invariant parity == Bit(done)
      invariant Parity(x) == (done != ParityOf(x, mask, 32 - i))
    {
      ParityUnfolds(x, mask, 32 - i);
      BitXor(done, Tested(x, mask));
      parity := Xor(parity, Bit(Tested(x, mask)));
      done := done != Tested(x, mask);
      mask := Shl(mask);
    }
    ParityNone(x, mask);
  }

  lemma NoBits()
    ensures Bit(false) == 0
  {
  }

  lemma ParityNone(x: bv32, mask: bv32)
    ensures !ParityOf(x, mask, 0)
  {
  }

  lemma ParityUnfolds(x: bv32, mask: bv32, n: nat)
    requires n > 0
    ensures ParityOf(x, mask, n) == (Tested(x, mask) != ParityOf(x, Shl(mask), n - 1))
  {
  }

  // ----- The start value -----

  lemma RawGrow(m: bv32, poly: bv32)
    requires m & (m + 1) == 0 && m < poly
    ensures ((m << 1) | 1) & (((m << 1) | 1) + 1) == 0 && ((m << 1) | 1) >> 1 == m && ((m << 1) | 1) > m
  {
  }

  predicate AllOnes(m: bv32) { m & (m + 1) == 0 }

  /** The least all-ones value that is not below the polynomial. */
  predicate Covers(m: bv32, poly: bv32) {
    AllOnes(m) && poly <= m && (m == 0 || m >> 1 < poly)
  }

  lemma CoverUnique(m: bv32, n: bv32, poly: bv32)
    requires Covers(m, poly) && Covers(n, poly)
    ensures m == n
  {
    RawCover(m, n, poly);
    RawCover(n, m, poly);
  }

  lemma RawCover(m: bv32, n: bv32, poly: bv32)
    requires m & (m + 1) == 0 && n & (n + 1) == 0
    ensures m < n ==> m <= n >> 1
  {
  }

  method StartValue(poly: bv32, accumInit: bv32) returns (accum: bv32)
    ensures if accumInit != 0 then accum == accumInit else Covers(accum, poly)
  {
    if accumInit != 0 {
      return accumInit;
    }
    accum := 0;
    while accum < poly
      invariant AllOnes(accum) && (accum == 0 || accum >> 1 < poly)
      decreases 0xffff_ffff - accum
    {
      RawGrow(accum, poly);
      accum := accum << 1;
      accum := accum | 1;
    }
  }

  // ----- The generator -----

  function LowByte(a: bv32): bv8 { (a & 0xff) as bv8 }

  /** Byte i of the serial sequence from the start value on: eight steps a byte, after
      d_init bytes of ones, with the sync bytes of DVB energy dispersal left alone. */
  function KeyByte(poly: bv32, start: bv32, accumInit: bv32, init: nat, i: nat): bv8 {
    if i < init then 0xff
    else if accumInit == 0xa9 && i % 188 == 0 then 0
    else LowByte(SerialRun(poly, start, 8 * (i - init + 1)))
  }

  function KeyStream(poly: bv32, start: bv32, accumInit: bv32, init: nat, n: nat): (r: seq<bv8>)
    ensures |r| == n
  {
    seq(n, i requires 0 <= i < n => KeyByte(poly, start, accumInit, init, i))
  }

  lemma RawTwice(a: bv8, b: bv8)
    ensures a ^ (a ^ b) == b
  {
  }

  lemma XorTwice(key: seq<bv8>, frame: seq<bv8>)
    requires |key| == |frame|
    ensures XorBytes(key, XorBytes(key, frame)) == frame
  {
    forall i | 0 <= i < |frame| ensures XorBytes(key, XorBytes(key, frame))[i] == frame[i] {
      RawTwice(key[i], frame[i]);
    }
  }

  datatype Result = Done(length: nat) | InvalidInputs | SizeMismatch

  class PrbsGenerator {
    const framesize: nat
    const polynomial: bv32
    const accumInit: bv32
    const init: nat
    const prbsTable: array2<bv32>
    var accum: bv32

    ghost predicate Valid()
      reads prbsTable
    {
      && prbsTable.Length0 == 4 && prbsTable.Length1 == 256 && init <= framesize
      && forall i: int, b: bv8 | 0 <= i < 4 :: prbsTable[i, Index(b)] == Entry(polynomial, i, b)
    }

    constructor (framesize: nat, polynomial: bv32, accumInit: bv32, init: nat)
      requires init <= framesize
      ensures Valid() && fresh(prbsTable)
      ensures this.framesize == framesize && this.polynomial == polynomial
      ensures this.accumInit == accumInit && this.init == init
    {
      this.framesize, this.polynomial, this.accumInit, this.init := framesize, polynomial, accumInit, init;
      this.accum := accumInit;
      prbsTable := new bv32[4, 256];
      new;
      GenPrbsTable(polynomial, prbsTable);
    }

    /** update_prbs: four table lookups are eight serial steps. */
    method UpdatePrbs() returns (next: bv32)
      requires Valid()
      ensures next == SerialRun(polynomial, accum, 8)
    {
      hide *;
      var accLsb: bv32 := 0;
      LookupsNone(polynomial, accum);
      TableShape(this);
      for i := 0 to 4
        invariant prbsTable.Length0 == 4 && prbsTable.Length1 == 256
        invariant accLsb == Lookups(polynomial, accum, i)
      {
        TableLookup(this, i, Byte(accum, i));
        LookupsNext(polynomial, accum, i);
        accLsb := Xor(accLsb, prbsTable[i, Index(Byte(accum, i))]);
      }
      FourLookups(polynomial, accum);
      next := Xor(Shl8(accum), accLsb);
    }

    /** process: the frame, or zeros when there is no input, XORed with the sequence,
        whatever the register and the output buffer held before. */
    method Process(dataIn: seq<seq<bv8>>, out: array<bv8>) returns (r: Result)
      requires Valid() && out.Length == framesize
      modifies `accum, out
      ensures r.InvalidInputs? <==> |dataIn| > 1
      ensures r.SizeMismatch? <==> |dataIn| == 1 && |dataIn[0]| != framesize
      ensures r.Done? ==> r.length == framesize && Disperses(polynomial, accumInit, init, framesize, dataIn, out[..])
      ensures r.Done? ==> exists start ::
                IsStart(polynomial, accumInit, start) && BitsDispersed(polynomial, start, accumInit, init, dataIn, out[..])
    {
      if |dataIn| > 1 {
        return InvalidInputs;
      }
      accum := StartValue(polynomial, accumInit);
      ghost var start := accum;
      assert IsStart(polynomial, accumInit, start);
      FillKey(out, start);
      ghost var key := KeyStream(polynomial, start, accumInit, init, framesize);
      assert out[..] == key;
      if dataIn == [] {
        DispersesBits(polynomial, start, accumInit, init, framesize, dataIn, out[..]);
        return Done(framesize);
      }
      if |dataIn[0]| != framesize {
        return SizeMismatch;
      }
      for j := 0 to framesize
        invariant forall k | 0 <= k < j :: out[k] == Xor8(key[k], dataIn[0][k])
        invariant forall k | j <= k < framesize :: out[k] == key[k]
      {
        out[j] := Xor8(out[j], dataIn[0][j]);
      }
      assert out[..] == XorBytes(key, dataIn[0]);
      DispersesBits(polynomial, start, accumInit, init, framesize, dataIn, out[..]);
      return Done(framesize);
    }

    method FillKey(out: array<bv8>, ghost start: bv32)
      requires Valid() && out.Length == framesize && accum == start
      modifies `accum, out
      ensures out[..] == KeyStream(polynomial, start, accumInit, init, framesize)
    {
      hide SerialRun, LowByte, KeyByte, Entry, Index;
      var i := 0;
      while i < init
        invariant i <= init && accum == start
        invariant forall k | 0 <= k < i :: out[k] == KeyByte(polynomial, start, accumInit, init, k)
      {
        KeyByteIs(polynomial, start, accumInit, init, i);
        out[i] := 0xff;
        i := i + 1;
      }
      RunUnfolds(polynomial, start);
      while i < framesize
        invariant init <= i <= framesize && Valid()
        invariant accum == SerialRun(polynomial, start, 8 * (i - init))
        invariant forall k | 0 <= k < i :: out[k] == KeyByte(polynomial, start, accumInit, init, k)
      {
        NextByte(polynomial, start, i - init);
        KeyByteIs(polynomial, start, accumInit, init, i);
        accum := UpdatePrbs();
        if accumInit == 0xa9 && i % 188 == 0 {
          out[i] := 0;
        } else {
          out[i] := LowByte(accum);
        }
        i := i + 1;
      }
    }
  }

  lemma KeyByteIs(poly: bv32, start: bv32, accumInit: bv32, init: nat, i: nat)
    ensures i < init ==> KeyByte(poly, start, accumInit, init, i) == 0xff
    ensures i >= init && accumInit == 0xa9 && i % 188 == 0 ==> KeyByte(poly, start, accumInit, init, i) == 0
    ensures i >= init && !(accumInit == 0xa9 && i % 188 == 0) ==>
              KeyByte(poly, start, accumInit, init, i) == LowByte(SerialRun(poly, start, 8 * (i - init + 1)))
  {
    hide LowByte, SerialRun;
  }

  lemma NextByte(poly: bv32, start: bv32, k: nat)
    ensures SerialRun(poly, SerialRun(poly, start, 8 * k), 8) == SerialRun(poly, start, 8 * (k + 1))
  {
    hide SerialRun;
    RunAdd(poly, start, 8 * k, 8);
  }

  ghost predicate IsStart(poly: bv32, accumInit: bv32, start: bv32) {
    if accumInit != 0 then start == accumInit else Covers(start, poly)
  }

  /** What process leaves in its output: the input, if there is one, XORed with the sequence. */
  ghost predicate Disperses(poly: bv32, accumInit: bv32, init: nat, framesize: nat, dataIn: seq<seq<bv8>>, out: seq<bv8>) {
    exists start ::
      && IsStart(poly, accumInit, start)
      && var key := KeyStream(poly, start, accumInit, init, framesize);
         && (dataIn != [] ==> |dataIn[0]| == |key|)
         && out == if dataIn == [] then key else XorBytes(key, dataIn[0])
  }

  /** A second call of process on the output of the first one gives back the frame. */
  lemma Involution(poly: bv32, accumInit: bv32, init: nat, framesize: nat, frame: seq<bv8>, once: seq<bv8>, twice: seq<bv8>)
    requires Disperses(poly, accumInit, init, framesize, [frame], once)
    requires Disperses(poly, accumInit, init, framesize, [once], twice)
    ensures twice == frame
  {
    hide IsStart, KeyStream;
    var s :| IsStart(poly, accumInit, s) && |frame| == |KeyStream(poly, s, accumInit, init, framesize)|
          && once == XorBytes(KeyStream(poly, s, accumInit, init, framesize), frame);
    var t :| IsStart(poly, accumInit, t) && |once| == |KeyStream(poly, t, accumInit, init, framesize)|
          && twice == XorBytes(KeyStream(poly, t, accumInit, init, framesize), once);
    StartUnique(poly, accumInit, s, t);
    XorTwice(KeyStream(poly, s, accumInit, init, framesize), frame);
  }

  /** Every call of process starts from the same register. */
  lemma StartUnique(poly: bv32, accumInit: bv32, s: bv32, t: bv32)
    requires IsStart(poly, accumInit, s) && IsStart(poly, accumInit, t)
    ensures s == t
  {
    if accumInit == 0 {
      CoverUnique(s, t, poly);
    }
  }

  lemma TableShape(g: PrbsGenerator)
    requires g.Valid()
    ensures g.prbsTable.Length0 == 4 && g.prbsTable.Length1 == 256
  {
  }

  lemma TableLookup(g: PrbsGenerator, i: int, b: bv8)
    requires g.Valid() && 0 <= i < 4
    ensures g.prbsTable.Length0 == 4 && g.prbsTable.Length1 == 256 && Index(b) < 256
    ensures g.prbsTable[i, Index(b)] == Entry(g.polynomial, i, b)
  {
    hide Entry, Index;
  }

  lemma LookupsNone(poly: bv32, acc: bv32)
    ensures Lookups(poly, acc, 0) == 0
  {
  }

  lemma LookupsNext(poly: bv32, acc: bv32, i: nat)
    ensures Lookups(poly, acc, i + 1) == Xor(Lookups(poly, acc, i), Entry(poly, i, Byte(acc, i)))
  {
    hide Xor, Entry, Byte;
  }

  /** The inner loop of gen_prbs_table. */
  method EightStepsOf(poly: bv32, acc: bv32) returns (r: bv32)
    ensures r == SerialRun(poly, acc, 8)
  {
    hide *;
    r := acc;
    RunUnfolds(poly, acc);
    for k := 0 to 8
      invariant r == SerialRun(poly, acc, k)
    {
      RunNext(poly, acc, k);
      StepUnfolds(poly, r);
      var parity := ParityCheck(And(r, poly));
      r := Xor(Shl(r), parity);
    }
  }

  lemma RunUnfolds(poly: bv32, acc: bv32)
    ensures SerialRun(poly, acc, 0) == acc
  {
  }

  lemma RunNext(poly: bv32, acc: bv32, k: nat)
    ensures SerialRun(poly, acc, k + 1) == SerialStep(poly, SerialRun(poly, acc, k))
  {
    hide SerialStep;
  }

  lemma StepUnfolds(poly: bv32, acc: bv32)
    ensures SerialStep(poly, acc) == Xor(Shl(acc), Bit(Parity(And(acc, poly))))
  {
  }

  lemma EntryUnfolds(poly: bv32, i: int, b: bv8)
    ensures Entry(poly, i, b) == Low(SerialRun(poly, Place(b, i), 8))
  {
  }

  /** gen_prbs_table */
  method GenPrbsTable(poly: bv32, table: array2<bv32>)
    requires table.Length0 == 4 && table.Length1 == 256
    modifies table
    ensures forall i: int, b: bv8 | 0 <= i < 4 :: table[i, Index(b)] == Entry(poly, i, b)
  {
    hide *;
    for i := 0 to 4
      invariant forall r: int, c: int | 0 <= r < i && 0 <= c < 256 :: table[r, c] == Entry(poly, r, AsByte(c))
    {
      for j := 0 to 256
        invariant forall r: int, c: int | 0 <= r < i && 0 <= c < 256 :: table[r, c] == Entry(poly, r, AsByte(c))
        invariant forall c: int | 0 <= c < j :: table[i, c] == Entry(poly, i, AsByte(c))
      {
        var acc := EightStepsOf(poly, Place(AsByte(j), i));
        EntryUnfolds(poly, i, AsByte(j));
        table[i, j] := Low(acc);
      }
    }
    forall i: int, b: bv8 | 0 <= i < 4 ensures table[i, Index(b)] == Entry(poly, i, b) {
      ByteIndex(b);
    }
  }

  // ----- The sequence of the standard -----

  /** Polynomial and start of section 10.1: X^9 + X^5 + 1, all nine stages set. */
  const DAB_POLYNOMIAL: bv32 := 0x110

  lemma DabStart()
    ensures Covers(0x1ff, DAB_POLYNOMIAL)
  {
  }

  /** The n-th bit of the sequence. */
  function SequenceBit(poly: bv32, start: bv32, n: nat): bool {
    Tested(SerialRun(poly, start, n + 1), 1)
  }

  lemma RawStage(x: bv32, b: bv32, mask: bv32)
    requires b == 0 || b == 1
    requires mask & 0x8000_0000 == 0
    ensures ((x << 1) ^ b) & (mask << 1) != 0 <==> x & mask != 0
  {
  }

  lemma RawFirstStage(x: bv32, b: bv32)
    requires b == 0 || b == 1
    ensures ((x << 1) ^ b) & 1 == b
  {
  }

  function Stage(k: nat): bv32
    requires k < 9
  {
    if k == 0 then 1 else if k == 1 then 2 else if k == 2 then 4 else if k == 3 then 8 else if k == 4 then 0x10
    else if k == 5 then 0x20 else if k == 6 then 0x40 else if k == 7 then 0x80 else 0x100
  }

  lemma StageNext(k: nat)
    requires k < 8
    ensures Stage(k + 1) == Stage(k) << 1 && Stage(k) & 0x8000_0000 == 0
  {
  }

  lemma TestedShift(x: bv32, b: bool, m: bv32)
    requires m & 0x8000_0000 == 0
    ensures Tested(Xor(Shl(x), Bit(b)), m << 1) == Tested(x, m)
  {
    RawStage(x, Bit(b), m);
  }

  lemma StageShifts(poly: bv32, acc: bv32, k: nat)
    requires k < 8
    ensures Tested(SerialStep(poly, acc), Stage(k + 1)) == Tested(acc, Stage(k))
  {
    hide *;
    StageNext(k);
    StepUnfolds(poly, acc);
    TestedShift(acc, Parity(And(acc, poly)), Stage(k));
  }

  /** Stage k holds the bit fed in k steps ago. */
  lemma {:induction false} StageHolds(poly: bv32, start: bv32, n: nat, k: nat)
    requires k < 9 && k <= n
    ensures Tested(SerialRun(poly, start, n + 1), Stage(k)) == SequenceBit(poly, start, n - k)
    decreases k
  {
    hide Tested, SerialStep;
    if k > 0 {
      StageShifts(poly, SerialRun(poly, start, n), k - 1);
      StageHolds(poly, start, n - 1, k - 1);
    }
  }

  lemma RawTaps(x: bv32)
    ensures x & 0x110 == (x & 0x100) ^ (x & 0x10)
  {
  }

  lemma RawTap(x: bv32)
    ensures x & 0x100 == 0 || x & 0x100 == 0x100
    ensures x & 0x10 == 0 || x & 0x10 == 0x10
  {
  }

  lemma RawAbove(x: bv32, m: bv32)
    requires x & !(m - 1) == 0 && m & (m - 1) == 0
    ensures x & m == 0 && x & !((m << 1) - 1) == 0 && (m << 1) & ((m << 1) - 1) == 0
  {
  }

  lemma {:induction false} ParityAbove(x: bv32, m: bv32, n: nat)
    requires x & !(m - 1) == 0 && m & (m - 1) == 0
    ensures !ParityOf(x, m, n)
    decreases n
  {
    if n > 0 {
      RawAbove(x, m);
      ParityAbove(x, m << 1, n - 1);
    }
  }

  lemma Skip(x: bv32, m: bv32, n: nat)
    requires n > 0 && x & m == 0
    ensures ParityOf(x, m, n) == ParityOf(x, m << 1, n - 1)
  {
  }

  lemma ParityOfTaps()
    ensures Parity(0x100) && Parity(0x10)
  {
    hide ParityOf;
    Skip(0x100, 0x01, 32);
    Skip(0x100, 0x02, 31);
    Skip(0x100, 0x04, 30);
    Skip(0x100, 0x08, 29);
    Skip(0x100, 0x10, 28);
    Skip(0x100, 0x20, 27);
    Skip(0x100, 0x40, 26);
    Skip(0x100, 0x80, 25);
    Hit(0x100, 24);
    Skip(0x10, 0x01, 32);
    Skip(0x10, 0x02, 31);
    Skip(0x10, 0x04, 30);
    Skip(0x10, 0x08, 29);
    Hit(0x10, 28);
  }

  lemma Hit(m: bv32, n: nat)
    requires n > 0 && m != 0 && m & (m - 1) == 0
    ensures ParityOf(m, m, n)
  {
    RawHitAbove(m);
    ParityAbove(m, m << 1, n - 1);
  }

  lemma RawHitAbove(m: bv32)
    requires m & (m - 1) == 0
    ensures m & !((m << 1) - 1) == 0 && (m << 1) & ((m << 1) - 1) == 0
  {
  }

  lemma ParityZero()
    ensures !Parity(0)
  {
    ParityAbove(0, 1, 32);
  }

  /** A single tapped stage or none. */
  lemma ParityOfTap(x: bv32, tap: bv32)
    requires tap == 0x100 || tap == 0x10
    requires x & tap == 0 || x & tap == tap
    ensures Parity(And(x, tap)) == Tested(x, tap)
  {
    ParityOfTaps();
    ParityZero();
    hide Parity;
  }

  lemma TwoTaps(x: bv32)
    ensures Parity(And(x, DAB_POLYNOMIAL)) == (Tested(x, 0x100) != Tested(x, 0x10))
  {
    RawTap(x);
    ParityOfTap(x, 0x100);
    ParityOfTap(x, 0x10);
    SplitTaps(x);
    FirstMask();
    hide *;
    ParityXor(And(x, 0x100), And(x, 0x10), 1, 32);
    ParityIs(And(x, 0x100));
    ParityIs(And(x, 0x10));
    ParityIs(And(x, DAB_POLYNOMIAL));
  }

  lemma ParityIs(x: bv32)
    ensures Parity(x) == ParityOf(x, 1, 32)
  {
  }

  lemma SplitTaps(x: bv32)
    ensures And(x, DAB_POLYNOMIAL) == Xor(And(x, 0x100), And(x, 0x10))
  {
    RawTaps(x);
  }

  lemma FirstStageIsFeedback(poly: bv32, acc: bv32)
    ensures Tested(SerialStep(poly, acc), 1) == Parity(And(acc, poly))
  {
    var b := Parity(And(acc, poly));
    StepUnfolds(poly, acc);
    hide Parity, And;
    RawFirstStage(acc, Bit(b));
  }

  /** Section 10.1: each bit is the sum modulo two of the bits five and nine before it. */
  lemma DabRecurrence(start: bv32, n: nat)
    requires n >= 9
    ensures SequenceBit(DAB_POLYNOMIAL, start, n)
         == (SequenceBit(DAB_POLYNOMIAL, start, n - 9) != SequenceBit(DAB_POLYNOMIAL, start, n - 5))
  {
    var acc := SerialRun(DAB_POLYNOMIAL, start, n);
    FirstStageIsFeedback(DAB_POLYNOMIAL, acc);
    TwoTaps(acc);
    hide Tested, Parity, And;
    assert Stage(8) == 0x100 && Stage(4) == 0x10;
    StageHolds(DAB_POLYNOMIAL, start, n - 1, 8);
    StageHolds(DAB_POLYNOMIAL, start, n - 1, 4);
  }

  /** From a register of ones, the first stages still hold the start. */
  lemma {:induction false} StageOfStart(poly: bv32, start: bv32, n: nat, k: nat)
    requires n <= k < 9
    ensures Tested(SerialRun(poly, start, n), Stage(k)) == Tested(start, Stage(k - n))
    decreases n
  {
    hide Tested, SerialStep, Stage;
    if n == 0 {
      RunUnfolds(poly, start);
    } else {
      RunNext(poly, start, n - 1);
      StageShifts(poly, SerialRun(poly, start, n - 1), k - 1);
      StageOfStart(poly, start, n - 1, k - 1);
    }
  }

  /** The sequence of section 10.1 on its own: all nine stages set, then each bit is the sum of
      those five and nine before it. */
  function StandardBit(n: int): bool
    decreases n + 9
  {
    if n < 0 then true else StandardBit(n - 5) != StandardBit(n - 9)
  }

  lemma NineOnes(k: nat)
    requires k < 9
    ensures Tested(0x1ff, Stage(k))
  {
  }

  /** The stage that feeds bit n back holds the bit of k + 1 steps ago, or a one of the start. */
  lemma FedBack(n: nat, k: nat)
    requires k == 4 || k == 8
    ensures Tested(SerialRun(DAB_POLYNOMIAL, 0x1ff, n), Stage(k))
         == if n <= k then true else SequenceBit(DAB_POLYNOMIAL, 0x1ff, n - 1 - k)
  {
    hide Tested, SerialRun, Stage;
    if n <= k {
      StageOfStart(DAB_POLYNOMIAL, 0x1ff, n, k);
      NineOnes(k - n);
    } else {
      StageHolds(DAB_POLYNOMIAL, 0x1ff, n - 1, k);
    }
  }

  /** The generator's sequence for DAB is the one of section 10.1, from the first bit on. */
  lemma {:induction false} DabSequence(n: nat)
    ensures SequenceBit(0x110, 0x1ff, n) == StandardBit(n)
    decreases n
  {
    var acc := SerialRun(DAB_POLYNOMIAL, 0x1ff, n);
    RunNext(DAB_POLYNOMIAL, 0x1ff, n);
    FirstStageIsFeedback(DAB_POLYNOMIAL, acc);
    TwoTaps(acc);
    FedBack(n, 4);
    FedBack(n, 8);
    assert Stage(8) == 0x100 && Stage(4) == 0x10;
    if n >= 5 {
      DabSequence(n - 5);
    }
    if n >= 9 {
      DabSequence(n - 9);
    }
    hide Tested, Parity, And, SerialRun;
  }

  // ----- The bits of the output -----

  /** Bit j of what the frame is XORed with: ones for the first bytes, nothing for the sync bytes of
      DVB energy dispersal, otherwise the serial sequence, eight bits a byte. */
  ghost function DispersalBit(poly: bv32, start: bv32, accumInit: bv32, init: nat, j: nat): bool {
    if j / 8 < init then true
    else if accumInit == 0xa9 && j / 8 % 188 == 0 then false
    else
      DispersalOffset(init, j);
      SequenceBit(poly, start, j - 8 * init)
  }

  lemma DispersalOffset(init: nat, j: nat)
    ensures j / 8 >= init ==> j - 8 * init >= 0
  {
  }

  lemma RawBitOfLow(a: bv32)
    ensures ((a & 0xff) as bv8) & 0x80 != 0 <==> a & 0x80 != 0
    ensures ((a & 0xff) as bv8) & 0x40 != 0 <==> a & 0x40 != 0
    ensures ((a & 0xff) as bv8) & 0x20 != 0 <==> a & 0x20 != 0
    ensures ((a & 0xff) as bv8) & 0x10 != 0 <==> a & 0x10 != 0
    ensures ((a & 0xff) as bv8) & 8 != 0 <==> a & 8 != 0
    ensures ((a & 0xff) as bv8) & 4 != 0 <==> a & 4 != 0
    ensures ((a & 0xff) as bv8) & 2 != 0 <==> a & 2 != 0
    ensures ((a & 0xff) as bv8) & 1 != 0 <==> a & 1 != 0
  {
  }

  /** The most significant bit of the low byte is the oldest of its eight. */
  lemma BitOfLow(a: bv32, b: nat)
    requires b < 8
    ensures BitsOf(LowByte(a))[b] == Tested(a, Stage(7 - b))
  {
    RawBitOfLow(a);
  }

  lemma RawConstant(b: nat)
    requires b < 8
    ensures BitsOf(0xff)[b] && !BitsOf(0)[b]
  {
  }

  lemma KeyBit(poly: bv32, start: bv32, accumInit: bv32, init: nat, i: nat, b: nat)
    requires b < 8
    ensures BitsOf(KeyByte(poly, start, accumInit, init, i))[b] == DispersalBit(poly, start, accumInit, init, 8 * i + b)
  {
    assert (8 * i + b) / 8 == i;
    RawConstant(b);
    hide BitsOf, LowByte, SerialRun, SequenceBit, Tested, Stage;
    if i >= init && !(accumInit == 0xa9 && i % 188 == 0) {
      var n := 8 * (i - init) + 7;
      BitOfLow(SerialRun(poly, start, n + 1), b);
      StageHolds(poly, start, n, 7 - b);
      assert 8 * (i - init + 1) == n + 1 && n - (7 - b) == 8 * i + b - 8 * init;
    }
  }

  /** Bit by bit, the output is the input, or nothing, XORed with the sequence. */
  ghost predicate BitsDispersed(poly: bv32, start: bv32, accumInit: bv32, init: nat, dataIn: seq<seq<bv8>>, out: seq<bv8>) {
    && |BitsOfAll(out)| == 8 * |out|
    && (dataIn != [] ==> |BitsOfAll(dataIn[0])| == 8 * |out|)
    && forall j | 0 <= j < 8 * |out| ::
         BitsOfAll(out)[j] == ((dataIn != [] && BitsOfAll(dataIn[0])[j]) != DispersalBit(poly, start, accumInit, init, j))
  }

  lemma DispersesBits(poly: bv32, start: bv32, accumInit: bv32, init: nat, framesize: nat, dataIn: seq<seq<bv8>>, out: seq<bv8>)
    requires Disperses(poly, accumInit, init, framesize, dataIn, out) && IsStart(poly, accumInit, start)
    ensures |out| == framesize && BitsDispersed(poly, start, accumInit, init, dataIn, out)
  {
    DispersesFrom(poly, start, accumInit, init, framesize, dataIn, out);
    BitsOfAllLength(out);
    if dataIn != [] {
      BitsOfAllLength(dataIn[0]);
    }
    hide *;
    forall j | 0 <= j < 8 * |out|
      ensures BitsOfAll(out)[j] == ((dataIn != [] && BitsOfAll(dataIn[0])[j]) != DispersalBit(poly, start, accumInit, init, j))
    {
      var i, b := j / 8, j % 8;
      BitAt(out, i, b);
      KeyBit(poly, start, accumInit, init, i, b);
      if dataIn != [] {
        BitAt(dataIn[0], i, b);
        XoredBit(KeyByte(poly, start, accumInit, init, i), dataIn[0][i], b);
      }
    }
    BitsDispersedIs(poly, start, accumInit, init, dataIn, out);
  }

  lemma BitsDispersedIs(poly: bv32, start: bv32, accumInit: bv32, init: nat, dataIn: seq<seq<bv8>>, out: seq<bv8>)
    requires |BitsOfAll(out)| == 8 * |out| && (dataIn != [] ==> |BitsOfAll(dataIn[0])| == 8 * |out|)
    requires forall j | 0 <= j < 8 * |out| ::
      BitsOfAll(out)[j] == ((dataIn != [] && BitsOfAll(dataIn[0])[j]) != DispersalBit(poly, start, accumInit, init, j))
    ensures BitsDispersed(poly, start, accumInit, init, dataIn, out)
  {
    hide BitsOfAll, DispersalBit;
  }

  lemma XoredBit(a: bv8, x: bv8, b: nat)
    requires b < 8
    ensures BitsOf(Xor8(a, x))[b] == (BitsOf(x)[b] != BitsOf(a)[b])
  {
    BitsXor(a, x);
  }

  lemma DispersesFrom(poly: bv32, start: bv32, accumInit: bv32, init: nat, framesize: nat, dataIn: seq<seq<bv8>>, out: seq<bv8>)
    requires Disperses(poly, accumInit, init, framesize, dataIn, out) && IsStart(poly, accumInit, start)
    ensures |out| == framesize && (dataIn != [] ==> |dataIn[0]| == framesize)
    ensures forall i | 0 <= i < framesize ::
              out[i] == if dataIn == [] then KeyByte(poly, start, accumInit, init, i)
                        else Xor8(KeyByte(poly, start, accumInit, init, i), dataIn[0][i])
  {
    hide IsStart, KeyByte, Xor8;
    var s :| IsStart(poly, accumInit, s)
          && (dataIn != [] ==> |dataIn[0]| == |KeyStream(poly, s, accumInit, init, framesize)|)
          && out == if dataIn == [] then KeyStream(poly, s, accumInit, init, framesize)
                    else XorBytes(KeyStream(poly, s, accumInit, init, framesize), dataIn[0]);
    StartUnique(poly, accumInit, s, start);
  }

  lemma DabIsStart()
    ensures IsStart(0x110, 0, 0x1ff)
  {
    DabStart();
  }

  /** Energy dispersal of DAB: every bit of the output is that of the input plus the one of section 10.1. */
  lemma DabDispersal(framesize: nat, frame: seq<bv8>, out: seq<bv8>)
    requires Disperses(0x110, 0, 0, framesize, [frame], out)
    ensures |BitsOfAll(out)| == |BitsOfAll(frame)| == 8 * framesize
    ensures forall j | 0 <= j < 8 * framesize :: BitsOfAll(out)[j] == (BitsOfAll(frame)[j] != StandardBit(j))
  {
    DabIsStart();
    hide IsStart;
    DispersesBits(0x110, 0x1ff, 0, 0, framesize, [frame], out);
    hide BitsOfAll, StandardBit, SequenceBit, Disperses;
    forall j | 0 <= j < 8 * framesize ensures BitsOfAll(out)[j] == (BitsOfAll(frame)[j] != StandardBit(j)) {
      DabSequence(j);
      assert DispersalBit(0x110, 0x1ff, 0, 0, j) == SequenceBit(0x110, 0x1ff, j - 8 * 0);
    }
  }
}
