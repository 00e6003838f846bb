/** `ConvEncoder.cpp`: the convolutional mother code of section 11.1 of ETSI EN 300 401. */
module ConvEncoding {
  import opened Bits

  // ----- The mother code -----

  /** Bit i of the message, zero before its start and after its end. */
  function At(a: seq<bool>, i: int): bool { 0 <= i < |a| && a[i] }

  function Sum2(a: bool, b: bool): bool { a != b }

  function Sum4(a: bool, b: bool, c: bool, d: bool): bool { Sum2(Sum2(a, b), Sum2(c, d)) }

  function X0(a: seq<bool>, i: int): bool {
    Sum2(At(a, i), Sum4(At(a, i - 2), At(a, i - 3), At(a, i - 5), At(a, i - 6)))
  }

  function X1(a: seq<bool>, i: int): bool {
    Sum2(At(a, i), Sum4(At(a, i - 1), At(a, i - 2), At(a, i - 3), At(a, i - 6)))
  }

  function X2(a: seq<bool>, i: int): bool {
    Sum4(At(a, i), At(a, i - 1), At(a, i - 4), At(a, i - 6))
  }

  /** The four streams of codeword i; the fourth repeats the first. */
  function MotherWord(a: seq<bool>, i: int): (r: seq<bool>)
    ensures |r| == 4
  {
    [X0(a, i), X1(a, i), X2(a, i), X0(a, i)]
  }

  function MotherBits(a: seq<bool>, n: nat): (r: seq<bool>)
    ensures |r| == 4 * n
  {
    if n == 0 then [] else MotherBits(a, n - 1) + MotherWord(a, n - 1)
  }

  // ----- Recovering the message -----

  /** The first n message bits from the first stream alone. */
  function Decoded(bits: seq<bool>, n: nat): (a: seq<bool>)
    requires 4 * n <= |bits|
    ensures |a| == n
  {
    if n == 0 then []
    else
      var a := Decoded(bits, n - 1);
      var i := n - 1;
      a + [Sum2(bits[4 * i], Sum4(At(a, i - 2), At(a, i - 3), At(a, i - 5), At(a, i - 6)))]
  }

  lemma {:induction false} MotherBitAt(a: seq<bool>, n: nat, i: nat)
    requires i < n
    ensures MotherBits(a, n)[4 * i] == X0(a, i)
    decreases n
  {
    hide X0, X1, X2;
    if i < n - 1 {
      MotherBitAt(a, n - 1, i);
    }
  }

  /** The message can be read back from its codewords. */
  lemma {:induction false} DecodeRoundTrip(a: seq<bool>, count: nat, n: nat)
    requires n <= |a| && n <= count
    ensures Decoded(MotherBits(a, count), n) == a[..n]
    decreases n
  {
    if n > 0 {
      var i := n - 1;
      DecodeRoundTrip(a, count, i);
      MotherBitAt(a, count, i);
      Earlier(a, i);
      hide At, MotherBits;
      LastBit(a, i);
      assert a[..n] == a[..i] + [a[i]];
    }
  }

  lemma Earlier(a: seq<bool>, i: nat)
    requires i <= |a|
    ensures forall k | k < i :: At(a[..i], k) == At(a, k)
  {
  }

  lemma LastBit(a: seq<bool>, i: nat)
    requires i < |a|
    ensures Sum2(X0(a, i), Sum4(At(a, i - 2), At(a, i - 3), At(a, i - 5), At(a, i - 6))) == a[i]
  {
  }

  // ----- The parity table -----

  const EVEN: seq<bv8> := [0, 1, 1, 0, 1, 0, 0, 1, 1, 0, 0, 1, 0, 1, 1, 0]
  const ODD: seq<bv8> := [1, 0, 0, 1, 0, 1, 1, 0, 0, 1, 1, 0, 1, 0, 0, 1]

  /** The sixteen lines of the table. */
  const PARITY: seq<seq<bv8>> := [
    EVEN, ODD, ODD, EVEN, ODD, EVEN, EVEN, ODD, ODD, EVEN, EVEN, ODD, EVEN, ODD, ODD, EVEN
  ]

  function High(x: bv8): bv8 { x >> 4 }

  function Low(x: bv8): bv8 { x & 0x0f }

  /** The parity of a number below sixteen. */
  function NibbleParity(n: bv8): bool {
    Sum4(n & 8 != 0, n & 4 != 0, n & 2 != 0, n & 1 != 0)
  }

  lemma NibbleIndex(n: bv8)
    requires n < 16
    ensures Index(n) < 16
  {
  }

  function ParityLine(h: nat): (line: seq<bv8>)
    requires h < 16
    ensures |line| == 16
  {
    PARITY[h]
  }

  /** The table entry of a byte. */
  function ParityEntry(x: bv8): bv8 {
    NibbleIndex(High(x));
    NibbleIndex(Low(x));
    ParityLine(Index(High(x)))[Index(Low(x))]
  }

  function Bit(b: bool): bv8 { if b then 1 else 0 }

  lemma LiteralIndex()
    ensures Index(0) == 0 && Index(1) == 1 && Index(2) == 2 && Index(3) == 3
    ensures Index(4) == 4 && Index(5) == 5 && Index(6) == 6 && Index(7) == 7
    ensures Index(8) == 8 && Index(9) == 9 && Index(10) == 10 && Index(11) == 11
    ensures Index(12) == 12 && Index(13) == 13 && Index(14) == 14 && Index(15) == 15
  {
  }

  lemma RawNibble(n: bv8)
    requires n < 16
    ensures n == 0 || n == 1 || n == 2 || n == 3 || n == 4 || n == 5 || n == 6 || n == 7
         || n == 8 || n == 9 || n == 10 || n == 11 || n == 12 || n == 13 || n == 14 || n == 15
  {
  }

  lemma NibbleEntry(n: bv8)
    requires n < 16
    ensures Index(n) < 16
    ensures EVEN[Index(n)] == Bit(NibbleParity(n)) && ODD[Index(n)] == Bit(!NibbleParity(n))
    ensures PARITY[Index(n)] == if NibbleParity(n) then ODD else EVEN
  {
    LiteralIndex();
    RawNibble(n);
    hide Index;
  }

  lemma Nibbles(x: bv8)
    ensures High(x) < 16 && Low(x) < 16
  {
  }

  lemma ParityEntryIs(x: bv8)
    ensures ParityEntry(x) == Bit(Sum2(NibbleParity(High(x)), NibbleParity(Low(x))))
  {
    Nibbles(x);
    NibbleEntry(High(x));
    NibbleEntry(Low(x));
    hide NibbleParity, Index, High, Low, EVEN, ODD, PARITY;
  }

  // ----- The shift register -----

  /** memory >>= 1; memory |= (data >> 7) << 6 */
  function ShiftIn(m: bv16, data: bv8): bv16 { (m >> 1) | (((data >> 7) as bv16) << 6) }

  /** The register holds the last seven bits, the newest at 0x40. */
  predicate Holds(m: bv16, a: seq<bool>, i: int) {
    && m & 0xff80 == 0
    && (m & 0x40 != 0 <==> At(a, i)) && (m & 0x20 != 0 <==> At(a, i - 1)) && (m & 0x10 != 0 <==> At(a, i - 2))
    && (m & 0x08 != 0 <==> At(a, i - 3)) && (m & 0x04 != 0 <==> At(a, i - 4)) && (m & 0x02 != 0 <==> At(a, i - 5))
    && (m & 0x01 != 0 <==> At(a, i - 6))
  }

  lemma RawShiftIn(m: bv16, data: bv8)
    requires m & 0xff80 == 0
    ensures var r := (m >> 1) | (((data >> 7) as bv16) << 6);
            && r & 0xff80 == 0 && (r & 0x40 != 0 <==> data & 0x80 != 0)
            && (r & 0x20 != 0 <==> m & 0x40 != 0) && (r & 0x10 != 0 <==> m & 0x20 != 0)
            && (r & 0x08 != 0 <==> m & 0x10 != 0) && (r & 0x04 != 0 <==> m & 0x08 != 0)
            && (r & 0x02 != 0 <==> m & 0x04 != 0) && (r & 0x01 != 0 <==> m & 0x02 != 0)
  {
  }

  lemma ShiftInHolds(m: bv16, a: seq<bool>, i: int, data: bv8)
    requires Holds(m, a, i - 1) && TestBit(data, 0x80) == At(a, i)
    ensures Holds(ShiftIn(m, data), a, i)
  {
    RawShiftIn(m, data);
    hide At;
  }

  lemma EmptyHolds(a: seq<bool>)
    ensures Holds(0, a, -1)
  {
  }

  /** A byte of the register under one of the polynomials. */
  function Tapped(m: bv16, poly: bv16): bv8 { ((m & poly) & 0xff) as bv8 }

  lemma RawTapped(m: bv16, poly: bv16)
    ensures var t := ((m & poly) & 0xff) as bv8;
            && ((t >> 4) & 8 != 0 <==> m & 0x80 != 0 && poly & 0x80 != 0)
            && ((t >> 4) & 4 != 0 <==> m & 0x40 != 0 && poly & 0x40 != 0)
            && ((t >> 4) & 2 != 0 <==> m & 0x20 != 0 && poly & 0x20 != 0)
            && ((t >> 4) & 1 != 0 <==> m & 0x10 != 0 && poly & 0x10 != 0)
            && ((t & 0x0f) & 8 != 0 <==> m & 0x08 != 0 && poly & 0x08 != 0)
            && ((t & 0x0f) & 4 != 0 <==> m & 0x04 != 0 && poly & 0x04 != 0)
            && ((t & 0x0f) & 2 != 0 <==> m & 0x02 != 0 && poly & 0x02 != 0)
            && ((t & 0x0f) & 1 != 0 <==> m & 0x01 != 0 && poly & 0x01 != 0)
  {
  }

  /** The parity table turns the three masks into the three different streams. */
  lemma TapsAreStreams(m: bv16, a: seq<bool>, i: int)
    requires Holds(m, a, i)
    ensures ParityEntry(Tapped(m, 0x5b)) == Bit(X0(a, i))
    ensures ParityEntry(Tapped(m, 0x79)) == Bit(X1(a, i))
    ensures ParityEntry(Tapped(m, 0x65)) == Bit(X2(a, i))
  {
    StreamEntry(m, 0x5b);
    StreamEntry(m, 0x79);
    StreamEntry(m, 0x65);
    hide ParityEntry, Tapped, At, Bit;
  }

  /** The parity of the tapped register bits. */
  function TapSum(m: bv16, poly: bv16): bool {
    Sum2(Sum4(m & 0x80 != 0 && poly & 0x80 != 0, m & 0x40 != 0 && poly & 0x40 != 0,
              m & 0x20 != 0 && poly & 0x20 != 0, m & 0x10 != 0 && poly & 0x10 != 0),
         Sum4(m & 0x08 != 0 && poly & 0x08 != 0, m & 0x04 != 0 && poly & 0x04 != 0,
              m & 0x02 != 0 && poly & 0x02 != 0, m & 0x01 != 0 && poly & 0x01 != 0))
  }

  lemma StreamEntry(m: bv16, poly: bv16)
    ensures ParityEntry(Tapped(m, poly)) == Bit(TapSum(m, poly))
  {
    ParityEntryIs(Tapped(m, poly));
    RawTapped(m, poly);
    hide ParityEntry, Bit, Sum2;
  }

  // ----- The encoder -----

  /** out <<= 1; out |= v */
  function PushValue(x: bv8, v: bv8): bv8 { (x << 1) | v }

  lemma PushBit(x: bv8, b: bool)
    ensures PushValue(x, Bit(b)) == Push(x, b)
  {
  }

  /** The loop over the four polynomials. */
  method PushParities(poly: seq<bv8>, x0: bv8, ghost word: seq<bool>) returns (x: bv8)
    requires |poly| == |word| == 4
    requires forall k | 0 <= k < 4 :: ParityEntry(poly[k]) == Bit(word[k])
    ensures x == Pushed(x0, word)
  {
    hide *;
    x := x0;
    PushedNone(x0, word[..0]);
    for k := 0 to 4
      invariant x == Pushed(x0, word[..k])
    {
      PushNext(x0, word, k);
      PushBit(x, word[k]);
      x := PushValue(x, ParityEntry(poly[k]));
    }
    assert word[..4] == word;
  }

  lemma PushNext(x: bv8, word: seq<bool>, k: nat)
    requires k < |word|
    ensures Pushed(x, word[..k + 1]) == Push(Pushed(x, word[..k]), word[k])
  {
    hide *;
    PushedAppend(x, word[..k], [word[k]]);
    PushedOne(Pushed(x, word[..k]), word[k]);
    assert word[..k] + [word[k]] == word[..k + 1];
  }

  /** One codeword: four bits into the output byte. */
  method PutWord(memory: bv16, x0: bv8, ghost a: seq<bool>, ghost i: int) returns (x: bv8)
    requires Holds(memory, a, i)
    ensures x == Pushed(x0, MotherWord(a, i))
  {
    TapsAreStreams(memory, a, i);
    hide *;
    var poly := [Tapped(memory, 0x5b), Tapped(memory, 0x79), Tapped(memory, 0x65), Tapped(memory, 0x5b)];
    WordIs(a, i);
    x := PushParities(poly, x0, MotherWord(a, i));
  }

  lemma WordIs(a: seq<bool>, i: int)
    ensures MotherWord(a, i) == [X0(a, i), X1(a, i), X2(a, i), X0(a, i)]
  {
  }

  lemma PushedNone(x: bv8, bits: seq<bool>)
    requires bits == []
    ensures Pushed(x, bits) == x
  {
  }

  /** One output byte: two message bits from the top of data. */
  method PutByte(memory0: bv16, data0: bv8, x0: bv8, ghost a: seq<bool>, ghost i: int)
    returns (memory: bv16, data: bv8, x: bv8)
    requires Holds(memory0, a, i - 1)
    requires TestBit(data0, 0x80) == At(a, i) && TestBit(data0 << 1, 0x80) == At(a, i + 1)
    ensures Holds(memory, a, i + 1) && data == (data0 << 1) << 1
    ensures BitsOf(x) == MotherWord(a, i) + MotherWord(a, i + 1)
  {
    hide *;
    memory, data, x := memory0, data0, x0;
    ShiftInHolds(memory, a, i, data);
    memory := ShiftIn(memory, data);
    data := data << 1;
    x := PutWord(memory, x, a, i);
    ShiftInHolds(memory, a, i + 1, data);
    memory := ShiftIn(memory, data);
    data := data << 1;
    x := PutWord(memory, x, a, i + 1);
    PushedAppend(x0, MotherWord(a, i), MotherWord(a, i + 1));
    PushedEight(x0, MotherWord(a, i) + MotherWord(a, i + 1));
  }

  lemma ByteAppends(bytes: seq<bv8>, x: bv8, a: seq<bool>, n: nat)
    requires BitsOfAll(bytes) == MotherBits(a, 2 * n)
    requires BitsOf(x) == MotherWord(a, 2 * n) + MotherWord(a, 2 * n + 1)
    ensures BitsOfAll(bytes + [x]) == MotherBits(a, 2 * (n + 1))
  {
    hide MotherWord, BitsOf;
    BitsOfAllAppend(bytes, [x]);
    BitsOfOne(x);
    hide BitsOfAll;
    var m := MotherBits(a, 2 * n);
    assert MotherBits(a, 2 * n + 1) == m + MotherWord(a, 2 * n);
    assert MotherBits(a, 2 * n + 2) == (m + MotherWord(a, 2 * n)) + MotherWord(a, 2 * n + 1);
    assert m + (MotherWord(a, 2 * n) + MotherWord(a, 2 * n + 1)) == (m + MotherWord(a, 2 * n)) + MotherWord(a, 2 * n + 1);
  }

  /** The top bit of the shifted input byte is the next message bit. */
  lemma MessageBit(dataIn: seq<bv8>, c: nat, n: nat)
    requires c < |dataIn| && n < 8
    ensures TestBit(ShiftedLeft(dataIn[c], n), 0x80) == At(BitsOfAll(dataIn), 8 * c + n)
  {
    hide TestBit, ShiftedLeft, BitsOf, BitsOfAll;
    TopAfterShifts(dataIn[c], n);
    BitAt(dataIn, c, n);
  }

  lemma ShiftNext(x: bv8, n: nat)
    ensures ShiftedLeft(x, n + 1) == ShiftedLeft(x, n) << 1 && ShiftedLeft(x, 0) == x
  {
  }

  lemma {:induction false} TailBit(dataIn: seq<bv8>, i: int)
    requires i >= 8 * |dataIn|
    ensures !At(BitsOfAll(dataIn), i) && !TestBit(0, 0x80) && (0 as bv8) << 1 == 0
  {
    BitsOfAllLength(dataIn);
  }

  /** The four output bytes of input byte c. */
  method EncodeByte(dataIn: seq<bv8>, c: nat, memory0: bv16, out: array<bv8>) returns (memory: bv16)
    requires c < |dataIn| && 4 * c + 4 <= out.Length
    requires Holds(memory0, BitsOfAll(dataIn), 8 * c - 1)
    requires BitsOfAll(out[..4 * c]) == MotherBits(BitsOfAll(dataIn), 8 * c)
    modifies out
    ensures Holds(memory, BitsOfAll(dataIn), 8 * c + 7)
    ensures BitsOfAll(out[..4 * c + 4]) == MotherBits(BitsOfAll(dataIn), 8 * c + 8)
  {
    hide *;
    ghost var a := BitsOfAll(dataIn);
    memory := memory0;
    var data := dataIn[c];
    ShiftNext(dataIn[c], 0);
    var offset := 4 * c;
    for k := 0 to 4
      invariant offset == 4 * c + k && data == ShiftedLeft(dataIn[c], 2 * k)
      invariant Holds(memory, a, 2 * offset - 1)
      invariant BitsOfAll(out[..offset]) == MotherBits(a, 2 * offset)
    {
      MessageBit(dataIn, c, 2 * k);
      MessageBit(dataIn, c, 2 * k + 1);
      ShiftNext(dataIn[c], 2 * k);
      ShiftNext(dataIn[c], 2 * k + 1);
      var x: bv8;
      memory, data, x := PutByte(memory, data, 0, a, 2 * offset);
      ByteAppends(out[..offset], x, a, offset);
      out[offset] := x;
      assert out[..offset + 1] == out[..offset] + [x];
      offset := offset + 1;
    }
  }

  /** A whole frame: the message, then six zero bits. */
  method EncodeFrame(dataIn: seq<bv8>, out: array<bv8>)
    requires out.Length == 4 * |dataIn| + 3
    modifies out
    ensures BitsOfAll(out[..]) == MotherBits(BitsOfAll(dataIn), 8 * |dataIn| + 6)
  {
    hide *;
    ghost var a := BitsOfAll(dataIn);
    var memory: bv16 := 0;
    EmptyHolds(a);
    NothingYet(a, out[..0]);
    for c := 0 to |dataIn|
      invariant Holds(memory, a, 8 * c - 1)
      invariant BitsOfAll(out[..4 * c]) == MotherBits(a, 8 * c)
    {
      memory := EncodeByte(dataIn, c, memory, out);
    }
    var offset := 4 * |dataIn|;
    for pad := 0 to 3
      invariant offset == 4 * |dataIn| + pad
      invariant Holds(memory, a, 2 * offset - 1)
      invariant BitsOfAll(out[..offset]) == MotherBits(a, 2 * offset)
    {
      TailBit(dataIn, 2 * offset);
      TailBit(dataIn, 2 * offset + 1);
      var x, data: bv8;
      memory, data, x := PutByte(memory, 0, 0, a, 2 * offset);
      ByteAppends(out[..offset], x, a, offset);
      out[offset] := x;
      assert out[..offset + 1] == out[..offset] + [x];
      offset := offset + 1;
    }
    assert out[..offset] == out[..];
  }

  lemma NothingYet(a: seq<bool>, bytes: seq<bv8>)
    requires bytes == []
    ensures BitsOfAll(bytes) == MotherBits(a, 0)
  {
  }

  class ConvEncoder {
    const framesize: nat

    constructor (framesize: nat)
      ensures this.framesize == framesize
    {
      this.framesize := framesize;
    }

    /** process; false when the input has not the frame size (the source throws). */
    method Process(dataIn: seq<bv8>, out: array<bv8>) returns (ok: bool)
      requires out.Length == 4 * framesize + 3
      modifies out
      ensures ok <==> |dataIn| == framesize
      ensures ok ==> BitsOfAll(out[..]) == MotherBits(BitsOfAll(dataIn), 8 * framesize + 6)
      ensures !ok ==> out[..] == old(out[..])
    {
      var inBlock, outBlock := framesize, 4 * framesize + 3;
      if |dataIn| != inBlock {
        return false;
      }
      var inOffset, outOffset := 0, 0;
      while |dataIn| - inOffset >= inBlock && out.Length - outOffset >= outBlock
        invariant (inOffset == 0 && outOffset == 0) || (inOffset == inBlock && outOffset == outBlock)
        invariant outOffset == outBlock ==> BitsOfAll(out[..]) == MotherBits(BitsOfAll(dataIn), 8 * framesize + 6)
        decreases outBlock - outOffset
      {
        EncodeFrame(dataIn, out);
        inOffset, outOffset := inBlock, outBlock;
      }
      return true;
    }
  }

  /** What a receiver can read back from an encoded frame: the frame itself. */
  lemma {:induction false} FrameRecoverable(frame: seq<bv8>, encoded: seq<bv8>)
    requires BitsOfAll(encoded) == MotherBits(BitsOfAll(frame), 8 * |frame| + 6)
    ensures 4 * (8 * |frame|) <= |BitsOfAll(encoded)|
    ensures Decoded(BitsOfAll(encoded), 8 * |frame|) == BitsOfAll(frame)
  {
    BitsOfAllLength(frame);
    hide *;
    DecodeRoundTrip(BitsOfAll(frame), 8 * |frame| + 6, 8 * |frame|);
    assert BitsOfAll(frame)[..8 * |frame|] == BitsOfAll(frame);
  }
}
