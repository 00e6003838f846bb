/** checkCRC of `FigParser.cpp`: with an odd polynomial it rejects every codeword
    changed by a non-zero burst of at most 16 bits, wherever the burst lies. */
module FibCheck {
  import opened Bits
  import opened Crc16
  import opened Crc16Table

  // ----- Running the register backwards -----

  predicate Odd(poly: bv16) { poly & 1 == 1 }

  predicate Even(c: bv16) { c & 1 == 0 }

  function Top(b: bool): bv16 { if b then 0x8000 else 0 }

  function Halved(c: bv16): bv16 { c >> 1 }

  lemma FeedbackIsOdd(c: bv16, poly: bv16)
    requires Odd(poly)
    ensures !Even(Xor(Shl(c), poly)) && Even(Shl(c))
  {
  }

  /** The top bit and the shifted rest determine the register. */
  lemma Unshift(c: bv16)
    ensures c == Xor(Top(Msb(c)), Halved(Shl(c)))
  {
    hide *;
    TopOfMsb(c);
    ShiftedBack(c);
    RawUnshift(c, Top(Msb(c)), Halved(Shl(c)));
    XorIs(Top(Msb(c)), Halved(Shl(c)));
  }

  lemma TopOfMsb(c: bv16)
    ensures Top(Msb(c)) == c & 0x8000
  {
    RawTopBit(c);
  }

  lemma RawTopBit(c: bv16)
    ensures c & 0x8000 == 0 || c & 0x8000 == 0x8000
  {
  }

  lemma ShiftedBack(c: bv16)
    ensures Halved(Shl(c)) == (c << 1) >> 1
  {
  }

  lemma XorIs(a: bv16, b: bv16)
    ensures Xor(a, b) == a ^ b
  {
  }

  lemma RawUnshift(c: bv16, t: bv16, s: bv16)
    requires t == c & 0x8000 && s == (c << 1) >> 1
    ensures c == t ^ s
  {
  }

  /** An even register was reached without feedback, so its predecessor is known. */
  lemma StepBack(poly: bv16, c: bv16, b: bool)
    requires Odd(poly) && Even(StepBit(poly, c, b))
    ensures c == Xor(Top(b), Halved(StepBit(poly, c, b)))
  {
    hide Odd, Even, Xor, Shl, Halved, Top, Msb;
    FeedbackIsOdd(c, poly);
    Unshift(c);
  }

  /** With an odd polynomial the register loses no information. */
  lemma StepInjective(poly: bv16, c: bv16, d: bv16, b: bool)
    requires Odd(poly) && StepBit(poly, c, b) == StepBit(poly, d, b)
    ensures c == d
  {
    hide Odd, Even, Xor, Shl, Halved, Top, Msb;
    FeedbackIsOdd(c, poly);
    FeedbackIsOdd(d, poly);
    Unshift(c);
    Unshift(d);
    XorAssoc(Shl(c), poly, poly);
    XorAssoc(Shl(d), poly, poly);
    XorSelf(poly);
    XorSelf(Shl(c));
    XorSelf(Shl(d));
  }

  lemma {:induction false} RunInjective(poly: bv16, c: bv16, d: bv16, bits: seq<bool>)
    requires Odd(poly) && RunBits(poly, c, bits) == RunBits(poly, d, bits)
    ensures c == d
    decreases bits
  {
    hide StepBit, Odd;
    if bits != [] {
      RunInjective(poly, StepBit(poly, c, bits[0]), StepBit(poly, d, bits[0]), bits[1..]);
      StepInjective(poly, c, d, bits[0]);
    }
  }

  /** The low n bits. */
  function LowMask(n: nat): bv16 {
    if n == 0 then 0 else if n == 1 then 1 else if n == 2 then 3 else if n == 3 then 7 else if n == 4 then 0xf
    else if n == 5 then 0x1f else if n == 6 then 0x3f else if n == 7 then 0x7f else if n == 8 then 0xff
    else if n == 9 then 0x1ff else if n == 10 then 0x3ff else if n == 11 then 0x7ff else if n == 12 then 0xfff
    else if n == 13 then 0x1fff else if n == 14 then 0x3fff else if n == 15 then 0x7fff else 0xffff
  }

  lemma RawMask(v: bv16, m: bv16, t: bv16)
    requires v & ((m << 1) | 1) == 0 && m & 0x8000 == 0 && (t == 0 || t == 0x8000)
    ensures (t ^ (v >> 1)) & m == 0 && v & 1 == 0
  {
  }

  predicate Masked(c: bv16, m: bv16) { c & m == 0 }

  predicate MaskAbove(m: bv16, above: bv16) { above == (m << 1) | 1 && m & 0x8000 == 0 }

  predicate LowClear(c: bv16, n: nat) { Masked(c, LowMask(n)) }

  lemma MaskStep(n: nat)
    requires n <= 15
    ensures MaskAbove(LowMask(n), LowMask(n + 1))
  {
  }

  lemma ShiftInMask(v: bv16, m: bv16, above: bv16, b: bool)
    requires MaskAbove(m, above) && Masked(v, above)
    ensures Masked(Xor(Top(b), Halved(v)), m) && Even(v)
  {
    RawMask(v, m, if b then 0x8000 else 0);
  }

  lemma ShiftIn(v: bv16, n: nat, b: bool)
    requires n <= 15 && LowClear(v, n + 1)
    ensures LowClear(Xor(Top(b), Halved(v)), n) && Even(v)
  {
    hide LowMask, Masked, MaskAbove, Xor, Top, Halved, Even;
    MaskStep(n);
    ShiftInMask(v, LowMask(n), LowMask(n + 1), b);
  }

  /** The message bits aligned with the top of the register. */
  function Load(w: seq<bool>): bv16 {
    if w == [] then 0 else Xor(Top(w[0]), Halved(Load(w[1..])))
  }

  lemma {:induction false} LoadLowClear(w: seq<bool>)
    requires |w| <= 16
    ensures LowClear(Load(w), 16 - |w|)
    decreases w
  {
    hide LowMask, Xor, Halved, Top, LowClear;
    if w == [] {
      ZeroLowClear();
    } else {
      LoadLowClear(w[1..]);
      ShiftIn(Load(w[1..]), 16 - |w|, w[0]);
    }
  }

  lemma ZeroLowClear()
    ensures LowClear(0, 16)
  {
  }

  /** At most 16 bits bring the register to zero only from their own image. */
  lemma {:induction false} BackFromZero(poly: bv16, c: bv16, w: seq<bool>)
    requires Odd(poly) && |w| <= 16 && RunBits(poly, c, w) == 0
    ensures c == Load(w)
    decreases w
  {
    hide LowMask, Xor, Halved, Top, LowClear, Odd, Even, StepBit;
    if w != [] {
      BackFromZero(poly, StepBit(poly, c, w[0]), w[1..]);
      LoadLowClear(w[1..]);
      ShiftIn(Load(w[1..]), 16 - |w|, w[0]);
      StepBack(poly, c, w[0]);
    }
  }

  lemma RawTop(v: bv16)
    ensures 0x8000 ^ (v >> 1) != 0
  {
  }

  lemma LoadNonZero(w: seq<bool>)
    requires w != [] && w[0]
    ensures Load(w) != 0
  {
    RawTop(Load(w[1..]));
  }

  lemma WindowNonZero(poly: bv16, w: seq<bool>)
    requires Odd(poly) && 1 <= |w| <= 16 && w[0]
    ensures RunBits(poly, 0, w) != 0
  {
    LoadNonZero(w);
    hide Odd, RunBits, Load;
    if RunBits(poly, 0, w) == 0 {
      BackFromZero(poly, 0, w);
    }
  }

  // ----- Bursts -----

  /** All ones of e lie within 16 consecutive positions, starting with a one. */
  ghost predicate BurstAt(e: seq<bool>, s: int, len: int) {
    && 0 <= s && 1 <= len <= 16 && s + len <= |e| && e[s]
    && forall i | 0 <= i < |e| && !(s <= i < s + len) :: !e[i]
  }

  ghost predicate IsBurst(e: seq<bool>) {
    exists s, len :: BurstAt(e, s, len)
  }

  lemma {:induction false} ZerosKeepZero(poly: bv16, n: nat)
    ensures RunBits(poly, 0, Zeros(n)) == 0
  {
    ZeroStays(poly);
    hide StepBit;
    if n > 0 {
      ZerosKeepZero(poly, n - 1);
      assert Zeros(n)[1..] == Zeros(n - 1);
    }
  }

  lemma ZeroStays(poly: bv16)
    ensures StepBit(poly, 0, false) == 0
  {
  }

  /** A burst leaves a non-zero register. */
  lemma BurstRemains(poly: bv16, e: seq<bool>)
    requires Odd(poly) && IsBurst(e)
    ensures RunBits(poly, 0, e) != 0
  {
    hide Odd, RunBits;
    var s, len :| BurstAt(e, s, len);
    var w, r := e[s..s + len], |e| - s - len;
    assert e == Zeros(s) + (w + Zeros(r));
    RunAppend(poly, 0, Zeros(s), w + Zeros(r));
    ZerosKeepZero(poly, s);
    RunAppend(poly, 0, w, Zeros(r));
    WindowNonZero(poly, w);
    if RunBits(poly, RunBits(poly, 0, w), Zeros(r)) == 0 {
      ZerosKeepZero(poly, r);
      RunInjective(poly, RunBits(poly, 0, w), 0, Zeros(r));
    }
  }

  // ----- The check -----

  /** read_16b */
  function CrcWord(hi: bv8, lo: bv8): bv16 { ((hi as bv16) << 8) | (lo as bv16) }

  /** The received CRC is the complement of the register after the data, from 0xffff. */
  ghost predicate Accepts(poly: bv16, buf: seq<bv8>)
    requires |buf| >= 2
  {
    var n := |buf| - 2;
    CrcWord(buf[n], buf[n + 1]) == Xor(RunBits(poly, 0xffff, BitsOfAll(buf[..n])), 0xffff)
  }

  lemma WordSplits(hi: bv8, lo: bv8)
    ensures CrcWord(hi, lo) == Xor(OnTop(hi), lo as bv16) && (lo as bv16) & 0xff00 == 0 && (lo as bv16) << 8 == OnTop(lo)
  {
  }

  /** Feeding a register its own contents empties it. */
  lemma WordCancels(poly: bv16, hi: bv8, lo: bv8)
    ensures RunBits(poly, CrcWord(hi, lo), BitsOf(hi) + BitsOf(lo)) == 0
  {
    WordSplits(hi, lo);
    hide RunBits, Xor, OnTop, TestBit, CrcWord;
    var z := BitsOf(0);
    assert XorBits(BitsOf(hi), z) == BitsOf(hi) by { ZeroBits(); }
    RunLinear(poly, OnTop(hi), lo as bv16, BitsOf(hi), z);
    OnTopCancels(poly, hi);
    LowByteShifts(poly, lo as bv16);
    XorComm(0, OnTop(lo));
    XorSelf(OnTop(lo));
    RunAppend(poly, CrcWord(hi, lo), BitsOf(hi), BitsOf(lo));
    OnTopCancels(poly, lo);
  }

  lemma ZeroBits()
    ensures BitsOf(0) == Zeros(8)
  {
    forall i ensures !TestBit(0, Mask(i)) {
      RawZero(Mask(i));
    }
  }

  lemma RawZero(m: bv8)
    ensures 0 & m == 0
  {
  }

  lemma SplitTail(buf: seq<bv8>)
    requires |buf| >= 2
    ensures var n := |buf| - 2;
            && BitsOfAll(buf) == BitsOfAll(buf[..n]) + (BitsOf(buf[n]) + BitsOf(buf[n + 1]))
            && |BitsOfAll(buf[..n])| == 8 * n && |BitsOfAll(buf)| == 8 * n + 16
  {
    hide BitsOf;
    var n := |buf| - 2;
    assert buf == buf[..n] + ([buf[n]] + [buf[n + 1]]);
    BitsOfAllAppend(buf[..n], [buf[n]] + [buf[n + 1]]);
    BitsOfAllAppend([buf[n]], [buf[n + 1]]);
    assert BitsOfAll([buf[n]]) == BitsOf(buf[n]) && BitsOfAll([buf[n + 1]]) == BitsOf(buf[n + 1]);
    BitsOfAllLength(buf[..n]);
  }

  /** Two accepted codewords differ by an error pattern that empties the register. */
  lemma AcceptedDifference(poly: bv16, a: seq<bv8>, b: seq<bv8>)
    requires |a| == |b| >= 2 && Accepts(poly, a) && Accepts(poly, b)
    ensures |BitsOfAll(a)| == |BitsOfAll(b)|
    ensures RunBits(poly, 0, XorBits(BitsOfAll(a), BitsOfAll(b))) == 0
  {
    hide RunBits, Xor, BitsOf, CrcWord, BitsOfAll;
    var n := |a| - 2;
    SplitTail(a);
    SplitTail(b);
    var da, db := BitsOfAll(a[..n]), BitsOfAll(b[..n]);
    var ta, tb := BitsOf(a[n]) + BitsOf(a[n + 1]), BitsOf(b[n]) + BitsOf(b[n + 1]);
    var wa, wb := CrcWord(a[n], a[n + 1]), CrcWord(b[n], b[n + 1]);
    assert XorBits(BitsOfAll(a), BitsOfAll(b)) == XorBits(da, db) + XorBits(ta, tb);
    RunAppend(poly, 0, XorBits(da, db), XorBits(ta, tb));
    RunLinear(poly, 0xffff, 0xffff, da, db);
    XorSelf(0xffff);
    assert RunBits(poly, 0, XorBits(da, db)) == Xor(wa, wb) by {
      var ra, rb := RunBits(poly, 0xffff, da), RunBits(poly, 0xffff, db);
      XorRegroup(ra, rb, 0xffff);
    }
    RunLinear(poly, wa, wb, ta, tb);
    WordCancels(poly, a[n], a[n + 1]);
    WordCancels(poly, b[n], b[n + 1]);
    XorSelf(0);
  }

  /** No non-zero burst of up to 16 bits turns an accepted codeword into another one,
      even across the boundary between data and CRC. */
  lemma {:induction false} BurstDetected(poly: bv16, a: seq<bv8>, b: seq<bv8>)
    requires Odd(poly) && |a| == |b| >= 2 && |BitsOfAll(a)| == |BitsOfAll(b)|
    requires Accepts(poly, a) && IsBurst(XorBits(BitsOfAll(a), BitsOfAll(b)))
    ensures !Accepts(poly, b)
  {
    hide *;
    BurstRemains(poly, XorBits(BitsOfAll(a), BitsOfAll(b)));
    if Accepts(poly, b) {
      AcceptedDifference(poly, a, b);
    }
  }

  lemma CcittOdd()
    ensures Odd(CCITT)
  {
  }

  /** buf is the sent codeword with a non-zero burst of at most 16 bits added to it. */
  ghost predicate ChangedByBurst(sent: seq<bv8>, buf: seq<bv8>) {
    |sent| == |buf| && |BitsOfAll(sent)| == |BitsOfAll(buf)| && IsBurst(XorBits(BitsOfAll(sent), BitsOfAll(buf)))
  }

  /** checkCRC; every caller passes at least the two CRC bytes. */
  method CheckCrc(buf: seq<bv8>) returns (ok: bool)
    requires |buf| >= 2
    ensures ok <==> Accepts(CCITT, buf)
    ensures forall sent | ChangedByBurst(sent, buf) && Accepts(CCITT, sent) :: !ok
  {
    hide RunBits, Xor, CrcWord, StaticTable, IsTable;
    StaticTableIsTable();
    var crcFromPacket := CrcWord(buf[|buf| - 2], buf[|buf| - 1]);
    var crcCalc := Compute(StaticTable(), 0xffff, buf[..|buf| - 2], CCITT);
    crcCalc := Xor(crcCalc, 0xffff);
    ok := crcFromPacket == crcCalc;
    forall sent | ChangedByBurst(sent, buf) && Accepts(CCITT, sent) ensures !ok {
      CcittOdd();
      BurstDetected(CCITT, sent, buf);
    }
  }
}
