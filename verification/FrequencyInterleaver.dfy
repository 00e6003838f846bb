/** `FrequencyInterleaver`: section 14.6 of ETSI EN 300 401. The carrier order is
    the orbit of a linear congruential generator modulo a power of two, with the
    residues outside the signal band and the centre left out. */
module FrequencyInterleaving {
  import opened Integers
  import opened Permutations
  import opened Lcg

  datatype Result<T> = Ok(value: T) | Err(message: string)

  const ALPHA := 13

  datatype ModeParameters = ModeParameters(carriers: nat, num: nat, beta: nat)

  /** The constants of the transmission modes; any other mode is refused. */
  function ParametersOf(mode: nat): Result<ModeParameters> {
    if mode == 1 then Ok(ModeParameters(1536, 2048, 511))
    else if mode == 2 then Ok(ModeParameters(384, 512, 127))
    else if mode == 3 then Ok(ModeParameters(192, 256, 63))
    else if mode == 0 || mode == 4 then Ok(ModeParameters(768, 1024, 255))
    else Err("FrequencyInterleaver: invalid dab mode")
  }

  /** The FFT size of each mode: 2048, 512, 256 and 1024 bins for modes I to IV. */
  function BinsOf(mode: nat): nat {
    if mode == 1 then 2048 else if mode == 2 then 512 else if mode == 3 then 256 else 1024
  }

  /** num == 2^k, three quarters of the residues carry signal, beta == num/4 - 1. */
  ghost predicate IsBand(p: ModeParameters, k: nat) {
    && k >= 3 && p.num == Pow2(k)
    && p.carriers == 3 * (p.num / 4) && p.beta == p.num / 4 - 1
  }

  lemma ModesAreBands(mode: nat)
    ensures ParametersOf(mode).Ok? <==> mode <= 4
    ensures mode == 1 ==> ParametersOf(mode).value == ModeParameters(1536, 2048, 511)
    ensures mode == 2 ==> ParametersOf(mode).value == ModeParameters(384, 512, 127)
    ensures mode == 3 ==> ParametersOf(mode).value == ModeParameters(192, 256, 63)
    ensures mode == 0 || mode == 4 ==> ParametersOf(mode).value == ModeParameters(768, 1024, 255)
    ensures mode <= 4 ==> exists k :: IsBand(ParametersOf(mode).value, k)
    ensures mode <= 4 ==> ParametersOf(mode).value.carriers % 4 == 0
  {
    assert Pow2(4) == 16;
    assert Pow2(8) == 256;
    assert Pow2(11) == 2048;
    if mode <= 4 {
      var k := if mode == 1 then 11 else if mode == 2 then 9 else if mode == 3 then 8 else 10;
      assert IsBand(ParametersOf(mode).value, k);
    }
  }

  /** The residue belongs to a used carrier. */
  predicate Kept(p: ModeParameters, perm: int) {
    && (p.num - p.carriers) / 2 <= perm <= p.num - (p.num - p.carriers) / 2
    && perm != p.num / 2
  }

  /** The FFT bin order: positive carriers first, then the negative ones. */
  function Position(p: ModeParameters, perm: int): int {
    if perm > p.num / 2 then perm - (1 + p.num / 2) else perm + (p.carriers - p.num / 2)
  }

  /** All sizes of a band are multiples of an eighth of num. */
  lemma BandShape(p: ModeParameters, k: nat)
    requires IsBand(p, k)
    ensures var h := Pow2(k - 3);
            && p.num == 8 * h && p.carriers == 6 * h && p.beta == 2 * h - 1
            && p.num / 2 == 4 * h && (p.num - p.carriers) / 2 == h && p.carriers / 2 == 3 * h
  {
    assert Pow2(k) == 2 * Pow2(k - 1) == 4 * Pow2(k - 2) == 8 * Pow2(k - 3);
  }

  /** In the standard's terms: with F(n) = d_n - num/2 the signed carrier number
      of a kept residue, the position is F-1 for positive and F+carriers for negative F. */
  lemma PositionOfCarrier(p: ModeParameters, k: nat, perm: int)
    requires IsBand(p, k) && Kept(p, perm)
    ensures var f := perm - p.num / 2;
            && f != 0 && -(p.carriers / 2) <= f <= p.carriers / 2
            && Position(p, perm) == (if f > 0 then f - 1 else f + p.carriers)
            && 0 <= Position(p, perm) < p.carriers
  {
    hide IsBand, Pow2;
    BandShape(p, k);
  }

  /** The residue whose position is v. */
  function ResidueAt(p: ModeParameters, v: int): int {
    if v < p.carriers / 2 then v + 1 + p.num / 2 else v - (p.carriers - p.num / 2)
  }

  /** Every position is that of exactly one kept residue. */
  lemma PositionBijective(p: ModeParameters, k: nat, v: int)
    requires IsBand(p, k) && 0 <= v < p.carriers
    ensures 0 < ResidueAt(p, v) < p.num && Kept(p, ResidueAt(p, v)) && Position(p, ResidueAt(p, v)) == v
    ensures forall s | Kept(p, s) && Position(p, s) == v :: s == ResidueAt(p, v)
  {
    hide IsBand, Pow2;
    BandShape(p, k);
  }

  function Residue(p: ModeParameters, j: nat): nat
    requires p.num > 0
  {
    State(ALPHA, p.beta, p.num, j)
  }

  /** What the constructor has written after the iterations 1..j. */
  function Generated(p: ModeParameters, j: nat): seq<int>
    requires p.num > 0
  {
    if j == 0 then []
    else Generated(p, j - 1) + if Kept(p, Residue(p, j)) then [Position(p, Residue(p, j))] else []
  }

  lemma {:induction false} GeneratedMembers(p: ModeParameters, j: nat, v: int)
    requires p.num > 0
    ensures v in Generated(p, j)
       <==> exists i :: 1 <= i <= j && Kept(p, Residue(p, i)) && Position(p, Residue(p, i)) == v
  {
    if j > 0 {
      GeneratedMembers(p, j - 1, v);
    }
  }

  lemma OddIncrement(p: ModeParameters, k: nat)
    requires IsBand(p, k)
    ensures p.beta % 2 == 1 && p.num == Pow2(k)
  {
    BandShape(p, k);
  }

  lemma ResiduesDiffer(p: ModeParameters, k: nat, i: nat, j: nat)
    requires IsBand(p, k) && i < j < p.num
    ensures Residue(p, i) != Residue(p, j)
  {
    OddIncrement(p, k);
    NoRepeat(ALPHA, p.beta, k, i, j);
  }

  /** No position is written twice, so the index array never overflows. */
  lemma {:induction false} GeneratedDistinct(p: ModeParameters, k: nat, j: nat)
    requires IsBand(p, k) && j < p.num
    ensures Distinct(Generated(p, j)) && InRange(Generated(p, j), p.carriers)
    ensures |Generated(p, j)| <= p.carriers
  {
    if j > 0 {
      GeneratedDistinct(p, k, j - 1);
      var r := Residue(p, j);
      if Kept(p, r) {
        PositionOfCarrier(p, k, r);
        NewPosition(p, k, j);
        hide IsBand, Kept, Position, Residue;
      }
    }
    DistinctBelow(Generated(p, j), p.carriers);
  }

  lemma NewPosition(p: ModeParameters, k: nat, j: nat)
    requires IsBand(p, k) && 0 < j < p.num && Kept(p, Residue(p, j))
    ensures Position(p, Residue(p, j)) !in Generated(p, j - 1)
  {
    var v := Position(p, Residue(p, j));
    PositionOfCarrier(p, k, Residue(p, j));
    GeneratedMembers(p, j - 1, v);
    hide IsBand, Kept, Position, Residue, Generated;
    if v in Generated(p, j - 1) {
      var i :| 1 <= i <= j - 1 && Kept(p, Residue(p, i)) && Position(p, Residue(p, i)) == v;
      PositionBijective(p, k, v);
      ResiduesDiffer(p, k, i, j);
      assert false;
    }
  }

  /** The generator reaches every kept residue: the indices are a permutation of the carriers. */
  lemma IndicesArePermutation(p: ModeParameters, k: nat)
    requires IsBand(p, k)
    ensures IsPermutation(Generated(p, p.num - 1), p.carriers)
  {
    BandShape(p, k);
    GeneratedDistinct(p, k, p.num - 1);
    OddIncrement(p, k);
    FullPeriod(ALPHA, p.beta, k);
    var orbit := States(ALPHA, p.beta, p.num, p.num);
    var all := Generated(p, p.num - 1);
    forall v: int | 0 <= v < p.carriers ensures v in all {
      PositionBijective(p, k, v);
      var r := ResidueAt(p, v);
      assert r in orbit;
      var i :| 0 <= i < p.num && orbit[i] == r;
      assert Residue(p, i) == r;
      GeneratedMembers(p, p.num - 1, v);
    }
    CoverFills(all, p.carriers);
  }

  // ----- The rule of the standard, in its own terms -----

  /** The sequence of section 14.6 for num bins: from 0, 13 times the element before plus
      num/4 - 1, modulo num. */
  ghost predicate IsStandardSequence(d: seq<int>, num: nat) {
    && |d| == num > 0 && d[0] == 0
    && forall j | 0 < j < num :: d[j] == (13 * d[j - 1] + num / 4 - 1) % num
  }

  /** The elements from num/8 to 7*num/8 other than num/2, each as the bin of the carrier
      F = d - num/2: positive carriers from 0 on, then the negative ones. */
  ghost function StandardOrder(d: seq<int>, num: nat): seq<int> {
    if d == [] then []
    else
      var last := d[|d| - 1];
      StandardOrder(d[..|d| - 1], num)
      + if num / 8 <= last <= 7 * num / 8 && last != num / 2
        then [if last > num / 2 then last - num / 2 - 1 else last - num / 2 + 3 * num / 4]
        else []
  }

  ghost function Residues(p: ModeParameters, j: nat): (d: seq<int>)
    requires p.num > 0
    ensures |d| == j
  {
    seq(j, i requires 0 <= i < j => Residue(p, i))
  }

  lemma ResiduesAreStandard(p: ModeParameters, k: nat)
    requires IsBand(p, k)
    ensures IsStandardSequence(Residues(p, p.num), p.num)
  {
    var d := Residues(p, p.num);
    forall j | 0 < j < p.num ensures d[j] == (13 * d[j - 1] + p.num / 4 - 1) % p.num {
      assert d[j] == Residue(p, j) && d[j - 1] == Residue(p, j - 1);
    }
  }

  lemma {:induction false} GeneratedIsStandard(p: ModeParameters, k: nat, j: nat)
    requires IsBand(p, k)
    ensures Generated(p, j) == StandardOrder(Residues(p, j + 1), p.num)
    decreases j
  {
    BandShape(p, k);
    var d := Residues(p, j + 1);
    assert d[..j] == Residues(p, j);
    if j > 0 {
      GeneratedIsStandard(p, k, j - 1);
      assert d[j] == Residue(p, j);
    } else {
      assert d[..0] == [];
    }
  }

  /** The indices of each mode follow the rule of the standard. */
  ghost predicate FollowsStandard(indices: seq<int>, mode: nat) {
    exists d :: IsStandardSequence(d, BinsOf(mode)) && indices == StandardOrder(d, BinsOf(mode))
  }

  /** The index loop of the constructor. `& (num - 1)` is `% num` for a power of two. */
  method FillIndices(p: ModeParameters, indices: array<int>, ghost k: nat)
    requires IsBand(p, k) && indices.Length == p.carriers
    modifies indices
    ensures indices[..] == Generated(p, p.num - 1)
    ensures exists d :: IsStandardSequence(d, p.num) && indices[..] == StandardOrder(d, p.num)
    ensures IsPermutation(indices[..], p.carriers)
  {
    BandShape(p, k);
    var index, perm := 0, 0;
    for j := 1 to p.num
      invariant perm == Residue(p, j - 1)
      invariant 0 <= index <= p.carriers && indices[..index] == Generated(p, j - 1)
    {
      GeneratedDistinct(p, k, j);
      perm := (ALPHA * perm + p.beta) % p.num;
      if perm >= (p.num - p.carriers) / 2 && perm <= p.num - (p.num - p.carriers) / 2 && perm != p.num / 2 {
        indices[index] := if perm > p.num / 2 then perm - (1 + p.num / 2) else perm + (p.carriers - p.num / 2);
        index := index + 1;
      }
    }
    IndicesArePermutation(p, k);
    assert indices[..index] == indices[..];
    GeneratedIsStandard(p, k, p.num - 1);
    ResiduesAreStandard(p, k);
  }

  /** Output position of input sample i: block i / carriers, carrier indices[i % carriers]. */
  function Target(indices: seq<int>, i: nat): int
    requires |indices| > 0
  {
    i / |indices| * |indices| + indices[i % |indices|]
  }

  /** Every block of the output is the permuted block of the input. */
  ghost predicate Interleaved<T>(indices: seq<int>, dataIn: seq<T>, dataOut: seq<T>)
    requires |indices| > 0
  {
    && |dataOut| == |dataIn|
    && forall i | 0 <= i < |dataIn| ::
         0 <= Target(indices, i) < |dataOut| && dataOut[Target(indices, i)] == dataIn[i]
  }

  /** The first j samples of the block from `out` on are in their places. */
  ghost predicate Scattered<T>(perm: seq<int>, x: seq<T>, now: seq<T>, out: nat, j: nat) {
    && out + |perm| <= |x| == |now| && j <= |perm|
    && forall s | 0 <= s < j :: 0 <= perm[s] < |perm| && now[out + perm[s]] == x[out + s]
  }

  /** The four samples from j on are written to their places. */
  ghost predicate FourWritten<T>(perm: seq<int>, x: seq<T>, was: seq<T>, next: seq<T>, out: nat, j: nat) {
    && out + |perm| <= |x| == |was| && j + 4 <= |perm| && (forall s | 0 <= s < |perm| :: 0 <= perm[s] < |perm|)
    && next == was[out + perm[j] := x[out + j]][out + perm[j + 1] := x[out + j + 1]]
                  [out + perm[j + 2] := x[out + j + 2]][out + perm[j + 3] := x[out + j + 3]]
  }

  lemma ScatterStep<T>(perm: seq<int>, x: seq<T>, was: seq<T>, next: seq<T>, out: nat, j: nat)
    requires Scattered(perm, x, was, out, j) && Distinct(perm) && FourWritten(perm, x, was, next, out, j)
    ensures Scattered(perm, x, next, out, j + 4) && |next| == |was| && next[..out] == was[..out]
  {
  }

  lemma ScatterStart<T>(perm: seq<int>, x: seq<T>, now: seq<T>, out: nat)
    requires out + |perm| <= |x| == |now|
    ensures Scattered(perm, x, now, out, 0)
  {
  }

  /** `m_indices` is filled once by the constructor and only read afterwards. */
  class FrequencyInterleaver {
    const carriers: nat
    const indices: seq<int>

    ghost predicate Valid() {
      carriers > 0 && carriers % 4 == 0 && IsPermutation(indices, carriers)
    }

    /** The constructor; any other mode throws. */
    constructor (mode: nat)
      requires mode <= 4
      ensures Valid() && carriers == 3 * BinsOf(mode) / 4
      ensures FollowsStandard(indices, mode)
    {
      var p := ParametersOf(mode).value;
      ModesAreBands(mode);
      ghost var k :| IsBand(p, k);
      BandShape(p, k);
      var buffer := new int[p.carriers];
      FillIndices(p, buffer, k);
      carriers := p.carriers;
      indices := buffer[..];
      GeneratedIsStandard(p, k, p.num - 1);
      ResiduesAreStandard(p, k);
    }

    /** One block of do_process, its loop unrolled four times. */
    method ScatterBlock<T>(dataIn: array<T>, dataOut: array<T>, out: nat)
      requires Valid() && dataOut != dataIn && out + carriers <= dataIn.Length == dataOut.Length
      modifies dataOut
      ensures dataOut[..out] == old(dataOut[..out])
      ensures Scattered(indices, dataIn[..], dataOut[..], out, carriers)
    {
      ghost var x, now := dataIn[..], dataOut[..];
      ghost var head := now[..out];
      assert forall s | 0 <= s < carriers :: 0 <= indices[s] < carriers;
      assert carriers % 4 == 0 && Distinct(indices) && |indices| == carriers;
      hide *;
      ScatterStart(indices, x, now, out);
      var i, j := out, 0;
      while j < carriers
        invariant 0 <= j <= carriers && j % 4 == 0 && i == out + j
        invariant dataOut[..] == now && |now| == |x| && now[..out] == head
        invariant Scattered(indices, x, now, out, j)
      {
        ghost var was := now;
        ScatterFour(dataIn, dataOut, i, out, j);
        now := dataOut[..];
        ScatterStep(indices, x, was, now, out, j);
        i, j := i + 4, j + 4;
      }
    }

    /** The unrolled body of the loop. */
    method ScatterFour<T>(dataIn: array<T>, dataOut: array<T>, i: nat, out: nat, j: nat)
      requires dataOut != dataIn && out + |indices| <= dataIn.Length == dataOut.Length && i == out + j && j + 4 <= |indices|
      requires forall s | 0 <= s < |indices| :: 0 <= indices[s] < |indices|
      modifies dataOut
      ensures FourWritten(indices, dataIn[..], old(dataOut[..]), dataOut[..], out, j)
    {
      dataOut[out + indices[j]] := dataIn[i];
      dataOut[out + indices[j + 1]] := dataIn[i + 1];
      dataOut[out + indices[j + 2]] := dataIn[i + 2];
      dataOut[out + indices[j + 3]] := dataIn[i + 3];
    }

    /** do_process */
    method Process<T>(dataIn: array<T>, dataOut: array<T>) returns (r: Result<nat>)
      requires Valid() && dataOut != dataIn && dataOut.Length == dataIn.Length
      modifies dataOut
      ensures r.Ok? <==> dataIn.Length % carriers == 0
      ensures r.Ok? ==> Interleaved(indices, dataIn[..], dataOut[..])
      ensures r.Err? ==> dataOut[..] == old(dataOut[..])
    {
      if dataIn.Length % carriers != 0 {
        return Err("FrequencyInterleaver::process input size not valid!");
      }
      ghost var x := dataIn[..];
      var out := 0;
      ghost var block := 0;
      while out < dataIn.Length
        invariant out == block * carriers && 0 <= out <= dataIn.Length
        invariant Interleaved(indices, x[..out], dataOut[..out])
      {
        ghost var head := dataOut[..out];
        BlockFits(block, carriers, dataIn.Length);
        ScatterBlock(dataIn, dataOut, out);
        BlockAppended(indices, x, head, dataOut[..], block);
        MulSucc(carriers, block);
        out := out + carriers;
        block := block + 1;
      }
      assert x[..out] == x && dataOut[..out] == dataOut[..];
      r := Ok(dataIn.Length);
    }
  }

  lemma BlockAppended<T>(perm: seq<int>, x: seq<T>, head: seq<T>, out: seq<T>, block: nat)
    requires |perm| > 0 && |head| == block * |perm| && |head| + |perm| <= |x| == |out|
    requires Interleaved(perm, x[..|head|], head) && head == out[..|head|]
    requires Scattered(perm, x, out, |head|, |perm|)
    ensures Interleaved(perm, x[..|head| + |perm|], out[..|head| + |perm|])
  {
    var n := |head| + |perm|;
    forall i | 0 <= i < n
      ensures 0 <= Target(perm, i) < n && out[..n][Target(perm, i)] == x[..n][i]
    {
      if i < |head| {
        assert x[..|head|][i] == x[i];
        assert out[..|head|][Target(perm, i)] == out[Target(perm, i)];
      } else {
        DivModUnique(i, |perm|, block, i - |head|);
      }
    }
  }

  lemma TargetDecodes(indices: seq<int>, i: nat)
    requires |indices| > 0 && IsPermutation(indices, |indices|)
    ensures Target(indices, i) / |indices| == i / |indices| && Target(indices, i) % |indices| == indices[i % |indices|]
  {
    DivModUnique(Target(indices, i), |indices|, i / |indices|, indices[i % |indices|]);
  }

  /** No two inputs go to the same output position. */
  lemma TargetInjective(indices: seq<int>, i: nat, j: nat)
    requires |indices| > 0 && IsPermutation(indices, |indices|) && Target(indices, i) == Target(indices, j)
    ensures i == j
  {
    TargetDecodes(indices, i);
    TargetDecodes(indices, j);
    hide Target;
    assert i % |indices| == j % |indices|;
    assert i == |indices| * (i / |indices|) + i % |indices|;
  }

  lemma TargetOfBlock(indices: seq<int>, b: nat, s: nat)
    requires s < |indices|
    ensures b * |indices| + s >= 0
    ensures Target(indices, b * |indices| + s) == b * |indices| + indices[s]
  {
    MulNonNegative(b, |indices|);
    DivModUnique(b * |indices| + s, |indices|, b, s);
  }

  /** Every output position is the target of an input position. */
  lemma TargetSurjective(indices: seq<int>, n: nat, o: nat) returns (i: nat)
    requires |indices| > 0 && IsPermutation(indices, |indices|) && n % |indices| == 0 && o < n
    ensures i < n && Target(indices, i) == o
  {
    var m := |indices|;
    var b, v := o / m, o % m;
    assert o == m * b + v;
    assert v in indices;
    hide *;
    var s :| 0 <= s < m && indices[s] == v;
    assert m * b == b * m;
    TargetOfBlock(indices, b, s);
    BlockFits(b, m, n);
    i := b * m + s;
  }

  /** The map of all positions of n samples, in blocks. */
  function Targets(indices: seq<int>, n: nat): seq<int>
    requires |indices| > 0
  {
    seq(n, i requires 0 <= i < n => Target(indices, i))
  }

  /** The block map is a bijection. */
  lemma TargetsArePermutation(indices: seq<int>, n: nat)
    requires |indices| > 0 && IsPermutation(indices, |indices|) && n % |indices| == 0
    ensures IsPermutation(Targets(indices, n), n)
  {
    var s := Targets(indices, n);
    forall i | 0 <= i < n ensures 0 <= s[i] < n {
      TargetInside(indices, n, i);
    }
    forall i, j | 0 <= i < j < n ensures s[i] != s[j] {
      if s[i] == s[j] {
        TargetInjective(indices, i, j);
      }
    }
    DistinctFills(s, n);
  }

  lemma TargetInside(indices: seq<int>, n: nat, i: nat)
    requires |indices| > 0 && IsPermutation(indices, |indices|) && n % |indices| == 0 && i < n
    ensures 0 <= Target(indices, i) < n
  {
    var m := |indices|;
    var b, s := i / m, i % m;
    assert i == m * b + s && m * b == b * m;
    assert 0 <= indices[s] < m;
    hide *;
    TargetOfBlock(indices, b, s);
    BlockFits(b, m, n);
  }

  /** Input and output determine each other. */
  lemma InterleavingInvertible<T>(indices: seq<int>, x: seq<T>, y: seq<T>, out: seq<T>, other: seq<T>)
    requires |indices| > 0 && IsPermutation(indices, |indices|) && |out| % |indices| == 0 && |x| == |y|
    requires Interleaved(indices, x, out) && Interleaved(indices, y, other)
    ensures x == y <==> out == other
  {
    if x == y {
      forall o | 0 <= o < |out| ensures out[o] == other[o] {
        var i := TargetSurjective(indices, |out|, o);
      }
    }
  }

  lemma BlockFits(block: nat, carriers: nat, length: nat)
    requires carriers > 0 && length % carriers == 0 && block * carriers < length
    ensures block * carriers + carriers <= length
  {
    var n := length / carriers;
    assert length == carriers * n;
    if block >= n { MulMonotone(n, block, carriers); }
    MulMonotone(block + 1, n, carriers);
  }
}
