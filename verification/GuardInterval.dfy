/** `GuardIntervalInserter.cpp`: guard intervals as the overlap-add of windowed cyclic
    extensions of the symbols. */
module GuardInterval {
  import opened Complex
  import opened Integers

  /** The parameters, the window and the symbols of one transmission frame: the null
      symbol, then n data symbols, s samples each. */
  datatype Frame = Frame(n: nat, s: nat, z: nat, t: nat, w: nat, window: seq<real>, input: seq<Cpx>)

  /** The source's unsigned differences and its writes past a symbol require these sizes. */
  predicate Sizes(n: nat, s: nat, z: nat, t: nat, w: nat) {
    0 < z && s <= z <= 2 * s && s + w <= t && t + w <= 2 * s && (w > 0 ==> n > 0)
  }

  // ----- The reference: overlap-add of windowed cyclic extensions -----

  /** Where symbol k starts in the output, how long it is there, and where it starts in the input. */
  function Start(f: Frame, k: nat): nat {
    if k == 0 then 0 else if k == 1 then f.z else Start(f, k - 1) + f.t
  }

  function Length(f: Frame, k: nat): nat { if k == 0 then f.z else f.t }

  function InStart(f: Frame, k: nat): nat {
    if k == 0 then 0 else InStart(f, k - 1) + f.s
  }

  ghost predicate Fits(f: Frame) {
    Sizes(f.n, f.s, f.z, f.t, f.w) && |f.window| == 2 * f.w && |f.input| == InStart(f, f.n + 1)
  }

  lemma {:induction false} InStartMonotone(f: Frame, k: nat)
    requires k <= f.n
    ensures InStart(f, k) + f.s <= InStart(f, f.n + 1)
    decreases f.n - k
  {
    if k < f.n {
      InStartMonotone(f, k + 1);
    }
  }

  /** Symbol k, repeated for ever; its last sample is at the end of its stretch. */
  function Cyclic(f: Frame, k: nat, t: int): Cpx
    requires Fits(f) && k <= f.n
  {
    InStartMonotone(f, k);
    f.input[InStart(f, k) + (t - (Length(f, k) - f.s)) % f.s]
  }

  /** The window over symbol k: it rises around the symbol's start, except that of the
      null symbol, and falls around its end, except that of the last symbol. */
  function Weight(f: Frame, k: nat, t: int): real
    requires |f.window| == 2 * f.w
  {
    var l := Length(f, k);
    if k > 0 && t < f.w then (if t + f.w < 0 then 0.0 else f.window[t + f.w])
    else if k == 0 && t < 0 then 0.0
    else if k < f.n && t >= l - f.w then (if t >= l + f.w then 0.0 else f.window[l + f.w - 1 - t])
    else if k >= f.n && t >= l then 0.0
    else 1.0
  }

  function Contribution(f: Frame, k: nat, o: int): Cpx
    requires Fits(f) && k <= f.n
  {
    Scale(Cyclic(f, k, o - Start(f, k)), Weight(f, k, o - Start(f, k)))
  }

  /** The sum of the contributions of symbols 0 to k at output sample o. */
  function OverlapAdd(f: Frame, k: nat, o: int): Cpx
    requires Fits(f) && k <= f.n
  {
    if k == 0 then Contribution(f, 0, o) else Add(OverlapAdd(f, k - 1, o), Contribution(f, k, o))
  }

  /** Where the samples of symbols 0 to k end. */
  function End(f: Frame, k: nat): nat {
    Start(f, k) + Length(f, k) + if k < f.n then f.w else 0
  }

  lemma ScaleUnits(a: Cpx)
    ensures Scale(a, 0.0) == ZERO && Scale(a, 1.0) == a
    ensures Add(ZERO, a) == a == Add(a, ZERO)
  {
  }

  lemma {:induction false} BeyondEnd(f: Frame, k: nat, o: int)
    requires Fits(f) && k <= f.n && o >= End(f, k)
    ensures OverlapAdd(f, k, o) == ZERO
    decreases k
  {
    ScaleUnits(Cyclic(f, k, o - Start(f, k)));
    hide Cyclic, Scale, Add;
    assert Weight(f, k, o - Start(f, k)) == 0.0;
    if k > 0 {
      EndGrows(f, k);
      BeyondEnd(f, k - 1, o);
    }
  }

  lemma EndGrows(f: Frame, k: nat)
    requires Fits(f) && 0 < k <= f.n
    ensures Start(f, k) == Start(f, k - 1) + Length(f, k - 1)
    ensures End(f, k - 1) == Start(f, k) + f.w <= End(f, k) && f.w <= Start(f, k)
  {
  }

  lemma BeforeStart(f: Frame, k: nat, o: int)
    requires Fits(f) && 0 < k <= f.n && o < Start(f, k) - f.w
    ensures Contribution(f, k, o) == ZERO
  {
    ScaleUnits(Cyclic(f, k, o - Start(f, k)));
    hide Cyclic, Scale;
  }

  /** The cyclic index in its three ranges. */
  lemma CyclicIndex(l: int, s: int, t: int)
    requires s > 0
    ensures l - 2 * s <= t < l - s ==> (t - (l - s)) % s == t - l + 2 * s
    ensures l - s <= t < l ==> (t - (l - s)) % s == t - l + s
    ensures l <= t < l + s ==> (t - (l - s)) % s == t - l
  {
    var d := t - (l - s);
    if -s <= d < 0 {
      DivModUnique(d, s, -1, d + s);
    } else if 0 <= d < s {
      DivModUnique(d, s, 0, d);
    } else if s <= d < 2 * s {
      DivModUnique(d, s, 1, d - s);
    }
  }

  // ----- What the pieces of a symbol are in the reference -----

  lemma {:induction false} ContributionIs(f: Frame, k: nat, o: int, index: nat)
    requires Fits(f) && k <= f.n && index < f.s
    requires (o - Start(f, k) - (Length(f, k) - f.s)) % f.s == index
    ensures InStart(f, k) + index < |f.input|
    ensures Contribution(f, k, o) == Scale(f.input[InStart(f, k) + index], Weight(f, k, o - Start(f, k)))
  {
    InStartMonotone(f, k);
    hide Scale, Weight;
  }

  /** The extension before the symbol's own samples: the rising window, then weight one. */
  lemma PrefixSample(f: Frame, k: nat, t: int)
    requires Fits(f) && 0 < k <= f.n && 0 <= t + f.w && t < f.t - f.s
    ensures 0 <= InStart(f, k) + 2 * f.s - f.t + t < |f.input|
    ensures Contribution(f, k, Start(f, k) + t)
         == Scale(f.input[InStart(f, k) + 2 * f.s - f.t + t], if t < f.w then f.window[t + f.w] else 1.0)
  {
    CyclicIndex(f.t, f.s, t);
    ContributionIs(f, k, Start(f, k) + t, 2 * f.s - f.t + t);
    hide Scale, Contribution;
  }

  /** The symbol's own samples: weight one, then the upper half of the falling window. */
  lemma BodySample(f: Frame, k: nat, t: int)
    requires Fits(f) && k <= f.n && Length(f, k) - f.s <= t < Length(f, k)
    ensures var l := Length(f, k);
            && 0 <= InStart(f, k) + t - (l - f.s) < |f.input|
            && Contribution(f, k, Start(f, k) + t)
               == Scale(f.input[InStart(f, k) + t - (l - f.s)],
                        if k < f.n && t >= l - f.w then f.window[l + f.w - 1 - t] else 1.0)
  {
    CyclicIndex(Length(f, k), f.s, t);
    ContributionIs(f, k, Start(f, k) + t, t - (Length(f, k) - f.s));
    hide Scale, Contribution;
  }

  /** The extension behind the symbol: the lower half of the falling window. */
  lemma SuffixSample(f: Frame, k: nat, t: int)
    requires Fits(f) && k < f.n && Length(f, k) <= t < Length(f, k) + f.w
    ensures var l := Length(f, k);
            && 0 <= InStart(f, k) + t - l < |f.input|
            && Contribution(f, k, Start(f, k) + t) == Scale(f.input[InStart(f, k) + t - l], f.window[l + f.w - 1 - t])
  {
    CyclicIndex(Length(f, k), f.s, t);
    ContributionIs(f, k, Start(f, k) + t, t - Length(f, k));
    hide Scale, Contribution;
  }

  lemma NullPrefixSample(f: Frame, t: int)
    requires Fits(f) && 0 <= t < f.z - f.s
    ensures 0 <= 2 * f.s - f.z + t < |f.input|
    ensures Contribution(f, 0, t) == f.input[2 * f.s - f.z + t]
  {
    CyclicIndex(f.z, f.s, t);
    ContributionIs(f, 0, t, 2 * f.s - f.z + t);
    ScaleUnits(f.input[2 * f.s - f.z + t]);
    hide Scale, Contribution;
  }

  // ----- Loops over the output buffer -----

  /** memcpy */
  method Copy(out: array<Cpx>, o: nat, input: seq<Cpx>, i: nat, n: nat)
    requires o + n <= out.Length && i + n <= |input|
    modifies out
    ensures forall x | o <= x < o + n :: out[x] == input[x - o + i]
    ensures forall x | 0 <= x < out.Length && !(o <= x < o + n) :: out[x] == old(out[x])
  {
    for j := 0 to n
      invariant forall x | o <= x < o + j :: out[x] == input[x - o + i]
      invariant forall x | 0 <= x < out.Length && !(o <= x < o + j) :: out[x] == old(out[x])
    {
      out[o + j] := input[i + j];
    }
  }

  /** The rising window, added to what the symbol before has left. */
  method Rise(out: array<Cpx>, o: nat, input: seq<Cpx>, i: nat, window: seq<real>)
    requires o + |window| <= out.Length && i + |window| <= |input|
    modifies out
    ensures forall x | o <= x < o + |window| :: out[x] == Add(old(out[x]), Scale(input[x - o + i], window[x - o]))
    ensures forall x | 0 <= x < out.Length && !(o <= x < o + |window|) :: out[x] == old(out[x])
  {
    hide Add, Scale;
    for j := 0 to |window|
      invariant forall x | o <= x < o + j :: out[x] == Add(old(out[x]), Scale(input[x - o + i], window[x - o]))
      invariant forall x | 0 <= x < out.Length && !(o <= x < o + j) :: out[x] == old(out[x])
    {
      out[o + j] := Add(out[o + j], Scale(input[i + j], window[j]));
    }
  }

  /** n samples of the window read backwards from `top`. */
  method Fall(out: array<Cpx>, o: nat, input: seq<Cpx>, i: nat, n: nat, window: seq<real>, top: int)
    requires o + n <= out.Length && i + n <= |input| && n - 1 <= top < |window|
    modifies out
    ensures forall x | o <= x < o + n :: out[x] == Scale(input[x - o + i], window[top - (x - o)])
    ensures forall x | 0 <= x < out.Length && !(o <= x < o + n) :: out[x] == old(out[x])
  {
    hide Scale;
    for j := 0 to n
      invariant forall x | o <= x < o + j :: out[x] == Scale(input[x - o + i], window[top - (x - o)])
      invariant forall x | 0 <= x < out.Length && !(o <= x < o + j) :: out[x] == old(out[x])
    {
      out[o + j] := Scale(input[i + j], window[top - j]);
    }
  }

  /** Symbols 0 to k are in place. */
  ghost predicate Done(f: Frame, k: nat, out: seq<Cpx>) {
    Fits(f) && k <= f.n && End(f, k) <= |out| && forall o | 0 <= o < End(f, k) :: out[o] == OverlapAdd(f, k, o)
  }

  // ----- The null symbol -----

  method PutNullSymbol(f: Frame, out: array<Cpx>)
    requires Fits(f) && End(f, 0) <= out.Length
    modifies out
    ensures Done(f, 0, out[..])
  {
    hide Contribution, Scale, Add;
    var prefix := f.z - f.s;
    InStartMonotone(f, 0);
    Copy(out, 0, f.input, f.s - prefix, prefix);
    if f.w > 0 {
      Copy(out, prefix, f.input, 0, f.s - f.w);
      Fall(out, prefix + f.s - f.w, f.input, f.s - f.w, f.w, f.window, 2 * f.w - 1);
      Fall(out, prefix + f.s, f.input, 0, f.w, f.window, f.w - 1);
    } else {
      Copy(out, prefix, f.input, 0, f.s);
    }
    forall o | 0 <= o < End(f, 0) ensures out[o] == Contribution(f, 0, o) {
      if o < prefix {
        NullPrefixSample(f, o);
      } else if o < f.z {
        BodySample(f, 0, o);
        ScaleUnits(f.input[o - prefix]);
      } else {
        SuffixSample(f, 0, o);
      }
    }
  }

  // ----- The data symbols -----

  /** Behind the end of the symbols before, only symbol k counts. */
  lemma Alone(f: Frame, k: nat, o: int)
    requires Fits(f) && 0 < k <= f.n && o >= Start(f, k) + f.w
    ensures OverlapAdd(f, k, o) == Contribution(f, k, o)
  {
    EndGrows(f, k);
    BeyondEnd(f, k - 1, o);
    ScaleUnits(Contribution(f, k, o));
    hide Contribution, Add;
  }

  /** Before the extension of symbol k nothing is added. */
  lemma Untouched(f: Frame, k: nat, o: int)
    requires Fits(f) && 0 < k <= f.n && o < Start(f, k) - f.w
    ensures OverlapAdd(f, k, o) == OverlapAdd(f, k - 1, o)
  {
    BeforeStart(f, k, o);
    ScaleUnits(OverlapAdd(f, k - 1, o));
    hide Contribution, Add;
  }

  /** The samples up to the symbol's own ones: risen over what was there, then copied. */
  ghost predicate PrefixWritten(f: Frame, k: nat, before: seq<Cpx>, after: seq<Cpx>)
    requires Fits(f) && 0 < k <= f.n && End(f, k) <= |before| == |after|
  {
    EndGrows(f, k);
    InStartMonotone(f, k);
    var b, i := Start(f, k), InStart(f, k) + 2 * f.s - f.t;
    && (forall x | 0 <= x < b - f.w :: after[x] == before[x])
    && (forall x | b - f.w <= x < b + f.w :: after[x] == Add(before[x], Scale(f.input[x - b + i], f.window[x - b + f.w])))
    && (forall x | b + f.w <= x < b + f.t - f.s :: after[x] == f.input[x - b + i])
  }

  lemma {:induction false} PrefixDone(f: Frame, k: nat, before: seq<Cpx>, after: seq<Cpx>, o: nat)
    requires Fits(f) && 0 < k <= f.n && End(f, k) <= |before| == |after|
    requires Done(f, k - 1, before) && PrefixWritten(f, k, before, after) && o < Start(f, k) + f.t - f.s
    ensures after[o] == OverlapAdd(f, k, o)
  {
    EndGrows(f, k);
    var t := o - Start(f, k);
    hide Contribution, Scale, Add, Start, InStart;
    if t + f.w < 0 {
      Untouched(f, k, o);
    } else {
      PrefixSample(f, k, t);
      if t >= f.w {
        Alone(f, k, o);
        ScaleUnits(f.input[InStart(f, k) + 2 * f.s - f.t + t]);
      }
    }
  }

  method PutPrefix(f: Frame, k: nat, out: array<Cpx>, base: nat, inBase: nat)
    requires Fits(f) && 0 < k <= f.n && End(f, k) <= out.Length
    requires base == Start(f, k) && inBase == InStart(f, k)
    modifies out
    ensures PrefixWritten(f, k, old(out[..]), out[..])
    ensures forall x | base + f.t - f.s <= x < out.Length :: out[x] == old(out[x])
  {
    hide Scale, Add;
    EndGrows(f, k);
    InStartMonotone(f, k);
    ghost var before := out[..];
    var ix := 2 * f.s - f.t - f.w;
    if f.w > 0 {
      Rise(out, base - f.w, f.input, inBase + ix, f.window);
    }
    Copy(out, base + f.w, f.input, inBase + ix + 2 * f.w, f.t - f.s - f.w);
  }

  /** The symbol's own samples and its suffix. */
  ghost predicate BodyWritten(f: Frame, k: nat, after: seq<Cpx>)
    requires Fits(f) && 0 < k <= f.n && End(f, k) <= |after|
  {
    InStartMonotone(f, k);
    var b, i := Start(f, k), InStart(f, k);
    && (forall x | b + f.t - f.s <= x < b + f.t && (k == f.n || x < b + f.t - f.w) ::
          after[x] == f.input[x - b - (f.t - f.s) + i])
    && (k < f.n ==> forall x | b + f.t - f.w <= x < b + f.t ::
          after[x] == Scale(f.input[x - b - (f.t - f.s) + i], f.window[b + f.t + f.w - 1 - x]))
    && (k < f.n ==> forall x | b + f.t <= x < b + f.t + f.w ::
          after[x] == Scale(f.input[x - b - f.t + i], f.window[b + f.t + f.w - 1 - x]))
  }

  lemma BodyDone(f: Frame, k: nat, after: seq<Cpx>, o: nat)
    requires Fits(f) && 0 < k <= f.n && End(f, k) <= |after| && BodyWritten(f, k, after)
    requires Start(f, k) + f.t - f.s <= o < End(f, k)
    ensures after[o] == OverlapAdd(f, k, o)
  {
    var t := o - Start(f, k);
    hide Contribution, Scale, Add, Start, InStart;
    Alone(f, k, o);
    if t < f.t {
      BodySample(f, k, t);
      ScaleUnits(f.input[InStart(f, k) + t - (f.t - f.s)]);
    } else {
      SuffixSample(f, k, t);
    }
  }

  method PutBody(f: Frame, k: nat, out: array<Cpx>, base: nat, inBase: nat)
    requires Fits(f) && 0 < k <= f.n && End(f, k) <= out.Length
    requires base == Start(f, k) && inBase == InStart(f, k)
    modifies out
    ensures BodyWritten(f, k, out[..])
    ensures forall x | 0 <= x < base + f.t - f.s :: out[x] == old(out[x])
  {
    hide Scale, Start, InStart;
    InStartMonotone(f, k);
    var ox := base + f.t - f.s;
    if k >= f.n || f.w == 0 {
      Copy(out, ox, f.input, inBase, f.s);
    } else {
      Copy(out, ox, f.input, inBase, f.s - f.w);
      Fall(out, ox + f.s - f.w, f.input, inBase + f.s - f.w, f.w, f.window, 2 * f.w - 1);
      Fall(out, ox + f.s, f.input, inBase, f.w, f.window, f.w - 1);
    }
  }

  method PutDataSymbol(f: Frame, k: nat, out: array<Cpx>, base: nat, inBase: nat)
    requires 0 < k && Done(f, k - 1, out[..]) && k <= f.n && End(f, k) <= out.Length
    requires base == Start(f, k) && inBase == InStart(f, k)
    modifies out
    ensures Done(f, k, out[..])
  {
    hide Contribution, Scale, Add, OverlapAdd, PrefixWritten, BodyWritten;
    ghost var before := out[..];
    PutPrefix(f, k, out, base, inBase);
    ghost var mid := out[..];
    PutBody(f, k, out, base, inBase);
    forall o | 0 <= o < End(f, k) ensures out[o] == OverlapAdd(f, k, o) {
      if o < base + f.t - f.s {
        PrefixDone(f, k, before, mid, o);
      } else {
        BodyDone(f, k, out[..], o);
      }
    }
  }

  // ----- The weights -----

  /** Each value of the rising half and its mirror image add up to one. */
  ghost predicate Complementary(window: seq<real>) {
    forall i | 0 <= i < |window| :: window[i] + window[|window| - 1 - i] == 1.0
  }

  /** The total weight of symbols 0 to k at output sample o. */
  function WeightSum(f: Frame, k: nat, o: int): real
    requires |f.window| == 2 * f.w
  {
    (if k == 0 then 0.0 else WeightSum(f, k - 1, o)) + Weight(f, k, o - Start(f, k))
  }

  lemma {:induction false} PartialWeight(f: Frame, k: nat, o: int)
    requires Fits(f) && Complementary(f.window) && k <= f.n && o >= 0
    ensures WeightSum(f, k, o) ==
            if o >= End(f, k) then 0.0
            else if k < f.n && o >= End(f, k) - 2 * f.w then f.window[End(f, k) - 1 - o]
            else 1.0
    decreases k
  {
    if k > 0 {
      EndGrows(f, k);
      PartialWeight(f, k - 1, o);
      hide Start;
      var i := o - Start(f, k) + f.w;
      if 0 <= i < 2 * f.w {
        assert f.window[i] + f.window[2 * f.w - 1 - i] == 1.0;
      }
    }
  }

  /** In the output the weights of the overlapping symbols always add up to one. */
  lemma UnitWeight(f: Frame, o: int)
    requires Fits(f) && Complementary(f.window) && 0 <= o < End(f, f.n)
    ensures WeightSum(f, f.n, o) == 1.0
  {
    PartialWeight(f, f.n, o);
  }

  lemma {:induction false} Lengths(f: Frame, k: nat)
    ensures Start(f, k) + Length(f, k) == f.z + k * f.t && InStart(f, k + 1) == (k + 1) * f.s
    decreases k
  {
    if k == 0 {
      assert InStart(f, 0) == 0;
      assert 0 * f.t == 0 && (0 + 1) * f.s == f.s;
    } else {
      Lengths(f, k - 1);
      MulSucc(f.t, k - 1);
      MulSucc(f.s, k);
    }
  }

  /** The only fact about the cosine that the window needs: cos(pi - x) = -cos(x). */
  ghost predicate OddAboutTheMiddle(cosine: (nat, nat) -> real) {
    forall i: nat, d: nat | i <= d :: cosine(d - i, d) == -cosine(i, d)
  }

  ghost predicate RaisedCosine(window: seq<real>, cosine: (nat, nat) -> real) {
    forall i | 0 <= i < |window| :: window[i] == 0.5 * (1.0 - cosine(i, |window| - 1))
  }

  lemma RaisedCosineComplementary(window: seq<real>, cosine: (nat, nat) -> real)
    requires RaisedCosine(window, cosine) && OddAboutTheMiddle(cosine)
    ensures Complementary(window)
  {
    forall i | 0 <= i < |window| ensures window[i] + window[|window| - 1 - i] == 1.0 {
      var d := |window| - 1;
      assert cosine(d - i, d) == -cosine(i, d);
    }
  }

  /** What else the window needs of the cosine: 1 at zero, -1 at pi, and falling between them. */
  ghost predicate FallsFromOne(cosine: (nat, nat) -> real) {
    && (forall d: nat | d > 0 :: cosine(0, d) == 1.0 && cosine(d, d) == -1.0)
    && (forall i: nat, j: nat, d: nat | i <= j <= d :: cosine(i, d) >= cosine(j, d))
  }

  /** The window rises from 0 to 1. */
  lemma WindowRises(window: seq<real>, cosine: (nat, nat) -> real)
    requires |window| > 1 && FallsFromOne(cosine)
    requires forall i | 0 <= i < |window| :: window[i] == 0.5 - 0.5 * cosine(i, |window| - 1)
    ensures window[0] == 0.0 && window[|window| - 1] == 1.0
    ensures forall i, j | 0 <= i <= j < |window| :: 0.0 <= window[i] <= window[j] <= 1.0
  {
    var d := |window| - 1;
    assert cosine(0, d) == 1.0 && cosine(d, d) == -1.0;
    forall i, j | 0 <= i <= j < |window| ensures 0.0 <= window[i] <= window[j] <= 1.0 {
      assert cosine(0, d) >= cosine(i, d) >= cosine(j, d) >= cosine(d, d);
    }
  }

  class GuardIntervalInserter {
    const nbSymbols: nat
    const spacing: nat
    const nullSize: nat
    const symSize: nat
    var windowOverlap: nat
    var window: seq<real>

    ghost predicate Valid()
      reads this
    {
      Sizes(nbSymbols, spacing, nullSize, symSize, windowOverlap) && |window| == 2 * windowOverlap
    }

    function FrameOf(input: seq<Cpx>): Frame
      reads this
    {
      Frame(nbSymbols, spacing, nullSize, symSize, windowOverlap, window, input)
    }

    constructor (nbSymbols: nat, spacing: nat, nullSize: nat, symSize: nat, windowOverlap: nat,
                 cosine: (nat, nat) -> real)
      requires Sizes(nbSymbols, spacing, nullSize, symSize, windowOverlap)
      ensures Valid() && RaisedCosine(window, cosine)
      ensures this.nbSymbols == nbSymbols && this.spacing == spacing && this.nullSize == nullSize
      ensures this.symSize == symSize && this.windowOverlap == windowOverlap
    {
      this.nbSymbols, this.spacing, this.nullSize, this.symSize := nbSymbols, spacing, nullSize, symSize;
      this.windowOverlap, this.window := 0, [];
      new;
      UpdateWindow(windowOverlap, cosine);
    }

    /** update_window; `cosine(i, d)` stands for cos(pi * i / d). */
    method UpdateWindow(newWindowOverlap: nat, cosine: (nat, nat) -> real)
      modifies this
      ensures windowOverlap == newWindowOverlap && |window| == 2 * newWindowOverlap && RaisedCosine(window, cosine)
      ensures forall i | 0 <= i < 2 * newWindowOverlap :: window[i] == 0.5 - 0.5 * cosine(i, 2 * newWindowOverlap - 1)
      ensures newWindowOverlap > 0 && FallsFromOne(cosine) ==>
                && window[0] == 0.0 && window[2 * newWindowOverlap - 1] == 1.0
                && forall i, j | 0 <= i <= j < 2 * newWindowOverlap :: window[i] <= window[j]
      ensures Valid() <==> Sizes(nbSymbols, spacing, nullSize, symSize, newWindowOverlap)
    {
      windowOverlap := newWindowOverlap;
      var values := [];
      for i := 0 to 2 * windowOverlap
        invariant |values| == i
        invariant forall j | 0 <= j < i :: values[j] == 0.5 * (1.0 - cosine(j, 2 * windowOverlap - 1))
      {
        values := values + [0.5 * (1.0 - cosine(i, 2 * windowOverlap - 1))];
      }
      window := values;
      if windowOverlap > 0 && FallsFromOne(cosine) {
        WindowRises(window, cosine);
      }
    }

    /** do_process, into a buffer with arbitrary contents; false when the input has not one
        symbol more than there are data symbols (the source throws). */
    method Process(input: seq<Cpx>) returns (ok: bool, out: array<Cpx>)
      requires Valid()
      ensures fresh(out) && out.Length == nullSize + nbSymbols * symSize
      ensures ok <==> |input| == (nbSymbols + 1) * spacing
      ensures ok ==> Fits(FrameOf(input))
      ensures ok ==> forall o | 0 <= o < out.Length :: out[o] == OverlapAdd(FrameOf(input), nbSymbols, o)
    {
      var f := FrameOf(input);
      MulNonNegative(nbSymbols, symSize);
      out := new Cpx[nullSize + nbSymbols * symSize];
      Lengths(f, nbSymbols);
      if |input| != (nbSymbols + 1) * spacing {
        return false, out;
      }
      hide OverlapAdd;
      FirstEnds(f);
      PutNullSymbol(f, out);
      var inBase, base := spacing, nullSize;
      for k := 0 to nbSymbols
        invariant Done(f, k, out[..])
        invariant inBase == InStart(f, k + 1) && base == Start(f, k) + Length(f, k)
      {
        EndGrows(f, k + 1);
        EndsBelow(f, k + 1);
        PutDataSymbol(f, k + 1, out, base, inBase);
        base := base + symSize;
        inBase := inBase + spacing;
      }
      return true, out;
    }
  }

  lemma {:induction false} EndsBelow(f: Frame, k: nat)
    requires Fits(f) && k <= f.n
    ensures End(f, k) <= End(f, f.n)
    decreases f.n - k
  {
    if k < f.n {
      EndGrows(f, k + 1);
      EndsBelow(f, k + 1);
    }
  }

  lemma FirstEnds(f: Frame)
    requires Fits(f)
    ensures End(f, 0) <= End(f, f.n) && InStart(f, 1) == f.s && Start(f, 0) + Length(f, 0) == f.z
  {
    EndsBelow(f, 0);
    assert InStart(f, 0) == 0;
  }
}
