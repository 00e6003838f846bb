/** `EtiReader.cpp`: the state machine that takes an ETI(NI) byte stream apart
    (ETS 300 799). */
module EtiReading {
  import opened Common
  import opened Integers

  datatype Phase = NbFrame | FrameSize | Sync | Fc | Nst | Eoh | Fic | Subch | Eof | Tist | Pad

  /** SubchannelSource, as far as the reader fills it. */
  datatype Source = Source(start: int, stl: int, tpl: int, buffer: seq<byte>) {
    function FrameSize(): int { 8 * stl }
  }

  /** FicSource: made once from the first frame characterisation, then refilled. */
  datatype FicSource = FicSource(ficf: int, mid: int, buffer: seq<byte>)

  /** The fields of the object; `since` counts the bytes consumed since the start of the frame. */
  datatype Reader = Reader(phase: Phase, framesize: int, sync: seq<byte>, fc: seq<byte>, fcValid: bool,
                           stc: seq<byte>, eoh: seq<byte>, eof: seq<byte>, tist: seq<byte>,
                           fic: Option<FicSource>, sources: seq<Source>, since: nat)

  const FRAME := 6144

  /** The 16-bit field framesize. */
  function Wrap(x: int): int { x % 65536 }

  // ----- Header fields -----

  function NstOf(fc: seq<byte>): nat
    requires |fc| == 4
  {
    fc[1] % 128
  }

  function FicfOf(fc: seq<byte>): nat
    requires |fc| == 4
  {
    fc[1] / 128
  }

  function MidOf(fc: seq<byte>): nat
    requires |fc| == 4
  {
    fc[2] / 8 % 4
  }

  function FicSize(fc: seq<byte>): nat
    requires |fc| == 4
  {
    if MidOf(fc) == 3 then 128 else 96
  }

  /** The source that the stream characterisation of sub-channel i asks for. */
  function SourceOf(stc: seq<byte>, i: nat): Source
    requires 4 * i + 4 <= |stc|
  {
    Source(Word(stc[4 * i] % 4, stc[4 * i + 1]), Word(stc[4 * i + 2] % 4, stc[4 * i + 3]), stc[4 * i + 2] / 4, [])
  }

  function NewSources(stc: seq<byte>, n: nat): (r: seq<Source>)
    requires 4 * n <= |stc|
    ensures |r| == n
  {
    if n == 0 then [] else NewSources(stc, n - 1) + [SourceOf(stc, n - 1)]
  }

  /** The bytes of all sub-channels together. */
  function Payload(sources: seq<Source>): int {
    if sources == [] then 0
    else
      var i := |sources| - 1;
      Payload(sources[..i]) + sources[i].FrameSize()
  }

  // ----- One round of the loop -----

  /** What one round does with the bytes left: wait for more, go on after n bytes, throw
      after n bytes, or read past the end of the buffer. */
  datatype Round = Waits | Goes(next: Reader, n: nat) | Throws(next: Reader, n: nat) | Overruns

  function Took(r: Reader, n: nat): Reader {
    r.(framesize := Wrap(r.framesize - n), since := r.since + n)
  }

  ghost predicate NonNegative(sources: seq<Source>) {
    forall s | s in sources :: s.stl >= 0
  }

  /** Every sub-channel gets the bytes behind those of the ones before it. */
  function Delivered(sources: seq<Source>, payload: seq<byte>): (r: seq<Source>)
    requires Payload(sources) <= |payload| && NonNegative(sources)
    ensures |r| == |sources|
  {
    if sources == [] then []
    else
      var i := |sources| - 1;
      PayloadPositive(sources[..i]);
      Delivered(sources[..i], payload) + [sources[i].(buffer := payload[Payload(sources[..i])..Payload(sources)])]
  }

  lemma {:induction false} PayloadPositive(sources: seq<Source>)
    requires NonNegative(sources)
    ensures Payload(sources) >= 0
    decreases |sources|
  {
    if sources != [] {
      PayloadPositive(sources[..|sources| - 1]);
    }
  }

  ghost predicate Agrees(r: Reader) {
    && |r.stc| == 4 * |r.sources|
    && forall i | 0 <= i < |r.sources| :: r.sources[i].(buffer := []) == SourceOf(r.stc, i)
  }

  /** The phases in which the frame characterisation is valid. */
  predicate InFrame(p: Phase) {
    !(p.NbFrame? || p.FrameSize? || p.Sync? || p.Fc?)
  }

  ghost predicate Valid(r: Reader) {
    && Agrees(r) && 0 <= r.framesize < 65536
    && (InFrame(r.phase) ==> |r.fc| == 4 && r.fic.Some?)
    && (InFrame(r.phase) && !r.phase.Nst? ==> |r.sources| == NstOf(r.fc))
    && (r.phase.Fc? || InFrame(r.phase) ==> (r.since + r.framesize) % 65536 == FRAME)
  }

  lemma SourcesNonNegative(r: Reader)
    requires Valid(r)
    ensures NonNegative(r.sources)
    ensures Payload(r.sources) >= 0
  {
    forall s | s in r.sources ensures s.stl >= 0 {
      var i :| 0 <= i < |r.sources| && r.sources[i] == s;
      assert r.sources[i].(buffer := []) == SourceOf(r.stc, i);
    }
    PayloadPositive(r.sources);
  }

  function NextFc(r: Reader, rest: seq<byte>): Round
    requires |rest| >= 4
  {
    var fc := rest[..4];
    var next := Took(r, 4).(fc := fc, fcValid := true, phase := Nst);
    if FicfOf(fc) == 0 then Throws(next, 4)
    else if r.fic.None? then Goes(next.(fic := Some(FicSource(FicfOf(fc), MidOf(fc), []))), 4)
    else Goes(next, 4)
  }

  function NextNst(r: Reader, rest: seq<byte>): Round
    requires |r.fc| == 4
  {
    var n := 4 * NstOf(r.fc);
    if |rest| < n then Waits
    else if |r.stc| == n && r.stc == rest[..n] then Goes(Took(r, n).(phase := Eoh), n)
    else Goes(Took(r, n).(phase := Eoh, stc := rest[..n], sources := NewSources(rest[..n], NstOf(r.fc))), n)
  }

  function NextFic(r: Reader, rest: seq<byte>): Round
    requires |r.fc| == 4 && r.fic.Some?
  {
    var n := FicSize(r.fc);
    if |rest| < n then Waits
    else Goes(Took(r, n).(phase := Subch, fic := Some(r.fic.value.(buffer := rest[..n]))), n)
  }

  function NextSubch(r: Reader, rest: seq<byte>): Round
    requires Valid(r)
  {
    SourcesNonNegative(r);
    var n := Payload(r.sources);
    if |rest| < n then Overruns
    else Goes(Took(r, n).(phase := Eof, sources := Delivered(r.sources, rest)), n)
  }

  function Next(r: Reader, rest: seq<byte>): Round
    requires Valid(r) && rest != []
  {
    match r.phase
    case NbFrame => if |rest| < 4 then Waits else Goes(r.(phase := FrameSize), 4)
    case FrameSize =>
      if |rest| < 2 then Waits else Goes(r.(phase := Sync, framesize := Word(rest[1], rest[0])), 2)
    case Sync =>
      if |rest| < 4 then Waits
      else Goes(r.(phase := Fc, sync := rest[..4], framesize := FRAME - 4, since := 4), 4)
    case Fc => if |rest| < 4 then Waits else NextFc(r, rest)
    case Nst => NextNst(r, rest)
    case Eoh => if |rest| < 4 then Waits else Goes(Took(r, 4).(phase := Fic, eoh := rest[..4]), 4)
    case Fic => NextFic(r, rest)
    case Subch => NextSubch(r, rest)
    case Eof => if |rest| < 4 then Waits else Goes(Took(r, 4).(phase := Tist, eof := rest[..4]), 4)
    case Tist => if |rest| < 4 then Waits else Goes(Took(r, 4).(phase := Pad, tist := rest[..4]), 4)
    case Pad => if r.framesize > 0 then Goes(Took(r, 1), 1) else Goes(r.(phase := Sync), 0)
  }

  /** A phase may pass without taking a byte, but then the next one does not. */
  function Rank(p: Phase): nat {
    if p.Nst? || p.Subch? || p.Pad? then 1 else 0
  }

  /** The field and the sources keep in step with what has been consumed. */
  lemma NextKeepsValid(r: Reader, rest: seq<byte>)
    requires Valid(r) && rest != []
    ensures var x := Next(r, rest);
            && (x.Goes? ==> Valid(x.next) && x.n <= |rest| && (x.n > 0 || Rank(x.next.phase) < Rank(r.phase)))
            && (x.Throws? ==> x.n == 4 <= |rest|)
  {
    if r.phase.Nst? {
      NstKeepsValid(r, rest);
    } else if r.phase.Subch? {
      SubchKeepsValid(r, rest);
    } else if r.phase.Fic? {
      FicKeepsValid(r, rest);
    } else if InFrame(r.phase) {
      FieldKeepsValid(r, rest);
    } else {
      StartKeepsValid(r, rest);
    }
  }

  lemma FicKeepsValid(r: Reader, rest: seq<byte>)
    requires Valid(r) && r.phase.Fic?
    ensures NextFic(r, rest).Goes? ==> Valid(NextFic(r, rest).next) && NextFic(r, rest).n <= |rest|
  {
    TookWraps(r, FicSize(r.fc));
    hide Wrap, SourceOf, FicSize, NstOf;
  }

  lemma FieldKeepsValid(r: Reader, rest: seq<byte>)
    requires Valid(r) && rest != [] && InFrame(r.phase) && !(r.phase.Nst? || r.phase.Fic? || r.phase.Subch?)
    ensures Next(r, rest).Waits? || (Next(r, rest).Goes? && Valid(Next(r, rest).next) && Next(r, rest).n <= |rest|)
  {
    TookWraps(r, 4);
    TookWraps(r, 1);
    hide Wrap, SourceOf, NstOf;
  }

  lemma StartKeepsValid(r: Reader, rest: seq<byte>)
    requires Valid(r) && rest != [] && !InFrame(r.phase)
    ensures var x := Next(r, rest); (x.Goes? ==> Valid(x.next) && x.n <= |rest|) && (x.Throws? ==> x.n == 4 <= |rest|)
  {
    TookWraps(r, 4);
    hide SourceOf, NstOf;
  }

  lemma TookWraps(r: Reader, n: nat)
    ensures 0 <= Took(r, n).framesize < 65536
    ensures (Took(r, n).since + Took(r, n).framesize) % 65536 == (r.since + r.framesize) % 65536
  {
    var a := r.framesize - n;
    var t := Took(r, n);
    assert t.framesize == a % 65536 && t.since == r.since + n;
    Remainder(a);
    WholeTurns(r.since + r.framesize, a / 65536);
    assert t.since + t.framesize == r.since + r.framesize - 65536 * (a / 65536);
  }

  lemma Remainder(a: int)
    ensures a % 65536 == a - 65536 * (a / 65536) && 0 <= a % 65536 < 65536
  {
  }

  lemma WholeTurns(x: int, k: int)
    ensures (x - 65536 * k) % 65536 == x % 65536
  {
  }

  lemma {:induction false} NewSourcesAgree(stc: seq<byte>, n: nat)
    requires 4 * n <= |stc|
    ensures forall i | 0 <= i < n :: NewSources(stc, n)[i].(buffer := []) == SourceOf(stc, i)
    decreases n
  {
    if n > 0 {
      NewSourcesAgree(stc, n - 1);
    }
  }

  lemma NstKeepsValid(r: Reader, rest: seq<byte>)
    requires Valid(r) && r.phase.Nst?
    ensures NextNst(r, rest).Goes? ==> Valid(NextNst(r, rest).next) && NextNst(r, rest).n <= |rest|
  {
    var n := 4 * NstOf(r.fc);
    TookWraps(r, n);
    if |rest| >= n {
      NewSourcesAgree(rest[..n], NstOf(r.fc));
    }
    hide Wrap, SourceOf, NewSources;
  }

  lemma {:induction false} DeliveredKeeps(sources: seq<Source>, payload: seq<byte>)
    requires Payload(sources) <= |payload| && NonNegative(sources)
    ensures forall i | 0 <= i < |sources| :: Delivered(sources, payload)[i].(buffer := []) == sources[i].(buffer := [])
    decreases |sources|
  {
    if sources != [] {
      PayloadPositive(sources[..|sources| - 1]);
      DeliveredKeeps(sources[..|sources| - 1], payload);
    }
  }

  lemma SubchKeepsValid(r: Reader, rest: seq<byte>)
    requires Valid(r) && r.phase.Subch?
    ensures NextSubch(r, rest).Goes? ==> Valid(NextSubch(r, rest).next) && NextSubch(r, rest).n <= |rest|
  {
    SourcesNonNegative(r);
    var n := Payload(r.sources);
    if |rest| >= n {
      ValidAgrees(r);
      TookWraps(r, n);
      TookFields(r, n);
      DeliveredKeeps(r.sources, rest);
      AgreementKept(r.stc, r.sources, Delivered(r.sources, rest));
      hide *;
      StaysValid(r, Took(r, n).(phase := Eof, sources := Delivered(r.sources, rest)));
      NextSubchIs(r, rest);
    }
  }

  lemma ValidAgrees(r: Reader)
    requires Valid(r)
    ensures |r.stc| == 4 * |r.sources| && forall i | 0 <= i < |r.sources| :: r.sources[i].(buffer := []) == SourceOf(r.stc, i)
  {
    hide SourceOf;
  }

  lemma StaysValid(r: Reader, next: Reader)
    requires Valid(r) && InFrame(r.phase) && InFrame(next.phase) && (!next.phase.Nst? ==> |next.sources| == NstOf(r.fc))
    requires next.fc == r.fc && next.fic == r.fic && |next.stc| == 4 * |next.sources| && 0 <= next.framesize < 65536
    requires forall i | 0 <= i < |next.sources| :: next.sources[i].(buffer := []) == SourceOf(next.stc, i)
    requires (next.since + next.framesize) % 65536 == (r.since + r.framesize) % 65536
    ensures Valid(next)
  {
    hide SourceOf, NstOf;
  }

  lemma NextSubchIs(r: Reader, rest: seq<byte>)
    requires Valid(r) && |rest| >= Payload(r.sources) >= 0
    ensures NextSubch(r, rest)
         == Goes(Took(r, Payload(r.sources)).(phase := Eof, sources := Delivered(r.sources, rest)), Payload(r.sources))
  {
    hide Payload, Delivered, Took;
  }

  /** Sources that differ only in their buffers agree with the same stream characterisation. */
  lemma AgreementKept(stc: seq<byte>, a: seq<Source>, b: seq<Source>)
    requires |stc| == 4 * |a| == 4 * |b|
    requires forall i | 0 <= i < |a| :: a[i].(buffer := []) == SourceOf(stc, i)
    requires forall i | 0 <= i < |a| :: b[i].(buffer := []) == a[i].(buffer := [])
    ensures forall i | 0 <= i < |b| :: b[i].(buffer := []) == SourceOf(stc, i)
  {
    hide SourceOf;
    forall i | 0 <= i < |b| ensures b[i].(buffer := []) == SourceOf(stc, i) {
      assert a[i].(buffer := []) == SourceOf(stc, i);
    }
  }

  lemma TookFields(r: Reader, n: nat)
    ensures Took(r, n) == r.(framesize := Took(r, n).framesize, since := r.since + n)
  {
    hide Wrap;
  }

  // ----- The whole loop -----

  /** How the loop ends: all bytes used, more needed, an exception, or a read past the end. */
  datatype End = Used | Waiting | Thrown | Overrun

  datatype Parsed = Parsed(reader: Reader, n: nat, end: End)

  ghost function Run(r: Reader, rest: seq<byte>): (x: Parsed)
    requires Valid(r)
    ensures x.n <= |rest| && (x.end.Used? || x.end.Waiting? ==> Valid(x.reader))
    ensures x.end.Used? ==> x.n == |rest|
    decreases |rest|, Rank(r.phase)
  {
    if rest == [] then Parsed(r, 0, Used)
    else
      NextKeepsValid(r, rest);
      match Next(r, rest)
      case Waits => Parsed(r, 0, Waiting)
      case Throws(next, n) => Parsed(next, n, Thrown)
      case Overruns => Parsed(r, 0, Overrun)
      case Goes(next, n) => var x := Run(next, rest[n..]); x.(n := n + x.n)
  }

  lemma {:induction false} DeliveredPrefix(sources: seq<Source>, a: seq<byte>, b: seq<byte>)
    requires Payload(sources) <= |a| && NonNegative(sources)
    ensures Delivered(sources, a + b) == Delivered(sources, a)
    decreases |sources|
  {
    if sources != [] {
      var i := |sources| - 1;
      PayloadPositive(sources[..i]);
      DeliveredPrefix(sources[..i], a, b);
      var at, end := Payload(sources[..i]), Payload(sources);
      assert (a + b)[at..end] == a[at..end];
    }
  }

  /** A round that can go on does the same when more bytes follow. */
  lemma NextPrefix(r: Reader, a: seq<byte>, b: seq<byte>)
    requires Valid(r) && a != []
    requires Next(r, a).Goes? || Next(r, a).Throws?
    ensures Next(r, a + b) == Next(r, a)
  {
    if r.phase.Subch? {
      SourcesNonNegative(r);
      DeliveredPrefix(r.sources, a, b);
    } else if r.phase.Nst? {
      var n := 4 * NstOf(r.fc);
      assert (a + b)[..n] == a[..n];
    } else if r.phase.Fic? {
      var n := FicSize(r.fc);
      assert (a + b)[..n] == a[..n];
    } else {
      assert |a| >= 4 ==> (a + b)[..4] == a[..4];
      hide NewSources, SourceOf;
    }
  }

  lemma {:induction false} RunUnfolds(r: Reader, rest: seq<byte>)
    requires Valid(r) && rest != []
    ensures var s := Next(r, rest);
            && (s.Waits? ==> Run(r, rest) == Parsed(r, 0, Waiting))
            && (s.Throws? ==> Run(r, rest) == Parsed(s.next, s.n, Thrown))
            && (s.Overruns? ==> Run(r, rest) == Parsed(r, 0, Overrun))
            && (s.Goes? ==> && Valid(s.next) && s.n <= |rest|
                            && (s.n > 0 || Rank(s.next.phase) < Rank(r.phase))
                            && var x := Run(s.next, rest[s.n..]); Run(r, rest) == x.(n := s.n + x.n))
  {
    NextKeepsValid(r, rest);
    hide Next, Valid, Rank;
  }

  lemma RunEmpty(r: Reader, rest: seq<byte>)
    requires Valid(r) && rest == []
    ensures Run(r, rest) == Parsed(r, 0, Used)
  {
    hide Valid;
  }

  /** A stream may be fed in pieces: what the first piece leaves over is presented again
      in front of the second, and the result is that of both at once. */
  lemma {:induction false} Pieces(r: Reader, a: seq<byte>, b: seq<byte>)
    requires Valid(r) && (Run(r, a).end.Used? || Run(r, a).end.Waiting?)
    ensures var x := Run(r, a);
            var y := Run(x.reader, a[x.n..] + b);
            Run(r, a + b) == y.(n := x.n + y.n)
    decreases |a|, Rank(r.phase)
  {
    hide *;
    if a == [] {
      RunEmpty(r, a);
      assert a[0..] + b == b && a + b == b;
    } else {
      RunUnfolds(r, a);
      var step := Next(r, a);
      if step.Goes? {
        NextPrefix(r, a, b);
        RunUnfolds(r, a + b);
        var n := step.n;
        Pieces(step.next, a[n..], b);
        assert (a + b)[n..] == a[n..] + b;
        var x := Run(step.next, a[n..]);
        assert a[n..][x.n..] == a[n + x.n..];
      } else {
        assert a[0..] == a;
      }
    }
  }

  function Concat(pieces: seq<seq<byte>>): seq<byte> {
    if pieces == [] then [] else pieces[0] + Concat(pieces[1..])
  }

  /** The reader after some pieces, the bytes left over, and whether nothing went wrong. */
  datatype Fed = Fed(reader: Reader, left: seq<byte>, ok: bool)

  ghost function Feed(r: Reader, carry: seq<byte>, pieces: seq<seq<byte>>): Fed
    requires Valid(r)
    decreases |pieces|
  {
    if pieces == [] then Fed(r, carry, true)
    else
      var data := carry + pieces[0];
      var x := Run(r, data);
      if x.end.Used? || x.end.Waiting? then Feed(x.reader, data[x.n..], pieces[1..]) else Fed(x.reader, [], false)
  }

  /** However a stream is cut, the reader ends up as after the whole stream at once. */
  lemma {:induction false} AnyPieces(r: Reader, carry: seq<byte>, pieces: seq<seq<byte>>)
    requires Valid(r) && pieces != [] && Feed(r, carry, pieces).ok
    ensures var all := carry + Concat(pieces);
            && Run(r, all).reader == Feed(r, carry, pieces).reader
            && all[Run(r, all).n..] == Feed(r, carry, pieces).left
    decreases |pieces|
  {
    hide Run, Valid;
    var data := carry + pieces[0];
    var x := Run(r, data);
    var more := Concat(pieces[1..]);
    assert carry + Concat(pieces) == data + more;
    if |pieces| == 1 {
      assert data + more == data && Feed(x.reader, data[x.n..], []) == Fed(x.reader, data[x.n..], true);
    } else {
      AnyPieces(x.reader, data[x.n..], pieces[1..]);
      Pieces(r, data, more);
      var y := Run(x.reader, data[x.n..] + more);
      assert (data[x.n..] + more)[y.n..] == (data + more)[x.n + y.n..];
    }
  }

  // ----- The timestamp before the first frame characterisation -----

  lemma {:induction false} FicStays(r: Reader, rest: seq<byte>)
    requires Valid(r) && r.fic.Some?
    ensures Run(r, rest).reader.fic.Some?
    decreases |rest|, Rank(r.phase)
  {
    hide Run, Valid;
    if rest == [] {
      RunEmpty(r, rest);
    } else {
      RunUnfolds(r, rest);
      NextKeepsFic(r, rest);
      hide Next;
      if Next(r, rest).Goes? {
        FicStays(Next(r, rest).next, rest[Next(r, rest).n..]);
      }
    }
  }

  lemma NextKeepsFic(r: Reader, rest: seq<byte>)
    requires Valid(r) && r.fic.Some? && rest != []
    ensures Next(r, rest).Goes? || Next(r, rest).Throws? ==> Next(r, rest).next.fic.Some?
  {
    hide Wrap, NewSources, Delivered, Payload, SourceOf, NonNegative;
  }

  /** So many bytes end between two fields before the frame characterisation. */
  predicate EndsBeforeFc(p: Phase, n: nat) {
    match p
    case NbFrame => n == 0 || n == 4 || n == 6 || n == 10
    case FrameSize => n == 0 || n == 2 || n == 6
    case Sync => n == 0 || n == 4
    case Fc => n == 0
    case _ => false
  }

  /** While there is no FIC source, a call uses up its bytes without making one, and then uses
      it for the timestamp, exactly when they end between two fields before the frame
      characterisation: in Sync for no bytes or four, in Fc for no bytes. */
  lemma {:induction false} NoFicSourceIff(r: Reader, data: seq<byte>)
    requires Valid(r) && r.fic.None?
    ensures Run(r, data).end.Used? && Run(r, data).reader.fic.None? <==> EndsBeforeFc(r.phase, |data|)
    decreases |data|
  {
    hide Run, Valid;
    NotInFrame(r);
    if data == [] {
      RunEmpty(r, data);
    } else {
      RunUnfolds(r, data);
      StartRound(r, data);
      var s := Next(r, data);
      hide Next;
      if s.Goes? {
        if r.phase.Fc? {
          FicStays(s.next, data[s.n..]);
        } else {
          NoFicSourceIff(s.next, data[s.n..]);
        }
      }
    }
  }

  lemma NotInFrame(r: Reader)
    requires Valid(r) && r.fic.None?
    ensures r.phase.NbFrame? || r.phase.FrameSize? || r.phase.Sync? || r.phase.Fc?
  {
  }

  lemma StartRound(r: Reader, data: seq<byte>)
    requires Valid(r) && r.fic.None? && data != []
    ensures var s, k := Next(r, data), if r.phase.FrameSize? then 2 else 4;
            && (|data| < k <==> s.Waits?)
            && (s.Goes? ==> s.n == k && (s.next.fic.None? <==> !r.phase.Fc?))
            && (s.Goes? && !r.phase.Fc? ==>
                  s.next.phase == if r.phase.NbFrame? then FrameSize else if r.phase.FrameSize? then Sync else Fc)
            && !s.Overruns? && (s.Throws? ==> r.phase.Fc?)
  {
    NotInFrame(r);
  }

  // ----- The loop over the sub-channels -----

  lemma PayloadSplit(sources: seq<Source>, i: nat)
    requires i < |sources|
    ensures Payload(sources[..i + 1]) == Payload(sources[..i]) + sources[i].FrameSize()
  {
    assert sources[..i + 1][..i] == sources[..i];
  }

  lemma {:induction false} PayloadPrefix(sources: seq<Source>, i: nat)
    requires i <= |sources| && NonNegative(sources)
    ensures 0 <= Payload(sources[..i]) <= Payload(sources)
    decreases |sources| - i
  {
    PayloadPositive(sources[..i]);
    if i < |sources| {
      PayloadSplit(sources, i);
      PayloadPrefix(sources, i + 1);
    } else {
      assert sources[..i] == sources;
    }
  }

  predicate AtFrameStart(r: Reader) {
    r.phase.Sync? || (r.phase.Pad? && r.framesize == 0)
  }

  /** The first i sources have got their share. */
  function Partial(sources: seq<Source>, payload: seq<byte>, i: nat): (r: seq<Source>)
    requires i <= |sources| && Payload(sources) <= |payload| && NonNegative(sources)
    ensures |r| == |sources|
  {
    PayloadPrefix(sources, i);
    Delivered(sources[..i], payload) + sources[i..]
  }

  lemma DeliveredStart(sources: seq<Source>, payload: seq<byte>)
    requires Payload(sources) <= |payload| && NonNegative(sources)
    ensures Payload(sources[..0]) == 0 && Partial(sources, payload, 0) == sources
  {
  }

  lemma ShareBounds(sources: seq<Source>, i: nat)
    requires i < |sources| && NonNegative(sources)
    ensures 0 <= Payload(sources[..i]) <= Payload(sources[..i + 1]) <= Payload(sources)
    ensures Payload(sources[..i + 1]) == Payload(sources[..i]) + sources[i].FrameSize()
  {
    hide Payload;
    PayloadPrefix(sources, i);
    PayloadPrefix(sources, i + 1);
    PayloadSplit(sources, i);
    SizePositive(sources, i);
  }

  lemma {:induction false} DeliveredNext(sources: seq<Source>, payload: seq<byte>, i: nat)
    requires i < |sources| && Payload(sources) <= |payload| && NonNegative(sources)
    requires 0 <= Payload(sources[..i]) <= Payload(sources[..i + 1]) <= |payload|
    ensures Partial(sources, payload, i)[i] == sources[i]
    ensures Partial(sources, payload, i + 1)
         == Partial(sources, payload, i)[i :=
              sources[i].(buffer := payload[Payload(sources[..i])..Payload(sources[..i + 1])])]
  {
    hide *;
    DeliveredSnoc(sources, payload, i);
    PartialIs(sources, payload, i);
    PartialIs(sources, payload, i + 1);
    Replace(Delivered(sources[..i], payload), sources,
            sources[i].(buffer := payload[Payload(sources[..i])..Payload(sources[..i + 1])]));
  }

  lemma SizePositive(sources: seq<Source>, i: nat)
    requires i < |sources| && NonNegative(sources)
    ensures sources[i].FrameSize() >= 0
  {
    assert sources[i] in sources;
  }

  lemma {:induction false} PartialIs(sources: seq<Source>, payload: seq<byte>, i: nat)
    requires i <= |sources| && Payload(sources) <= |payload| && NonNegative(sources)
    ensures NonNegative(sources[..i]) && Payload(sources[..i]) <= |payload|
    ensures Partial(sources, payload, i) == Delivered(sources[..i], payload) + sources[i..]
  {
    PayloadPrefix(sources, i);
    hide Delivered, Payload;
  }

  lemma Replace<T>(done: seq<T>, all: seq<T>, x: T)
    requires |done| < |all|
    ensures (done + all[|done|..])[|done|] == all[|done|]
    ensures (done + [x]) + all[|done| + 1..] == (done + all[|done|..])[|done| := x]
  {
  }

  lemma {:induction false} DeliveredSnoc(sources: seq<Source>, payload: seq<byte>, i: nat)
    requires i < |sources| && Payload(sources[..i + 1]) <= |payload| && NonNegative(sources)
    requires 0 <= Payload(sources[..i]) <= Payload(sources[..i + 1])
    ensures Delivered(sources[..i + 1], payload)
         == Delivered(sources[..i], payload)
          + [sources[i].(buffer := payload[Payload(sources[..i])..Payload(sources[..i + 1])])]
  {
    assert sources[..i + 1][..i] == sources[..i];
  }

  lemma DeliveredAll(sources: seq<Source>, payload: seq<byte>)
    requires Payload(sources) <= |payload| && NonNegative(sources)
    ensures sources[..|sources|] == sources && Partial(sources, payload, |sources|) == Delivered(sources, payload)
  {
    assert sources[..|sources|] == sources;
  }

  lemma WrapTwice(x: int, n: int, m: int)
    ensures Wrap(Wrap(x - n) - m) == Wrap(x - (n + m))
  {
    var a := x - n;
    ModSub(a, m, 65536);
    ModSub(a % 65536, m, 65536);
    assert a % 65536 % 65536 == a % 65536;
  }

  lemma WrapNone(x: int)
    requires 0 <= x < 65536
    ensures Wrap(x) == x
  {
  }

  lemma ValidHeader(r: Reader)
    requires Valid(r)
    ensures InFrame(r.phase) ==> |r.fc| == 4 && r.fic.Some?
  {
  }

  lemma FieldBound(r: Reader)
    requires Valid(r)
    ensures 0 <= r.framesize < 65536
  {
  }

  lemma NstWaits(r: Reader, rest: seq<byte>)
    requires |r.fc| == 4
    ensures |rest| < 4 * NstOf(r.fc) ==> NextNst(r, rest) == Waits
  {
    hide NewSources, Took;
  }

  lemma FicWaits(r: Reader, rest: seq<byte>)
    requires |r.fc| == 4 && r.fic.Some?
    ensures |rest| < FicSize(r.fc) ==> NextFic(r, rest) == Waits
  {
    hide Took;
  }

  // ----- The object -----

  /** What loadEtiData does: return the bytes consumed, throw because a frame has no FIC, use the
      FIC source for the timestamp although no frame has made one yet, or read past its data. */
  datatype LoadResult = Consumed(n: nat) | FicAbsent | NoFicSource | ReadPastEnd

  /** How one round of the switch ends. */
  datatype Outcome = Went(n: nat) | Blocked | Threw | Overran

  ghost function RoundOf(outcome: Outcome, next: Reader): Round {
    match outcome
    case Went(n) => Goes(next, n)
    case Blocked => Waits
    case Threw => Throws(next, 4)
    case Overran => Overruns
  }

  class EtiReader {
    var phase: Phase
    var framesize: int
    var sync: seq<byte>
    var fc: seq<byte>
    var fcValid: bool
    var stc: seq<byte>
    var eoh: seq<byte>
    var eof: seq<byte>
    var tist: seq<byte>
    var fic: Option<FicSource>
    var sources: seq<Source>
    ghost var since: nat

    ghost function Snapshot(): Reader
      reads this
    {
      Reader(phase, framesize, sync, fc, fcValid, stc, eoh, eof, tist, fic, sources, since)
    }

    constructor ()
      ensures Valid(Snapshot()) && AtFrameStart(Snapshot()) && fic == None && !fcValid
    {
      phase, framesize, fcValid := Sync, 0, false;
      sync, fc, stc, eoh, eof, tist := [], [], [], [], [], [];
      fic, sources, since := None, [], 0;
    }

    method Take(n: nat)
      modifies `framesize, `since
      ensures Snapshot() == Took(old(Snapshot()), n)
    {
      framesize := Wrap(framesize - n);
      since := since + n;
    }

    /** Frame characterisation; true when the source throws. */
    method OnFc(rest: seq<byte>) returns (thrown: bool)
      requires Valid(Snapshot()) && phase.Fc? && |rest| >= 4
      modifies this
      ensures NextFc(old(Snapshot()), rest) == if thrown then Throws(Snapshot(), 4) else Goes(Snapshot(), 4)
    {
      fc := rest[..4];
      fcValid := true;
      Take(4);
      phase := Nst;
      if FicfOf(fc) == 0 {
        return true;
      }
      if fic.None? {
        fic := Some(FicSource(FicfOf(fc), MidOf(fc), []));
      }
      return false;
    }

    /** A source for every sub-channel of the stream characterisation. */
    method MakeSources(count: nat)
      requires 4 * count <= |stc|
      modifies `sources
      ensures sources == NewSources(stc, count)
    {
      hide SourceOf;
      sources := [];
      for i := 0 to count
        invariant sources == NewSources(stc, i)
      {
        sources := sources + [SourceOf(stc, i)];
      }
    }

    /** Stream characterisation: new sources when it differs from the last one. */
    method OnNst(rest: seq<byte>) returns (n: nat)
      requires Valid(Snapshot()) && phase.Nst? && |rest| >= 4 * NstOf(fc)
      modifies this
      ensures NextNst(old(Snapshot()), rest) == Goes(Snapshot(), n)
    {
      var count := NstOf(fc);
      hide Valid, NewSources, Wrap;
      n := 4 * count;
      if |stc| != n || stc != rest[..n] {
        stc := rest[..n];
        MakeSources(count);
      }
      framesize := Wrap(framesize - n);
      since := since + n;
      phase := Eoh;
    }

    method OnFic(rest: seq<byte>) returns (n: nat)
      requires Valid(Snapshot()) && phase.Fic? && |rest| >= FicSize(fc)
      modifies this
      ensures NextFic(old(Snapshot()), rest) == Goes(Snapshot(), n)
    {
      n := if MidOf(fc) == 3 then 128 else 96;
      fic := Some(fic.value.(buffer := rest[..n]));
      Take(n);
      phase := Subch;
    }

    /** The payload of sub-channel i, which begins at n. */
    method DeliverOne(rest: seq<byte>, i: nat, n: nat, ghost all: seq<Source>) returns (next: nat)
      requires i < |all| && NonNegative(all) && 0 <= Payload(all) <= |rest|
      requires sources == Partial(all, rest, i) && n == Payload(all[..i])
      modifies `sources, `framesize, `since
      ensures sources == Partial(all, rest, i + 1) && next == Payload(all[..i + 1]) && n <= next <= |rest|
      ensures framesize == Wrap(old(framesize) - (next - n)) && since == old(since) + (next - n)
    {
      hide *;
      ShareBounds(all, i);
      DeliveredNext(all, rest, i);
      var size := sources[i].FrameSize();
      next := n + size;
      sources := sources[i := sources[i].(buffer := rest[n..next])];
      framesize := Wrap(framesize - size);
      since := since + size;
    }

    /** The payload of every sub-channel in turn. */
    method Deliver(rest: seq<byte>) returns (n: nat)
      requires NonNegative(sources) && 0 <= Payload(sources) <= |rest| && 0 <= framesize < 65536
      modifies `sources, `framesize, `since
      ensures n == Payload(old(sources)) && sources == Delivered(old(sources), rest)
      ensures framesize == Wrap(old(framesize) - n) && since == old(since) + n
    {
      hide *;
      ghost var all := sources;
      n := 0;
      DeliveredStart(sources, rest);
      WrapNone(framesize);
      for i := 0 to |sources|
        invariant |sources| == |all|
        invariant sources == Partial(all, rest, i) && n == Payload(all[..i])
        invariant framesize == Wrap(old(framesize) - n) && since == old(since) + n
      {
        ghost var before := n;
        n := DeliverOne(rest, i, n, all);
        WrapTwice(old(framesize), before, n - before);
      }
      DeliveredAll(all, rest);
    }

    /** The source does not look whether the payload is there; what it reads then is not modelled. */
    method OnSubch(rest: seq<byte>) returns (outcome: Outcome)
      requires Valid(Snapshot()) && phase.Subch?
      modifies this
      ensures NextSubch(old(Snapshot()), rest) == RoundOf(outcome, Snapshot())
      ensures !outcome.Went? ==> Snapshot() == old(Snapshot())
    {
      SourcesNonNegative(Snapshot());
      SourcesNonNegative(Snapshot());
      FieldBound(Snapshot());
      hide Delivered, Payload, NonNegative, Valid, Wrap;
      if |rest| < Payload(sources) {
        return Overran;
      }
      var n := Deliver(rest);
      phase := Eof;
      return Went(n);
    }

    /** One round of the switch. */
    method Round(rest: seq<byte>) returns (outcome: Outcome)
      requires Valid(Snapshot()) && rest != []
      modifies this
      ensures Next(old(Snapshot()), rest) == RoundOf(outcome, Snapshot())
      ensures outcome.Blocked? || outcome.Overran? ==> Snapshot() == old(Snapshot())
    {
      hide Valid, NextFc, NextNst, NextFic, NextSubch, Took;
      ghost var before := Snapshot();
      ValidHeader(before);
      match phase {
        case Fc =>
          if |rest| < 4 { return Blocked; }
          var thrown := OnFc(rest);
          return if thrown then Threw else Went(4);
        case Nst =>
          NstWaits(before, rest);
          if |rest| < 4 * NstOf(fc) { return Blocked; }
          var n := OnNst(rest);
          return Went(n);
        case Fic =>
          FicWaits(before, rest);
          if |rest| < FicSize(fc) { return Blocked; }
          var n := OnFic(rest);
          return Went(n);
        case Subch =>
          outcome := OnSubch(rest);
        case Pad =>
          var n := OnPad();
          return Went(n);
        case _ =>
          var blocked, n := OnField(rest);
          return if blocked then Blocked else Went(n);
      }
    }

    /** The fields of a fixed number of bytes. */
    method OnField(rest: seq<byte>) returns (blocked: bool, n: nat)
      requires phase.NbFrame? || phase.FrameSize? || phase.Sync? || phase.Eoh? || phase.Eof? || phase.Tist?
      requires Valid(Snapshot()) && rest != []
      modifies this
      ensures Next(old(Snapshot()), rest) == if blocked then Waits else Goes(Snapshot(), n)
      ensures blocked ==> Snapshot() == old(Snapshot())
    {
      hide Valid;
      n := if phase.FrameSize? then 2 else 4;
      if |rest| < n {
        return true, 0;
      }
      blocked := false;
      match phase {
        case NbFrame => phase := FrameSize;
        case FrameSize =>
          framesize := Word(rest[1], rest[0]);
          phase := Sync;
        case Sync =>
          framesize, since := FRAME, 0;
          sync := rest[..4];
          framesize := framesize - 4;
          since := 4;
          phase := Fc;
        case Eoh =>
          eoh := rest[..4];
          Take(4);
          phase := Fic;
        case Eof =>
          eof := rest[..4];
          Take(4);
          phase := Tist;
        case Tist =>
          tist := rest[..4];
          Take(4);
          phase := Pad;
      }
    }

    method OnPad() returns (n: nat)
      requires phase.Pad?
      modifies this
      ensures var r := old(Snapshot());
              if r.framesize > 0 then n == 1 && Snapshot() == Took(r, 1) else n == 0 && Snapshot() == r.(phase := Sync)
    {
      if framesize > 0 {
        Take(1);
        return 1;
      }
      phase := Sync;
      return 0;
    }

    /** loadEtiData. The timestamp is passed on only when all bytes have been used. */
    method Load(data: seq<byte>) returns (result: LoadResult)
      requires Valid(Snapshot())
      modifies this
      ensures Snapshot() == Run(old(Snapshot()), data).reader
      ensures var x := Run(old(Snapshot()), data);
              result == if x.end.Thrown? then FicAbsent
                        else if x.end.Overrun? then ReadPastEnd
                        else if x.end.Used? && x.reader.fic.None? then NoFicSource
                        else Consumed(x.n)
    {
      hide Run, Valid, Next, Rank;
      ghost var before := Snapshot();
      var at := 0;
      assert data[0..] == data;
      while at < |data|
        invariant at <= |data| && Valid(Snapshot())
        invariant var x := Run(Snapshot(), data[at..]); Run(before, data) == x.(n := at + x.n)
        decreases |data| - at, Rank(Snapshot().phase)
      {
        var rest := data[at..];
        ghost var r := Snapshot();
        RunUnfolds(r, rest);
        var outcome := Round(rest);
        match outcome {
          case Blocked => return Consumed(at);
          case Threw => return FicAbsent;
          case Overran => return ReadPastEnd;
          case Went(n) =>
            assert rest[n..] == data[at + n..];
            at := at + n;
        }
      }
      RunEmpty(Snapshot(), data[at..]);
      if fic.None? {
        return NoFicSource;
      }
      return Consumed(at);
    }
  }
}
