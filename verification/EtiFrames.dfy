/** Frames and streams of frames in `EtiReader.cpp`: what a well-formed frame hands over,
    and where a stream may be cut. */
module EtiFrames {
  import opened Common
  import opened EtiReading

  // ----- A whole frame -----

  function StcEnd(frame: seq<byte>): int
    requires |frame| == FRAME
  {
    8 + 4 * NstOf(frame[4..8])
  }

  /** The places of the FIC, the sub-channels and the end of the frame's contents. */
  function FicAt(frame: seq<byte>): int
    requires |frame| == FRAME
  {
    StcEnd(frame) + 4
  }

  function SubchAt(frame: seq<byte>): int
    requires |frame| == FRAME
  {
    FicAt(frame) + FicSize(frame[4..8])
  }

  function Declared(frame: seq<byte>): seq<Source>
    requires |frame| == FRAME
  {
    NewSources(frame[8..StcEnd(frame)], NstOf(frame[4..8]))
  }

  /** A FIC is present and the declared contents fit the frame. */
  predicate WellFormed(frame: seq<byte>) {
    |frame| == FRAME && FicfOf(frame[4..8]) == 1 && SubchAt(frame) + Payload(Declared(frame)) + 8 <= FRAME
  }

  lemma NextAfterFc(r: Reader, rest: seq<byte>) returns (h: Reader)
    requires Valid(r) && r.phase.Fc? && |rest| >= 4 && FicfOf(rest[..4]) == 1
    requires r.framesize == FRAME - 4 && r.since == 4
    ensures Next(r, rest) == Goes(h, 4)
    ensures h.phase.Nst? && h.fc == rest[..4] && h.framesize == FRAME - 8 && h.since == 8 && h.sync == r.sync
  {
    TookExact(r, 4);
    h := Next(r, rest).next;
    hide Valid, Wrap;
  }

  predicate SameFields(r: Reader, next: Reader) {
    next.sync == r.sync && next.eoh == r.eoh && next.eof == r.eof && next.tist == r.tist
  }

  /** Where the end of frame field is. */
  function EofAt(frame: seq<byte>): int
    requires |frame| == FRAME
  {
    SubchAt(frame) + Payload(Declared(frame))
  }

  /** The fields of the frame that have been passed are stored. */
  ghost predicate Stored(r: Reader, frame: seq<byte>)
    requires WellFormed(frame)
  {
    Layout(frame);
    && r.sync == frame[..4] && r.fc == frame[4..8]
    && (r.phase.Fic? || r.phase.Subch? || r.phase.Eof? || r.phase.Tist? || r.phase.Pad? ==>
          r.eoh == frame[StcEnd(frame)..FicAt(frame)])
    && (r.phase.Tist? || r.phase.Pad? ==> r.eof == frame[EofAt(frame)..EofAt(frame) + 4])
    && (r.phase.Pad? ==> r.tist == frame[EofAt(frame) + 4..EofAt(frame) + 8])
  }

  lemma StoredIs(r: Reader, frame: seq<byte>)
    requires WellFormed(frame)
    ensures EofAt(frame) == SubchAt(frame) + Payload(Declared(frame)) && FicAt(frame) == StcEnd(frame) + 4
    ensures 0 <= StcEnd(frame) <= StcEnd(frame) + 4 <= FRAME == |frame| && 0 <= EofAt(frame) <= EofAt(frame) + 8 <= FRAME
    ensures Stored(r, frame) <==>
            && r.sync == frame[..4] && r.fc == frame[4..8]
            && (r.phase.Fic? || r.phase.Subch? || r.phase.Eof? || r.phase.Tist? || r.phase.Pad? ==>
                  r.eoh == frame[StcEnd(frame)..StcEnd(frame) + 4])
            && (r.phase.Tist? || r.phase.Pad? ==> r.eof == frame[EofAt(frame)..EofAt(frame) + 4])
            && (r.phase.Pad? ==> r.tist == frame[EofAt(frame) + 4..EofAt(frame) + 8])
  {
    Layout(frame);
    hide StcEnd, SubchAt, Declared, Payload;
  }

  /** A round that takes n of the bytes left in the frame. */
  ghost predicate Takes(r: Reader, rest: seq<byte>, next: Reader, n: nat) {
    && Valid(r) && rest != [] && Next(r, rest) == Goes(next, n) && n <= |rest| && InFrame(next.phase)
    && (r.framesize == |rest| ==> next.framesize == |rest| - n) && next.since == r.since + n && next.fc == r.fc
  }

  lemma TakesInside(r: Reader, frame: seq<byte>, at: int, next: Reader, n: nat)
    requires Inside(r, frame, at) && at < FRAME && Takes(r, frame[at..], next, n)
    ensures Inside(next, frame, at + n) && at + n <= FRAME
  {
    NextKeepsValid(r, frame[at..]);
    hide Next, Valid;
  }

  lemma TookExact(r: Reader, n: nat)
    requires n <= r.framesize < 65536
    ensures Took(r, n).framesize == r.framesize - n
  {
  }

  lemma NstRound(r: Reader, rest: seq<byte>) returns (next: Reader)
    requires Valid(r) && r.phase.Nst? && |rest| >= 4 * NstOf(r.fc) && |rest| > 0 && r.framesize == |rest|
    ensures Takes(r, rest, next, 4 * NstOf(r.fc)) && next.phase.Eoh? && next.stc == rest[..4 * NstOf(r.fc)]
    ensures SameFields(r, next)
  {
    next := Next(r, rest).next;
    TookExact(r, 4 * NstOf(r.fc));
    hide Valid, Wrap, NewSources;
  }

  /** The fields of four bytes that only have to be stored. */
  lemma FieldRound(r: Reader, rest: seq<byte>) returns (next: Reader)
    requires Valid(r) && (r.phase.Eoh? || r.phase.Eof? || r.phase.Tist?) && |rest| >= 4 && r.framesize == |rest|
    ensures Takes(r, rest, next, 4) && next.stc == r.stc && next.sources == r.sources && next.fic == r.fic
    ensures next.phase == if r.phase.Eoh? then Fic else if r.phase.Eof? then Tist else Pad
    ensures next.sync == r.sync && next.eoh == (if r.phase.Eoh? then rest[..4] else r.eoh)
    ensures next.eof == (if r.phase.Eof? then rest[..4] else r.eof) && next.tist == (if r.phase.Tist? then rest[..4] else r.tist)
  {
    next := Next(r, rest).next;
    TookExact(r, 4);
    hide Valid, Wrap;
  }

  lemma FicRound(r: Reader, rest: seq<byte>) returns (next: Reader)
    requires Valid(r) && r.phase.Fic? && |rest| >= FicSize(r.fc) && r.framesize == |rest|
    ensures Takes(r, rest, next, FicSize(r.fc)) && next.phase.Subch? && next.stc == r.stc && next.sources == r.sources
    ensures r.fic.Some? && next.fic == Some(r.fic.value.(buffer := rest[..FicSize(r.fc)])) && SameFields(r, next)
  {
    next := Next(r, rest).next;
    TookExact(r, FicSize(r.fc));
    hide Wrap;
  }

  lemma SubchRound(r: Reader, rest: seq<byte>) returns (next: Reader)
    requires Valid(r) && r.phase.Subch? && rest != [] && |rest| >= Payload(r.sources) && r.framesize == |rest|
    ensures Payload(r.sources) >= 0 && NonNegative(r.sources)
    ensures Takes(r, rest, next, Payload(r.sources)) && next.phase.Eof? && next.stc == r.stc && next.fic == r.fic
    ensures next.sources == Delivered(r.sources, rest) && SameFields(r, next)
  {
    SourcesNonNegative(r);
    next := Next(r, rest).next;
    TookExact(r, Payload(r.sources));
    hide Valid, Wrap, Payload, Delivered;
  }

  lemma {:induction false} SamePayload(a: seq<Source>, b: seq<Source>)
    requires |a| == |b| && forall i | 0 <= i < |a| :: a[i].stl == b[i].stl
    ensures Payload(a) == Payload(b)
    decreases |a|
  {
    if a != [] {
      SamePayload(a[..|a| - 1], b[..|b| - 1]);
    }
  }

  /** The share of sub-channel i. */
  lemma {:induction false} DeliveredSlice(sources: seq<Source>, payload: seq<byte>, i: nat)
    requires i < |sources| && Payload(sources) <= |payload| && NonNegative(sources)
    ensures var at := Payload(sources[..i]);
            && 0 <= at && at + sources[i].FrameSize() <= |payload|
            && Delivered(sources, payload)[i].buffer == payload[at..at + sources[i].FrameSize()]
    decreases |sources|
  {
    PayloadPrefix(sources, i);
    PayloadPrefix(sources, i + 1);
    PayloadSplit(sources, i);
    var n := |sources| - 1;
    if i < n {
      PayloadPositive(sources[..n]);
      DeliveredSlice(sources[..n], payload, i);
      assert sources[..n][..i] == sources[..i];
    }
  }

  /** Where the bytes of sub-channel i are. */
  function SliceAt(frame: seq<byte>, i: nat): int
    requires |frame| == FRAME && i <= |Declared(frame)|
  {
    SubchAt(frame) + Payload(Declared(frame)[..i])
  }

  lemma DeclaredNonNegative(frame: seq<byte>)
    requires |frame| == FRAME
    ensures |Declared(frame)| == NstOf(frame[4..8]) && NonNegative(Declared(frame))
    ensures forall i | 0 <= i < |Declared(frame)| ::
              Declared(frame)[i].(buffer := []) == SourceOf(frame[8..StcEnd(frame)], i)
  {
    NewSourcesAgree(frame[8..StcEnd(frame)], NstOf(frame[4..8]));
    forall s | s in Declared(frame) ensures s.stl >= 0 {
      var i :| 0 <= i < |Declared(frame)| && Declared(frame)[i] == s;
      assert Declared(frame)[i].(buffer := []) == SourceOf(frame[8..StcEnd(frame)], i);
    }
  }

  lemma SlicesInside(frame: seq<byte>, i: nat)
    requires WellFormed(frame) && i < |Declared(frame)|
    ensures 0 <= SliceAt(frame, i) <= SliceAt(frame, i) + Declared(frame)[i].FrameSize() <= FRAME
  {
    DeclaredNonNegative(frame);
    assert Declared(frame)[i] in Declared(frame);
    hide Declared, SourceOf;
    PayloadPrefix(Declared(frame), i);
    PayloadPrefix(Declared(frame), i + 1);
    PayloadSplit(Declared(frame), i);
  }

  /** The reader handed over exactly the slices that the frame's header declares. */
  ghost predicate HandedOver(r: Reader, frame: seq<byte>)
    requires WellFormed(frame)
  {
    && r.stc == frame[8..StcEnd(frame)] && |r.sources| == |Declared(frame)|
    && r.fic.Some? && r.fic.value.buffer == frame[FicAt(frame)..SubchAt(frame)]
    && forall i | 0 <= i < |r.sources| ::
         SlicesInside(frame, i);
         r.sources[i] == Declared(frame)[i].(
           buffer := frame[SliceAt(frame, i)..SliceAt(frame, i) + Declared(frame)[i].FrameSize()])
  }

  lemma SliceOf(frame: seq<byte>, at: nat, n: nat)
    requires at + n <= |frame|
    ensures frame[at..][..n] == frame[at..at + n]
  {
  }

  lemma {:induction false} Layout(frame: seq<byte>)
    requires WellFormed(frame)
    ensures |frame| == FRAME == 6144 && 0 <= 4 * NstOf(frame[4..8]) <= 508
    ensures StcEnd(frame) == 8 + 4 * NstOf(frame[4..8]) && FicAt(frame) == StcEnd(frame) + 4
    ensures SubchAt(frame) == FicAt(frame) + FicSize(frame[4..8]) && 0 < FicSize(frame[4..8])
    ensures SubchAt(frame) + Payload(Declared(frame)) + 8 <= FRAME && Payload(Declared(frame)) >= 0
  {
    DeclaredNonNegative(frame);
    PayloadPositive(Declared(frame));
    hide NewSources, Payload;
  }

  /** A reader inside a frame, at a place of the frame. */
  ghost predicate Inside(r: Reader, frame: seq<byte>, at: int) {
    && |frame| == FRAME && 0 <= at <= FRAME && Valid(r) && InFrame(r.phase)
    && r.framesize == FRAME - at && r.since == at && r.fc == frame[4..8]
  }

  lemma InsideIs(r: Reader, frame: seq<byte>, at: int)
    requires Inside(r, frame, at)
    ensures |frame| == FRAME == 6144 && 0 <= at <= FRAME && Valid(r) && r.framesize == |frame[at..]| == FRAME - at
    ensures r.fc == frame[4..8] && Exact(r)
  {
    hide Valid;
  }

  lemma SourcesAreDeclared(r: Reader, frame: seq<byte>)
    requires WellFormed(frame) && Inside(r, frame, SubchAt(frame)) && r.phase.Subch? && r.stc == frame[8..StcEnd(frame)]
    ensures |r.sources| == |Declared(frame)| && Payload(r.sources) == Payload(Declared(frame))
    ensures NonNegative(r.sources)
    ensures forall i | 0 <= i < |r.sources| ::
              r.sources[i].(buffer := []) == Declared(frame)[i].(buffer := []) && Declared(frame)[i].buffer == []
  {
    DeclaredNonNegative(frame);
    DeclaredEmpty(frame[8..StcEnd(frame)], NstOf(frame[4..8]));
    SourcesNonNegative(r);
    hide NewSources, SourceOf, Payload;
    forall i | 0 <= i < |r.sources| ensures r.sources[i].(buffer := []) == Declared(frame)[i].(buffer := []) {
      assert r.sources[i].(buffer := []) == SourceOf(r.stc, i);
    }
    forall i | 0 <= i < |r.sources| ensures r.sources[i].stl == Declared(frame)[i].stl {
      assert r.sources[i].(buffer := []).stl == Declared(frame)[i].(buffer := []).stl;
    }
    SamePayload(r.sources, Declared(frame));
  }

  lemma {:induction false} DeclaredEmpty(stc: seq<byte>, n: nat)
    requires 4 * n <= |stc|
    ensures forall i | 0 <= i < n :: NewSources(stc, n)[i].buffer == []
    decreases n
  {
    if n > 0 {
      DeclaredEmpty(stc, n - 1);
    }
  }

  /** A delivered source is the declared one with its slice of the frame. */
  lemma SliceDelivered(d: Source, frame: seq<byte>, i: nat, at: nat, n: nat)
    requires WellFormed(frame) && i < |Declared(frame)| && d.(buffer := []) == Declared(frame)[i].(buffer := [])
    requires at == Payload(Declared(frame)[..i]) && n == Declared(frame)[i].FrameSize()
    requires 0 <= SubchAt(frame) <= FRAME && at + n <= FRAME - SubchAt(frame)
    requires d.buffer == frame[SubchAt(frame)..][at..at + n]
    ensures 0 <= SliceAt(frame, i) <= SliceAt(frame, i) + Declared(frame)[i].FrameSize() <= FRAME
    ensures d == Declared(frame)[i].(buffer := frame[SliceAt(frame, i)..SliceAt(frame, i) + Declared(frame)[i].FrameSize()])
  {
    hide *;
    Layout(frame);
    SliceIs(frame, i);
    assert frame[SubchAt(frame)..][at..at + n] == frame[SubchAt(frame) + at..SubchAt(frame) + at + n];
    OnlyBuffer(d, Declared(frame)[i]);
  }

  lemma SamePrefix(a: seq<Source>, b: seq<Source>, i: nat)
    requires i < |a| == |b| && forall j | 0 <= j < |a| :: a[j].(buffer := []) == b[j].(buffer := [])
    ensures Payload(a[..i]) == Payload(b[..i]) && a[i].FrameSize() == b[i].FrameSize()
  {
    hide Payload;
    forall j | 0 <= j < |a| ensures a[j].stl == b[j].stl {
      assert a[j].(buffer := []).stl == b[j].(buffer := []).stl;
    }
    SamePayload(a[..i], b[..i]);
  }

  lemma OnlyBuffer(d: Source, e: Source)
    requires d.(buffer := []) == e.(buffer := [])
    ensures d == e.(buffer := d.buffer)
  {
    var x, y := d.(buffer := []), e.(buffer := []);
    assert x.start == y.start && x.stl == y.stl && x.tpl == y.tpl;
  }

  lemma SliceIs(frame: seq<byte>, i: nat)
    requires |frame| == FRAME && i <= |Declared(frame)|
    ensures SliceAt(frame, i) == SubchAt(frame) + Payload(Declared(frame)[..i])
  {
  }

  lemma HandedOverIs(r: Reader, frame: seq<byte>)
    requires WellFormed(frame) && r.stc == frame[8..StcEnd(frame)] && |r.sources| == |Declared(frame)|
    requires r.fic.Some? && r.fic.value.buffer == frame[FicAt(frame)..SubchAt(frame)]
    requires forall i | 0 <= i < |r.sources| ::
               && 0 <= SliceAt(frame, i) <= SliceAt(frame, i) + Declared(frame)[i].FrameSize() <= FRAME
               && r.sources[i] == Declared(frame)[i].(
                    buffer := frame[SliceAt(frame, i)..SliceAt(frame, i) + Declared(frame)[i].FrameSize()])
    ensures HandedOver(r, frame)
  {
    hide Declared, SliceAt, WellFormed, FicAt, SubchAt, StcEnd;
  }

  lemma SameHandedOver(a: Reader, b: Reader, frame: seq<byte>)
    requires WellFormed(frame) && HandedOver(a, frame) && b.stc == a.stc && b.sources == a.sources && b.fic == a.fic
    ensures HandedOver(b, frame)
  {
    hide Declared, SliceAt, WellFormed, FicAt, SubchAt, StcEnd;
  }

  lemma FicIsThere(frame: seq<byte>)
    requires WellFormed(frame)
    ensures |frame| == FRAME && FicfOf(frame[4..8]) == 1
  {
  }

  // ----- Part of a frame -----

  /** The readers right after each round that handed over the sub-channels. */
  ghost function Handed(r: Reader, rest: seq<byte>): seq<Reader>
    requires Valid(r)
    decreases |rest|, Rank(r.phase)
  {
    if rest == [] then []
    else
      NextKeepsValid(r, rest);
      match Next(r, rest)
      case Goes(next, n) => (if r.phase.Subch? then [next] else []) + Handed(next, rest[n..])
      case _ => []
  }

  lemma {:induction false} HandedUnfolds(r: Reader, rest: seq<byte>)
    requires Valid(r) && rest != []
    ensures !Next(r, rest).Goes? ==> Handed(r, rest) == []
    ensures var s := Next(r, rest);
            s.Goes? ==> && Valid(s.next) && s.n <= |rest|
                        && Handed(r, rest) == (if r.phase.Subch? then [s.next] else []) + Handed(s.next, rest[s.n..])
  {
    NextKeepsValid(r, rest);
    hide Next, Valid, Rank;
  }

  lemma HandedNone(r: Reader, rest: seq<byte>)
    requires Valid(r) && rest == []
    ensures Handed(r, rest) == []
  {
    hide Valid;
  }

  /** What has been consumed of the frame and what is left of it are the whole frame. */
  predicate Exact(r: Reader) {
    r.phase.Fc? || InFrame(r.phase) ==> r.since + r.framesize == FRAME
  }

  /** A round inside a frame keeps the sum exactly when it takes no more than what is left;
      otherwise the 16-bit field wraps around. */
  lemma ExactIff(r: Reader, rest: seq<byte>)
    requires Valid(r) && rest != [] && (r.phase.Fc? || InFrame(r.phase)) && Exact(r) && Next(r, rest).Goes?
    ensures var s := Next(r, rest); Exact(s.next) <==> s.n <= r.framesize || s.next.phase.Sync?
  {
    FieldBound(r);
    NextTakes(r, rest);
    hide Next, Valid, Wrap;
    WrapExact(r.framesize, Next(r, rest).n);
  }

  lemma NextTakes(r: Reader, rest: seq<byte>)
    requires Valid(r) && rest != [] && (r.phase.Fc? || InFrame(r.phase)) && Next(r, rest).Goes?
    ensures var s := Next(r, rest);
            s.next.phase.Sync? || (InFrame(s.next.phase) && TookFrom(r, s.next, s.n))
  {
    ValidHeader(r);
    if r.phase.Fc? {
      NextFcTakes(r, rest);
    } else if r.phase.Nst? {
      NextNstTakes(r, rest);
    } else if r.phase.Fic? {
      NextFicTakes(r, rest);
    } else if r.phase.Subch? {
      NextSubchTakes(r, rest);
    }
    hide Valid, Wrap, NextFc, NextNst, NextFic, NextSubch;
  }

  predicate TookFrom(r: Reader, next: Reader, n: int) {
    next.framesize == Wrap(r.framesize - n) && next.since == r.since + n
  }

  lemma NextFcTakes(r: Reader, rest: seq<byte>)
    requires |rest| >= 4
    ensures var s := NextFc(r, rest); s.Goes? ==> s.next.phase.Nst? && TookFrom(r, s.next, s.n)
  {
    hide Wrap;
  }

  lemma NextNstTakes(r: Reader, rest: seq<byte>)
    requires |r.fc| == 4
    ensures var s := NextNst(r, rest); s.Goes? ==> s.next.phase.Eoh? && TookFrom(r, s.next, s.n)
  {
    hide Wrap, NewSources;
  }

  lemma NextFicTakes(r: Reader, rest: seq<byte>)
    requires |r.fc| == 4 && r.fic.Some?
    ensures var s := NextFic(r, rest); s.Goes? ==> s.next.phase.Subch? && TookFrom(r, s.next, s.n)
  {
    hide Wrap;
  }

  lemma NextSubchTakes(r: Reader, rest: seq<byte>)
    requires Valid(r)
    ensures var s := NextSubch(r, rest); s.Goes? ==> s.next.phase.Eof? && TookFrom(r, s.next, s.n)
  {
    hide Wrap, Delivered, Payload;
  }

  lemma WrapExact(f: int, n: nat)
    requires 0 <= f < 65536
    ensures n + Wrap(f - n) == f <==> n <= f
  {
  }

  /** Place c lies strictly inside the payload of the sub-channels. */
  predicate InPayload(frame: seq<byte>, c: int)
    requires WellFormed(frame)
  {
    SubchAt(frame) < c < SubchAt(frame) + Payload(Declared(frame))
  }

  /** The round of the sub-channels is over when the frame has arrived up to c. */
  predicate PayloadDone(frame: seq<byte>, c: int)
    requires WellFormed(frame)
  {
    SubchAt(frame) < c && SubchAt(frame) + Payload(Declared(frame)) <= c
  }

  predicate BeforePayload(r: Reader) {
    !(r.phase.Eof? || r.phase.Tist? || r.phase.Pad?)
  }

  /** From a reader at a place of the frame, the bytes up to c are parsed as they should be. */
  ghost predicate ParsesTo(r: Reader, frame: seq<byte>, at: int, c: int) {
    && WellFormed(frame) && Valid(r) && 0 <= at <= c <= |frame|
    && var x, h := Run(r, frame[at..c]), Handed(r, frame[at..c]);
    && !x.end.Thrown? && (x.end.Overrun? <==> InPayload(frame, c)) && Exact(x.reader)
    && (if BeforePayload(r) && PayloadDone(frame, c) then |h| == 1 && HandedOver(h[0], frame) else h == [])
    && (c == FRAME ==> x.end.Used? && AtFrameStart(x.reader) && HandedOver(x.reader, frame)
                       && x.reader.phase.Pad? && Stored(x.reader, frame))
  }

  /** With fewer bytes a round goes on in the same way, or stops. */
  lemma NextOfPrefix(r: Reader, rest: seq<byte>, n: nat, k: nat)
    requires Valid(r) && 0 < k <= |rest| && Next(r, rest).Goes? && Next(r, rest).n == n
    ensures Next(r, rest[..k]) == if k >= n then Next(r, rest) else if r.phase.Subch? then Overruns else Waits
  {
    var a, b := rest[..k], rest[k..];
    assert rest == a + b;
    if k >= n {
      StillGoes(r, a, b);
      NextPrefix(r, a, b);
    } else {
      StopsShort(r, a, b, n);
    }
  }

  lemma StillGoes(r: Reader, a: seq<byte>, b: seq<byte>)
    requires Valid(r) && a != [] && Next(r, a + b).Goes? && Next(r, a + b).n <= |a|
    ensures Next(r, a).Goes?
  {
    hide NewSources, SourceOf, Wrap, Delivered;
    assert |a| >= 4 ==> (a + b)[..4] == a[..4];
  }

  lemma StopsShort(r: Reader, a: seq<byte>, b: seq<byte>, n: nat)
    requires Valid(r) && a != [] && |a| < n && Next(r, a + b).Goes? && Next(r, a + b).n == n
    ensures Next(r, a) == if r.phase.Subch? then Overruns else Waits
  {
    hide NewSources, SourceOf, Wrap, Delivered;
  }

  /** One round on the way through the frame. */
  lemma StepParses(r: Reader, frame: seq<byte>, at: int, next: Reader, n: nat, c: int)
    requires WellFormed(frame) && Valid(r) && Exact(r) && 0 <= at <= c <= FRAME && at + n <= FRAME && at < FRAME
    requires Next(r, frame[at..]) == Goes(next, n)
    requires at < c && at + n <= c ==> ParsesTo(next, frame, at + n, c)
    requires c == at ==> !InPayload(frame, c)
    requires at < c < at + n ==> (InPayload(frame, c) <==> r.phase.Subch?)
    requires c == at || c < at + n ==> !(BeforePayload(r) && PayloadDone(frame, c))
    requires if r.phase.Subch? then HandedOver(next, frame) && !BeforePayload(next) && (at < c && at + n <= c ==> PayloadDone(frame, c))
             else BeforePayload(next) == BeforePayload(r)
    ensures ParsesTo(r, frame, at, c)
  {
    hide Valid, Next, Run, Handed, HandedOver, Declared, Payload, SubchAt;
    var rest, a := frame[at..], frame[at..c];
    assert rest[..c - at] == a;
    if c == at {
      RunEmpty(r, a);
      HandedNone(r, a);
    } else {
      NextOfPrefix(r, rest, n, c - at);
      RunUnfolds(r, a);
      HandedUnfolds(r, a);
      if c >= at + n {
        assert a[n..] == frame[at + n..c];
      }
    }
  }

  /** The places of the header, the payload and the end of the contents. */
  lemma Places(frame: seq<byte>, c: int)
    requires WellFormed(frame)
    ensures InPayload(frame, c) <==> SubchAt(frame) < c < SubchAt(frame) + Payload(Declared(frame))
    ensures PayloadDone(frame, c) <==> SubchAt(frame) < c && SubchAt(frame) + Payload(Declared(frame)) <= c
  {
    hide SubchAt, Declared, Payload;
  }

  lemma PhaseFacts(r: Reader)
    ensures BeforePayload(r) <==> !(r.phase.Eof? || r.phase.Tist? || r.phase.Pad?)
    ensures AtFrameStart(r) <==> r.phase.Sync? || (r.phase.Pad? && r.framesize == 0)
  {
  }

  lemma StoredNext(r: Reader, next: Reader, frame: seq<byte>)
    requires WellFormed(frame) && Stored(r, frame) && SameFields(r, next) && next.fc == r.fc
    requires next.phase == if r.phase.Nst? then Eoh else if r.phase.Fic? then Subch else if r.phase.Subch? then Eof else r.phase
    ensures Stored(next, frame)
  {
    StoredIs(r, frame);
    StoredIs(next, frame);
    hide Stored;
  }

  lemma PadRound(r: Reader, rest: seq<byte>) returns (next: Reader)
    requires Valid(r) && r.phase.Pad? && rest != [] && r.framesize == |rest|
    ensures Takes(r, rest, next, 1) && next.phase.Pad? && next.stc == r.stc && next.sources == r.sources && next.fic == r.fic
    ensures SameFields(r, next)
  {
    next := Next(r, rest).next;
    TookExact(r, 1);
    hide Valid, Wrap;
  }

  /** The rest of the frame is padding. */
  lemma {:induction false} PadParses(r: Reader, frame: seq<byte>, at: int, c: int)
    requires WellFormed(frame) && Inside(r, frame, at) && r.phase.Pad? && HandedOver(r, frame) && Stored(r, frame)
    requires SubchAt(frame) + Payload(Declared(frame)) <= at <= c <= FRAME
    ensures ParsesTo(r, frame, at, c)
    decreases c - at
  {
    hide *;
    InsideIs(r, frame, at);
    Places(frame, c);
    PhaseFacts(r);
    if at == FRAME {
      EndParses(r, frame);
    } else {
      var next := PadRound(r, frame[at..]);
      TakesIs(r, frame[at..], next, 1);
      TakesInside(r, frame, at, next, 1);
      PhaseFacts(next);
      SameHandedOver(r, next, frame);
      StoredNext(r, next, frame);
      if at + 1 <= c {
        PadParses(next, frame, at + 1, c);
      }
      StepParses(r, frame, at, next, 1, c);
    }
  }

  lemma TakesIs(r: Reader, rest: seq<byte>, next: Reader, n: nat)
    requires Takes(r, rest, next, n)
    ensures Next(r, rest) == Goes(next, n) && n <= |rest| && rest != [] && next.fc == r.fc
  {
    hide Valid, Next;
  }

  lemma EndParses(r: Reader, frame: seq<byte>)
    requires WellFormed(frame) && Inside(r, frame, FRAME) && r.phase.Pad? && HandedOver(r, frame) && Stored(r, frame)
    requires SubchAt(frame) + Payload(Declared(frame)) <= FRAME
    ensures ParsesTo(r, frame, FRAME, FRAME)
  {
    hide Valid, SubchAt, Declared, Payload, HandedOver;
    RunEmpty(r, frame[FRAME..FRAME]);
    HandedNone(r, frame[FRAME..FRAME]);
  }

  /** The two fields behind the payload, and the padding. */
  lemma TailParses(r: Reader, frame: seq<byte>, c: int)
    requires WellFormed(frame) && r.phase.Eof? && HandedOver(r, frame)
    requires Inside(r, frame, SubchAt(frame) + Payload(Declared(frame))) && Stored(r, frame)
    requires SubchAt(frame) + Payload(Declared(frame)) <= c <= FRAME
    ensures ParsesTo(r, frame, SubchAt(frame) + Payload(Declared(frame)), c)
  {
    hide *;
    Layout(frame);
    Places(frame, c);
    StoredIs(r, frame);
    var at := SubchAt(frame) + Payload(Declared(frame));
    var a := FieldParses(r, frame, at);
    var b := FieldParses(a, frame, at + 4);
    if at + 8 <= c {
      PadParses(b, frame, at + 8, c);
    }
    if at + 4 <= c {
      StepParses(a, frame, at + 4, b, 4, c);
    }
    StepParses(r, frame, at, a, 4, c);
  }

  /** A field behind the payload. */
  lemma FieldParses(r: Reader, frame: seq<byte>, at: int) returns (next: Reader)
    requires WellFormed(frame) && Inside(r, frame, at) && (r.phase.Eof? || r.phase.Tist?) && HandedOver(r, frame) && Stored(r, frame)
    requires at + 4 <= FRAME && at == if r.phase.Eof? then EofAt(frame) else EofAt(frame) + 4
    ensures next.phase == (if r.phase.Eof? then Tist else Pad) && Inside(next, frame, at + 4) && HandedOver(next, frame) && Stored(next, frame)
    ensures Valid(r) && Exact(r) && Next(r, frame[at..]) == Goes(next, 4) && !BeforePayload(r) && !BeforePayload(next)
  {
    hide *;
    InsideIs(r, frame, at);
    next := FieldRound(r, frame[at..]);
    TakesIs(r, frame[at..], next, 4);
    TakesInside(r, frame, at, next, 4);
    SameHandedOver(r, next, frame);
    SliceOf(frame, at, 4);
    StoredIs(r, frame);
    StoredIs(next, frame);
    PhaseFacts(r);
    PhaseFacts(next);
  }

  /** The round of the sub-channels hands over the declared slices. */
  lemma SubchParses(r: Reader, frame: seq<byte>, c: int)
    requires WellFormed(frame) && Inside(r, frame, SubchAt(frame)) && r.phase.Subch? && r.stc == frame[8..StcEnd(frame)]
    requires r.fic.Some? && r.fic.value.buffer == frame[FicAt(frame)..SubchAt(frame)] && Stored(r, frame)
    requires SubchAt(frame) <= c <= FRAME
    ensures ParsesTo(r, frame, SubchAt(frame), c)
  {
    hide *;
    Layout(frame);
    Places(frame, c);
    var at, n := SubchAt(frame), Payload(Declared(frame));
    InsideIs(r, frame, at);
    var next := SubchHandsOver(r, frame);
    TakesIs(r, frame[at..], next, n);
    TakesInside(r, frame, at, next, n);
    StoredNext(r, next, frame);
    PhaseFacts(r);
    PhaseFacts(next);
    if at + n <= c {
      TailParses(next, frame, c);
    }
    StepParses(r, frame, at, next, n, c);
  }

  lemma SubchHandsOver(r: Reader, frame: seq<byte>) returns (h: Reader)
    requires WellFormed(frame) && Inside(r, frame, SubchAt(frame)) && r.phase.Subch? && r.stc == frame[8..StcEnd(frame)]
    requires r.fic.Some? && r.fic.value.buffer == frame[FicAt(frame)..SubchAt(frame)]
    ensures Payload(Declared(frame)) >= 0 && 0 <= SubchAt(frame) <= |frame|
    ensures Takes(r, frame[SubchAt(frame)..], h, Payload(Declared(frame))) && h.phase.Eof? && HandedOver(h, frame)
    ensures SameFields(r, h)
  {
    hide *;
    Layout(frame);
    var at := SubchAt(frame);
    InsideIs(r, frame, at);
    SourcesAreDeclared(r, frame);
    h := SubchRound(r, frame[at..]);
    forall i | 0 <= i < |h.sources|
      ensures 0 <= SliceAt(frame, i) <= SliceAt(frame, i) + Declared(frame)[i].FrameSize() <= FRAME
      ensures h.sources[i] == Declared(frame)[i].(
                buffer := frame[SliceAt(frame, i)..SliceAt(frame, i) + Declared(frame)[i].FrameSize()])
    {
      DeliveredSlice(r.sources, frame[at..], i);
      DeliveredKeeps(r.sources, frame[at..]);
      SamePrefix(r.sources, Declared(frame), i);
      SlicesInside(frame, i);
      SliceDelivered(h.sources[i], frame, i, Payload(r.sources[..i]), r.sources[i].FrameSize());
    }
    HandedOverIs(h, frame);
  }

  lemma FicParses(r: Reader, frame: seq<byte>, c: int)
    requires WellFormed(frame) && Inside(r, frame, FicAt(frame)) && r.phase.Fic? && r.stc == frame[8..StcEnd(frame)]
    requires FicAt(frame) <= c <= FRAME && Stored(r, frame)
    ensures ParsesTo(r, frame, FicAt(frame), c)
  {
    hide *;
    Layout(frame);
    Places(frame, c);
    var at, n := FicAt(frame), FicSize(frame[4..8]);
    InsideIs(r, frame, at);
    var next := FicRound(r, frame[at..]);
    SliceOf(frame, at, n);
    TakesIs(r, frame[at..], next, n);
    TakesInside(r, frame, at, next, n);
    StoredNext(r, next, frame);
    PhaseFacts(r);
    PhaseFacts(next);
    if at + n <= c {
      SubchParses(next, frame, c);
    }
    StepParses(r, frame, at, next, n, c);
  }

  lemma EohParses(r: Reader, frame: seq<byte>, c: int)
    requires WellFormed(frame) && Inside(r, frame, StcEnd(frame)) && r.phase.Eoh? && r.stc == frame[8..StcEnd(frame)]
    requires StcEnd(frame) <= c <= FRAME && Stored(r, frame)
    ensures ParsesTo(r, frame, StcEnd(frame), c)
  {
    hide *;
    Layout(frame);
    Places(frame, c);
    var at := StcEnd(frame);
    InsideIs(r, frame, at);
    var next := FieldRound(r, frame[at..]);
    TakesIs(r, frame[at..], next, 4);
    TakesInside(r, frame, at, next, 4);
    SliceOf(frame, at, 4);
    StoredIs(r, frame);
    StoredIs(next, frame);
    PhaseFacts(r);
    PhaseFacts(next);
    if at + 4 <= c {
      FicParses(next, frame, c);
    }
    StepParses(r, frame, at, next, 4, c);
  }

  lemma NstParses(r: Reader, frame: seq<byte>, c: int)
    requires WellFormed(frame) && Inside(r, frame, 8) && r.phase.Nst? && 8 <= c <= FRAME && Stored(r, frame)
    ensures ParsesTo(r, frame, 8, c)
  {
    hide *;
    Layout(frame);
    Places(frame, c);
    var n := 4 * NstOf(frame[4..8]);
    InsideIs(r, frame, 8);
    var next := NstRound(r, frame[8..]);
    SliceOf(frame, 8, n);
    TakesIs(r, frame[8..], next, n);
    TakesInside(r, frame, 8, next, n);
    StoredNext(r, next, frame);
    PhaseFacts(r);
    PhaseFacts(next);
    if 8 + n <= c {
      EohParses(next, frame, c);
    }
    StepParses(r, frame, 8, next, n, c);
  }

  lemma FcParses(r: Reader, frame: seq<byte>, c: int)
    requires WellFormed(frame) && Valid(r) && r.phase.Fc? && r.framesize == FRAME - 4 && r.since == 4 && 4 <= c <= FRAME
    requires r.sync == frame[..4]
    ensures ParsesTo(r, frame, 4, c)
  {
    hide *;
    Layout(frame);
    Places(frame, c);
    FicIsThere(frame);
    SliceOf(frame, 4, 4);
    var next := NextAfterFc(r, frame[4..]);
    AfterFcInside(r, frame, next);
    StoredIs(next, frame);
    PhaseFacts(r);
    PhaseFacts(next);
    if 8 <= c {
      NstParses(next, frame, c);
    }
    StepParses(r, frame, 4, next, 4, c);
  }

  lemma AfterFcInside(r: Reader, frame: seq<byte>, next: Reader)
    requires |frame| == FRAME && Valid(r) && r.phase.Fc? && r.framesize == FRAME - 4 && r.since == 4
    requires Next(r, frame[4..]) == Goes(next, 4) && next.phase.Nst? && next.fc == frame[4..8]
    requires next.framesize == FRAME - 8 && next.since == 8
    ensures Inside(next, frame, 8) && Exact(r)
  {
    NextKeepsValid(r, frame[4..]);
    hide Valid, Next;
  }

  lemma SyncParses(r: Reader, frame: seq<byte>, c: int)
    requires WellFormed(frame) && Valid(r) && r.phase.Sync? && 0 <= c <= FRAME
    ensures ParsesTo(r, frame, 0, c)
  {
    hide *;
    Layout(frame);
    Places(frame, c);
    var next := SyncRound(r, frame);
    PhaseFacts(r);
    PhaseFacts(next);
    if 4 <= c {
      FcParses(next, frame, c);
    }
    StepParses(r, frame, 0, next, 4, c);
  }

  lemma SyncRound(r: Reader, frame: seq<byte>) returns (next: Reader)
    requires Valid(r) && r.phase.Sync? && |frame| == FRAME
    ensures Next(r, frame[0..]) == Goes(next, 4) && Valid(next) && Exact(r)
    ensures next.phase.Fc? && next.framesize == FRAME - 4 && next.since == 4 && next.sync == frame[..4]
  {
    NextKeepsValid(r, frame[0..]);
    next := Next(r, frame[0..]).next;
    hide Valid;
  }

  /** Between frames the padding phase gives way to the next start of frame without taking a byte. */
  lemma StartOfFrame(r: Reader, rest: seq<byte>)
    requires Valid(r) && AtFrameStart(r) && rest != []
    ensures Valid(r.(phase := Sync)) && Run(r, rest) == Run(r.(phase := Sync), rest)
    ensures Handed(r, rest) == Handed(r.(phase := Sync), rest)
  {
    if r.phase.Pad? {
      RunUnfolds(r, rest);
      HandedUnfolds(r, rest);
      hide Run, Handed;
      assert rest[0..] == rest;
    } else {
      assert r.(phase := Sync) == r;
    }
  }

  /** Wherever a well-formed frame is cut: the reader reads past its data exactly when the cut
      lies strictly inside the payload; the sub-channels are handed over exactly once the payload
      is there; and past the synchronisation field, what has been consumed and what is left
      are 6144 bytes. */
  lemma FrameCut(r: Reader, frame: seq<byte>, c: int)
    requires Valid(r) && AtFrameStart(r) && WellFormed(frame) && 0 <= c <= |frame|
    ensures var x := Run(r, frame[..c]);
            && !x.end.Thrown? && (x.end.Overrun? <==> InPayload(frame, c)) && (c > 0 || Exact(r) ==> Exact(x.reader))
            && (c == FRAME ==> x.end.Used? && x.n == FRAME && Valid(x.reader) && AtFrameStart(x.reader)
                               && HandedOver(x.reader, frame) && x.reader.phase.Pad? && Stored(x.reader, frame))
    ensures var h := Handed(r, frame[..c]);
            if PayloadDone(frame, c) then |h| == 1 && HandedOver(h[0], frame) else h == []
  {
    hide *;
    Layout(frame);
    Places(frame, c);
    if c == 0 {
      RunEmpty(r, frame[..c]);
      HandedNone(r, frame[..c]);
    } else {
      StartOfFrame(r, frame[..c]);
      SyncParses(r.(phase := Sync), frame, c);
      PhaseFacts(r.(phase := Sync));
      assert frame[0..c] == frame[..c];
      ParsesToIs(r.(phase := Sync), frame, c);
    }
  }

  lemma ParsesToIs(r: Reader, frame: seq<byte>, c: int)
    requires ParsesTo(r, frame, 0, c) && BeforePayload(r)
    ensures Valid(r) && WellFormed(frame) && |frame| == FRAME
    ensures var x := Run(r, frame[0..c]);
            && !x.end.Thrown? && (x.end.Overrun? <==> InPayload(frame, c)) && Exact(x.reader)
            && (c == FRAME ==> x.end.Used? && x.n == FRAME && Valid(x.reader) && AtFrameStart(x.reader)
                               && HandedOver(x.reader, frame) && x.reader.phase.Pad? && Stored(x.reader, frame))
    ensures var h := Handed(r, frame[0..c]);
            if PayloadDone(frame, c) then |h| == 1 && HandedOver(h[0], frame) else h == []
  {
    hide Valid, Run, Handed, HandedOver, InPayload, PayloadDone;
  }

  /** A well-formed frame is taken as a whole: the FIC and every sub-channel get exactly the
      bytes that the header declares, and the reader is ready for the next frame. */
  lemma FrameParsed(r: Reader, frame: seq<byte>)
    requires Valid(r) && AtFrameStart(r) && WellFormed(frame)
    ensures var x := Run(r, frame);
            && x.end.Used? && x.n == FRAME && Valid(x.reader) && AtFrameStart(x.reader) && HandedOver(x.reader, frame)
            && x.reader.phase.Pad? && Stored(x.reader, frame)
  {
    hide *;
    Layout(frame);
    assert frame[..FRAME] == frame;
    FrameCut(r, frame, FRAME);
  }

  // ----- Streams of frames -----

  ghost predicate AllWellFormed(frames: seq<seq<byte>>) {
    forall f | f in frames :: WellFormed(f)
  }

  /** Place p of the stream lies strictly inside the payload of its frame. */
  ghost predicate CutsPayload(frames: seq<seq<byte>>, p: nat)
    requires AllWellFormed(frames)
  {
    p / FRAME < |frames| && InPayload(frames[p / FRAME], p % FRAME)
  }

  /** The frames whose payload is complete at place p of the stream. */
  ghost function DoneFrames(frames: seq<seq<byte>>, p: nat): nat
    requires AllWellFormed(frames)
  {
    p / FRAME + if p / FRAME < |frames| && PayloadDone(frames[p / FRAME], p % FRAME) then 1 else 0
  }

  /** The first readers in h handed over these frames, in order. */
  ghost predicate InOrder(h: seq<Reader>, frames: seq<seq<byte>>)
    requires AllWellFormed(frames)
  {
    |h| <= |frames| && forall i | 0 <= i < |h| :: HandedOver(h[i], frames[i])
  }

  lemma {:induction false} HandedPieces(r: Reader, a: seq<byte>, b: seq<byte>)
    requires Valid(r) && (Run(r, a).end.Used? || Run(r, a).end.Waiting?)
    ensures var x := Run(r, a); Handed(r, a + b) == Handed(r, a) + Handed(x.reader, a[x.n..] + b)
    decreases |a|, Rank(r.phase)
  {
    hide *;
    if a == [] {
      RunEmpty(r, a);
      HandedNone(r, a);
      assert a[0..] + b == b && a + b == b;
    } else {
      RunUnfolds(r, a);
      HandedUnfolds(r, a);
      var step := Next(r, a);
      if step.Goes? {
        NextPrefix(r, a, b);
        HandedUnfolds(r, a + b);
        var n, next := step.n, step.next;
        HandedPieces(next, a[n..], b);
        TailOfBoth(a, b, n);
        var x := Run(next, a[n..]);
        TailOfTail(a, n, x.n);
        Assoc(if r.phase.Subch? then [next] else [], Handed(next, a[n..]), Handed(x.reader, a[n..][x.n..] + b));
      } else {
        assert a[0..] == a;
      }
    }
  }

  lemma TailOfBoth(a: seq<byte>, b: seq<byte>, n: nat)
    requires n <= |a|
    ensures (a + b)[n..] == a[n..] + b
  {
  }

  lemma TailOfTail(a: seq<byte>, n: nat, m: nat)
    requires n + m <= |a|
    ensures a[n..][m..] == a[n + m..]
  {
  }

  lemma Assoc<T>(a: seq<T>, b: seq<T>, c: seq<T>)
    ensures (a + b) + c == a + (b + c)
  {
  }

  lemma PlaceInStream(frames: seq<seq<byte>>, p: nat)
    requires AllWellFormed(frames) && frames != []
    ensures |frames[0]| == FRAME && AllWellFormed(frames[1..]) && WellFormed(frames[0])
    ensures p < FRAME ==> CutsPayload(frames, p) == InPayload(frames[0], p)
    ensures p < FRAME ==> DoneFrames(frames, p) == if PayloadDone(frames[0], p) then 1 else 0
    ensures p >= FRAME ==> CutsPayload(frames, p) == CutsPayload(frames[1..], p - FRAME)
    ensures p >= FRAME ==> DoneFrames(frames, p) == 1 + DoneFrames(frames[1..], p - FRAME)
  {
    hide WellFormed, InPayload, PayloadDone;
    WellFormedLength(frames[0]);
    if p >= FRAME {
      assert (p - FRAME) / FRAME == p / FRAME - 1 && (p - FRAME) % FRAME == p % FRAME;
      if p / FRAME < |frames| {
        assert frames[1..][p / FRAME - 1] == frames[p / FRAME];
      }
    }
  }

  lemma WellFormedLength(frame: seq<byte>)
    requires WellFormed(frame)
    ensures |frame| == FRAME
  {
  }

  /** Wherever a stream of well-formed frames is cut. */
  lemma {:induction false} StreamCut(r: Reader, frames: seq<seq<byte>>, p: nat)
    requires Valid(r) && AtFrameStart(r) && AllWellFormed(frames) && p <= |Concat(frames)|
    ensures var x := Run(r, Concat(frames)[..p]);
            && !x.end.Thrown? && (x.end.Overrun? <==> CutsPayload(frames, p)) && (p > 0 || Exact(r) ==> Exact(x.reader))
            && (p == |Concat(frames)| ==> x.end.Used? && AtFrameStart(x.reader))
    ensures var h := Handed(r, Concat(frames)[..p]); |h| == DoneFrames(frames, p) && InOrder(h, frames)
    decreases |frames|
  {
    hide *;
    var all := Concat(frames);
    ConcatIs(frames);
    if frames == [] {
      RunEmpty(r, all[..p]);
      HandedNone(r, all[..p]);
      NoFrames(frames);
    } else {
      var frame, more := frames[0], Concat(frames[1..]);
      PlaceInStream(frames, p);
      if p < FRAME {
        assert all[..p] == frame[..p];
        FrameCut(r, frame, p);
        InOrderOne(Handed(r, all[..p]), frames);
      } else {
        var b := more[..p - FRAME];
        assert all[..p] == frame + b;
        assert frame[..FRAME] == frame;
        FrameCut(r, frame, FRAME);
        EndIsDone(frame);
        var x := Run(r, frame);
        assert frame[FRAME..] + b == b;
        Pieces(r, frame, b);
        HandedPieces(r, frame, b);
        StreamCut(x.reader, frames[1..], p - FRAME);
        InOrderMore(Handed(r, frame), Handed(x.reader, b), frames);
      }
    }
  }

  lemma EndIsDone(frame: seq<byte>)
    requires WellFormed(frame)
    ensures PayloadDone(frame, FRAME)
  {
    Layout(frame);
    hide SubchAt, Declared, Payload, WellFormed;
  }

  lemma ConcatIs(frames: seq<seq<byte>>)
    ensures Concat(frames) == if frames == [] then [] else frames[0] + Concat(frames[1..])
  {
  }

  lemma NoFrames(frames: seq<seq<byte>>)
    requires frames == []
    ensures AllWellFormed(frames) && !CutsPayload(frames, 0) && DoneFrames(frames, 0) == 0 && InOrder([], frames)
  {
  }

  lemma InOrderOne(h: seq<Reader>, frames: seq<seq<byte>>)
    requires AllWellFormed(frames) && frames != [] && WellFormed(frames[0])
    requires h == [] || (|h| == 1 && HandedOver(h[0], frames[0]))
    ensures InOrder(h, frames)
  {
    hide HandedOver, WellFormed;
  }

  lemma InOrderMore(h: seq<Reader>, more: seq<Reader>, frames: seq<seq<byte>>)
    requires AllWellFormed(frames) && frames != [] && WellFormed(frames[0]) && AllWellFormed(frames[1..])
    requires |h| == 1 && HandedOver(h[0], frames[0]) && InOrder(more, frames[1..])
    ensures InOrder(h + more, frames)
  {
    hide HandedOver, WellFormed;
    forall i | 0 <= i < |h + more| ensures HandedOver((h + more)[i], frames[i]) {
      if i > 0 {
        assert frames[1..][i - 1] == frames[i];
      }
    }
  }

  // ----- Streams that are fed in pieces -----

  /** Everything that is handed over while the pieces are fed. */
  ghost function FeedHanded(r: Reader, carry: seq<byte>, pieces: seq<seq<byte>>): seq<Reader>
    requires Valid(r)
    decreases |pieces|
  {
    if pieces == [] then []
    else
      var data := carry + pieces[0];
      var x := Run(r, data);
      Handed(r, data) + if x.end.Used? || x.end.Waiting? then FeedHanded(x.reader, data[x.n..], pieces[1..]) else []
  }

  /** What has arrived after i pieces. */
  function Arrived(pieces: seq<seq<byte>>, i: nat): seq<byte>
    requires i <= |pieces|
  {
    Concat(pieces[..i])
  }

  ghost predicate GoesOn(e: End) { e.Used? || e.Waiting? }

  lemma {:induction false} FeedUnfolds(r: Reader, carry: seq<byte>, pieces: seq<seq<byte>>)
    requires Valid(r)
    ensures pieces == [] ==> Feed(r, carry, pieces) == Fed(r, carry, true) && FeedHanded(r, carry, pieces) == []
    ensures pieces != [] ==>
              var data := carry + pieces[0];
              var x := Run(r, data);
              if GoesOn(x.end) then
                && Valid(x.reader) && x.n <= |data|
                && Feed(r, carry, pieces) == Feed(x.reader, data[x.n..], pieces[1..])
                && FeedHanded(r, carry, pieces) == Handed(r, data) + FeedHanded(x.reader, data[x.n..], pieces[1..])
              else !Feed(r, carry, pieces).ok
  {
    hide Run, Valid, Handed;
  }

  lemma ArrivedNext(pieces: seq<seq<byte>>, i: nat)
    requires pieces != [] && i < |pieces|
    ensures Arrived(pieces, i + 1) == pieces[0] + Arrived(pieces[1..], i)
    ensures Arrived(pieces, 0) == [] && Arrived(pieces, 1) == pieces[0]
    ensures Arrived(pieces, |pieces|) == Concat(pieces)
  {
    assert pieces[..i + 1][1..] == pieces[1..][..i];
    assert pieces[..1][1..] == [];
    assert pieces[..|pieces|] == pieces;
  }

  /** Feeding goes well exactly when, after each piece, what has arrived could be parsed at once. */
  lemma {:induction false} FeedIff(r: Reader, carry: seq<byte>, pieces: seq<seq<byte>>)
    requires Valid(r)
    ensures Feed(r, carry, pieces).ok <==>
            forall i | 0 < i <= |pieces| :: GoesOn(Run(r, carry + Arrived(pieces, i)).end)
    decreases |pieces|
  {
    hide *;
    FeedUnfolds(r, carry, pieces);
    if pieces != [] {
      var data := carry + pieces[0];
      var x := Run(r, data);
      ArrivedNext(pieces, 0);
      assert carry + Arrived(pieces, 1) == data;
      if GoesOn(x.end) {
        EndGoesOn(x.end);
        var left, more := data[x.n..], pieces[1..];
        FeedIff(x.reader, left, more);
        forall i | 0 < i <= |more|
          ensures Run(x.reader, left + Arrived(more, i)).end == Run(r, carry + Arrived(pieces, i + 1)).end
        {
          ArrivedNext(pieces, i);
          assert carry + Arrived(pieces, i + 1) == data + Arrived(more, i);
          Pieces(r, data, Arrived(more, i));
        }
        forall i | 0 < i <= |pieces|
          ensures i == 1 || Run(r, carry + Arrived(pieces, i)).end == Run(x.reader, left + Arrived(more, i - 1)).end
        {
        }
      }
    }
  }

  lemma EndGoesOn(e: End)
    ensures GoesOn(e) <==> e.Used? || e.Waiting?
    ensures GoesOn(e) <==> !e.Thrown? && !e.Overrun?
  {
  }

  /** Piece by piece the same is handed over as at once. */
  lemma {:induction false} FeedHandsOver(r: Reader, carry: seq<byte>, pieces: seq<seq<byte>>)
    requires Valid(r) && pieces != [] && Feed(r, carry, pieces).ok
    ensures FeedHanded(r, carry, pieces) == Handed(r, carry + Concat(pieces))
    decreases |pieces|
  {
    hide *;
    FeedUnfolds(r, carry, pieces);
    ConcatIs(pieces);
    var data := carry + pieces[0];
    var x := Run(r, data);
    EndGoesOn(x.end);
    var more := Concat(pieces[1..]);
    assert carry + Concat(pieces) == data + more;
    if |pieces| == 1 {
      ConcatIs(pieces[1..]);
      assert data + more == data;
      FeedUnfolds(x.reader, data[x.n..], pieces[1..]);
    } else {
      FeedHandsOver(x.reader, data[x.n..], pieces[1..]);
      HandedPieces(r, data, more);
    }
  }

  /** A stream of well-formed frames, or the beginning of one, that arrives in pieces: feeding it
      goes well exactly when no piece ends strictly inside a payload, and then the frames whose
      payload has arrived are handed over, each once and in order, with the declared slices. */
  lemma StreamFed(r: Reader, frames: seq<seq<byte>>, pieces: seq<seq<byte>>)
    requires Valid(r) && AtFrameStart(r) && AllWellFormed(frames) && Concat(pieces) <= Concat(frames)
    ensures Feed(r, [], pieces).ok <==> forall i | 0 < i <= |pieces| :: !CutsPayload(frames, |Arrived(pieces, i)|)
    ensures Feed(r, [], pieces).ok ==>
              var h := FeedHanded(r, [], pieces);
              |h| == DoneFrames(frames, |Concat(pieces)|) && InOrder(h, frames)
    ensures Feed(r, [], pieces).ok && pieces != [] && Concat(pieces) == Concat(frames) ==>
              Feed(r, [], pieces).left == [] && AtFrameStart(Feed(r, [], pieces).reader)
  {
    hide *;
    FeedIff(r, [], pieces);
    var all := Concat(frames);
    forall i | 0 < i <= |pieces|
      ensures GoesOn(Run(r, [] + Arrived(pieces, i)).end) <==> !CutsPayload(frames, |Arrived(pieces, i)|)
    {
      var a := Arrived(pieces, i);
      ArrivedPrefix(pieces, i);
      assert [] + a == a == all[..|a|];
      StreamCut(r, frames, |a|);
      EndGoesOn(Run(r, a).end);
    }
    var c := Concat(pieces);
    assert c == all[..|c|];
    StreamCut(r, frames, |c|);
    FeedUnfolds(r, [], pieces);
    if pieces == [] {
      ConcatIs(pieces);
      HandedNone(r, c);
    } else if Feed(r, [], pieces).ok {
      FeedHandsOver(r, [], pieces);
      AnyPieces(r, [], pieces);
      assert [] + c == c;
    }
  }

  lemma {:induction false} ArrivedPrefix(pieces: seq<seq<byte>>, i: nat)
    requires i <= |pieces|
    ensures Arrived(pieces, i) <= Concat(pieces)
    decreases |pieces|
  {
    if i > 0 {
      ArrivedPrefix(pieces[1..], i - 1);
      ArrivedNext(pieces, i - 1);
    }
  }
}
