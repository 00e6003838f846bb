/** The layout of an ETI(NI) frame in ETS 300 799, written down from the fields to the bytes, and
    what the reader of `EtiReader.cpp` makes of it. */
module EtiLayout {
  import opened Common
  import opened EtiReading
  import opened EtiFrames

  /** The fields of a stream characterisation entry: sub-channel number, start address in capacity
      units, type and protection level, stream length in words of 64 bits. */
  datatype Stream = Stream(scid: int, sad: int, tpl: int, stl: int)

  predicate IsStream(s: Stream) {
    0 <= s.scid < 64 && 0 <= s.sad < 1024 && 0 <= s.tpl < 64 && 0 <= s.stl < 1024
  }

  function StreamBytes(s: Stream): (r: seq<byte>)
    requires IsStream(s)
    ensures |r| == 4
  {
    [4 * s.scid + s.sad / 256, s.sad % 256, 4 * s.tpl + s.stl / 256, s.stl % 256]
  }

  predicate AreStreams(streams: seq<Stream>) {
    forall s | s in streams :: IsStream(s)
  }

  function StreamsBytes(streams: seq<Stream>): (r: seq<byte>)
    requires AreStreams(streams)
    ensures |r| == 4 * |streams|
  {
    if streams == [] then [] else StreamsBytes(streams[..|streams| - 1]) + StreamBytes(streams[|streams| - 1])
  }

  /** A frame with a FIC: frame count, frame phase, mode, frame length, the streams, and the
      contents that only have to be there. */
  datatype Frame = Frame(sync: seq<byte>, fct: int, fp: int, mid: int, fl: int, streams: seq<Stream>, eoh: seq<byte>,
                         fic: seq<byte>, payloads: seq<seq<byte>>, eof: seq<byte>, tist: seq<byte>, padding: seq<byte>)

  predicate FieldsFit(f: Frame) {
    && 0 <= f.fct < 256 && 0 <= f.fp < 8 && 0 <= f.mid < 4 && 0 <= f.fl < 2048
    && |f.streams| < 128 && AreStreams(f.streams)
  }

  predicate IsFrame(f: Frame) {
    && |f.sync| == |f.eoh| == |f.eof| == |f.tist| == 4
    && FieldsFit(f)
    && |f.fic| == (if f.mid == 3 then 128 else 96)
    && |f.payloads| == |f.streams| && (forall i | 0 <= i < |f.streams| :: |f.payloads[i]| == 8 * f.streams[i].stl)
    && |FrameBytes(f)| == 6144
  }

  /** Synchronisation, frame characterisation, stream characterisation, end of header, FIC,
      sub-channels, end of frame, time stamp, padding. */
  function FrameBytes(f: Frame): seq<byte>
    requires FieldsFit(f)
  {
    f.sync + FcBytes(f) + StreamsBytes(f.streams) + f.eoh + f.fic + Concat(f.payloads) + f.eof + f.tist + f.padding
  }

  function FcBytes(f: Frame): seq<byte>
    requires FieldsFit(f)
  {
    [f.fct, 128 + |f.streams|, 32 * f.fp + 8 * f.mid + f.fl / 256, f.fl % 256]
  }

  // ----- Reading the bytes back -----

  lemma {:induction false} StreamsPrefix(streams: seq<Stream>, i: nat)
    requires AreStreams(streams) && i < |streams|
    ensures IsStream(streams[i]) && StreamsBytes(streams)[4 * i..4 * i + 4] == StreamBytes(streams[i])
    decreases |streams|
  {
    hide *;
    var n := |streams| - 1;
    StreamsSplit(streams);
    var a, b := StreamsBytes(streams[..n]), StreamBytes(streams[n]);
    if i == n {
      Behind(a, b);
    } else {
      StreamsPrefix(streams[..n], i);
      InFront(a, b, 4 * i, 4 * i + 4);
    }
  }

  lemma StreamsSplit(streams: seq<Stream>)
    requires AreStreams(streams) && streams != []
    ensures var n := |streams| - 1;
            && AreStreams(streams[..n]) && IsStream(streams[n])
            && StreamsBytes(streams) == StreamsBytes(streams[..n]) + StreamBytes(streams[n])
  {
    hide StreamBytes;
  }

  lemma InFront<T>(a: seq<T>, b: seq<T>, i: nat, j: nat)
    requires i <= j <= |a|
    ensures (a + b)[i..j] == a[i..j]
  {
  }

  lemma Behind<T>(a: seq<T>, b: seq<T>)
    ensures (a + b)[|a|..|a| + |b|] == b
  {
  }

  lemma SourceOfStream(stc: seq<byte>, i: nat, s: Stream)
    requires IsStream(s) && 4 * i + 4 <= |stc| && stc[4 * i..4 * i + 4] == StreamBytes(s)
    ensures SourceOf(stc, i) == Source(s.sad, s.stl, s.tpl, [])
  {
    var b := StreamBytes(s);
    assert stc[4 * i] == b[0] && stc[4 * i + 1] == b[1] && stc[4 * i + 2] == b[2] && stc[4 * i + 3] == b[3];
  }

  lemma FcRead(f: Frame)
    requires FieldsFit(f)
    ensures FicfOf(FcBytes(f)) == 1 && NstOf(FcBytes(f)) == |f.streams| && MidOf(FcBytes(f)) == f.mid
  {
    hide StreamsBytes, AreStreams;
    var b := FcBytes(f);
    TopBit(|f.streams|);
    MiddleBits(f.fp, f.mid, f.fl);
    assert b[1] == 128 + |f.streams| && b[2] == 32 * f.fp + 8 * f.mid + f.fl / 256;
  }

  lemma TopBit(n: int)
    requires 0 <= n < 128
    ensures (128 + n) / 128 == 1 && (128 + n) % 128 == n
  {
  }

  lemma MiddleBits(high: int, middle: int, low: int)
    requires 0 <= high && 0 <= middle < 4 && 0 <= low < 2048
    ensures (32 * high + 8 * middle + low / 256) / 8 % 4 == middle
  {
    assert (32 * high + 8 * middle + low / 256) / 8 == 4 * high + middle;
  }

  lemma Parts(f: Frame)
    requires IsFrame(f)
    ensures var b, n, m := FrameBytes(f), 4 * |f.streams|, |f.fic|;
            && b[4..8] == FcBytes(f) && b[8..8 + n] == StreamsBytes(f.streams)
            && b[12 + n..12 + n + m] == f.fic
            && 12 + n + m + |Concat(f.payloads)| + 8 <= 6144
            && b[12 + n + m..12 + n + m + |Concat(f.payloads)|] == Concat(f.payloads)
            && b[..4] == f.sync && b[8 + n..12 + n] == f.eoh
            && var e := 12 + n + m + |Concat(f.payloads)|;
               b[e..e + 4] == f.eof && b[e + 4..e + 8] == f.tist
  {
    hide StreamsBytes, Concat, AreStreams;
  }

  // ----- The declared sub-channels -----

  lemma ConcatSnoc(pieces: seq<seq<byte>>, i: nat)
    requires i < |pieces|
    ensures Concat(pieces[..i + 1]) == Concat(pieces[..i]) + pieces[i]
    decreases i
  {
    if i > 0 {
      ConcatSnoc(pieces[1..], i - 1);
      assert pieces[..i + 1][1..] == pieces[1..][..i] && pieces[..i][1..] == pieces[1..][..i - 1];
      ConcatIs(pieces[..i + 1]);
      ConcatIs(pieces[..i]);
    } else {
      assert pieces[..1][1..] == [];
      ConcatIs(pieces[..1]);
    }
  }

  lemma {:induction false} ConcatAt(pieces: seq<seq<byte>>, i: nat)
    requires i < |pieces|
    ensures var at := |Concat(pieces[..i])|;
            at + |pieces[i]| <= |Concat(pieces)| && Concat(pieces)[at..at + |pieces[i]|] == pieces[i]
    decreases |pieces|
  {
    ConcatIs(pieces);
    if i > 0 {
      ConcatAt(pieces[1..], i - 1);
      ConcatIs(pieces[..i]);
      assert pieces[..i][1..] == pieces[1..][..i - 1];
      var a, b, at := pieces[0], Concat(pieces[1..]), |Concat(pieces[1..][..i - 1])|;
      hide *;
      assert (a + b)[|a| + at..|a| + at + |pieces[i]|] == b[at..at + |pieces[i]|];
    } else {
      ConcatIs(pieces[..0]);
    }
  }

  /** The source that is made for a stream, with the bytes it gets. */
  function SourceFor(s: Stream, payload: seq<byte>): Source {
    Source(s.sad, s.stl, s.tpl, payload)
  }

  lemma {:induction false} DeclaredFor(streams: seq<Stream>, n: nat)
    requires AreStreams(streams) && n <= |streams|
    ensures 4 * n <= |StreamsBytes(streams)|
    ensures forall i | 0 <= i < n :: NewSources(StreamsBytes(streams), n)[i] == SourceFor(streams[i], [])
    decreases n
  {
    if n > 0 {
      DeclaredFor(streams, n - 1);
      StreamsPrefix(streams, n - 1);
      SourceOfStream(StreamsBytes(streams), n - 1, streams[n - 1]);
      hide StreamsBytes, SourceOf;
    }
  }

  lemma FrameDeclares(f: Frame)
    requires IsFrame(f)
    ensures var b := FrameBytes(f);
            && |b| == 6144 && StcEnd(b) == 8 + 4 * |f.streams| && |Declared(b)| == |f.streams|
            && SubchAt(b) == 12 + 4 * |f.streams| + |f.fic| && FicAt(b) == 12 + 4 * |f.streams|
            && FicfOf(b[4..8]) == 1
            && forall i | 0 <= i < |f.streams| :: Declared(b)[i] == SourceFor(f.streams[i], [])
  {
    Parts(f);
    FcRead(f);
    DeclaredFor(f.streams, |f.streams|);
    assert |f.fic| == if f.mid == 3 then 128 else 96;
    hide StreamsBytes, FcBytes, NewSources, FrameBytes, NstOf, FicfOf, MidOf, AreStreams, SourceFor;
  }

  lemma {:induction false} PayloadBefore(f: Frame, d: seq<Source>, i: nat)
    requires IsFrame(f) && i <= |f.streams| == |d|
    requires forall k | 0 <= k < |d| :: d[k] == SourceFor(f.streams[k], [])
    ensures Payload(d[..i]) == |Concat(f.payloads[..i])|
    decreases i
  {
    FrameSizes(f);
    hide IsFrame;
    if i > 0 {
      PayloadBefore(f, d, i - 1);
      PayloadSplit(d, i - 1);
      ConcatSnoc(f.payloads, i - 1);
    } else {
      ConcatIs(f.payloads[..0]);
    }
  }

  lemma FrameSizes(f: Frame)
    requires IsFrame(f)
    ensures FieldsFit(f) && |FrameBytes(f)| == 6144 == FRAME && |f.payloads| == |f.streams|
    ensures forall i | 0 <= i < |f.streams| :: |f.payloads[i]| == 8 * f.streams[i].stl
  {
  }

  lemma FrameIsWellFormed(f: Frame)
    requires IsFrame(f)
    ensures WellFormed(FrameBytes(f)) && Payload(Declared(FrameBytes(f))) == |Concat(f.payloads)|
  {
    hide *;
    FrameDeclares(f);
    FrameSizes(f);
    Parts(f);
    var d := Declared(FrameBytes(f));
    PayloadBefore(f, d, |f.streams|);
    WholeSlice(d);
    WholeSlice(f.payloads);
    IsWellFormed(FrameBytes(f));
  }

  lemma WholeSlice<T>(s: seq<T>)
    ensures s[..|s|] == s
  {
  }

  lemma IsWellFormed(b: seq<byte>)
    requires |b| == FRAME && FicfOf(b[4..8]) == 1 && SubchAt(b) + Payload(Declared(b)) + 8 <= FRAME
    ensures WellFormed(b)
  {
  }

  // ----- What the reader makes of a frame -----

  /** The FIC and every sub-channel have got exactly their bytes, and the sub-channels their
      start address, length and type from the stream characterisation. */
  predicate Received(r: Reader, f: Frame) {
    && r.fic.Some? && r.fic.value.buffer == f.fic
    && |r.sources| == |f.streams| == |f.payloads|
    && forall i | 0 <= i < |f.streams| ::
         r.sources[i] == Source(f.streams[i].sad, f.streams[i].stl, f.streams[i].tpl, f.payloads[i])
  }

  lemma HandedOverIsReceived(r: Reader, f: Frame)
    requires IsFrame(f) && WellFormed(FrameBytes(f)) && HandedOver(r, FrameBytes(f))
    ensures Received(r, f)
  {
    hide *;
    FrameDeclares(f);
    FrameSizes(f);
    Parts(f);
    forall i | 0 <= i < |r.sources|
      ensures i < |f.streams| && r.sources[i] == SourceFor(f.streams[i], f.payloads[i])
    {
      HandedOverAt(r, FrameBytes(f), i);
      SliceReceived(f, i);
      SourceForIs(f.streams[i], f.payloads[i]);
    }
    HandedOverIs(r, FrameBytes(f));
    IsReceived(r, f);
  }

  lemma HandedOverIs(r: Reader, b: seq<byte>)
    requires WellFormed(b) && HandedOver(r, b)
    ensures |b| == FRAME && |r.sources| == |Declared(b)|
    ensures r.fic.Some? && 0 <= FicAt(b) <= SubchAt(b) <= |b| && r.fic.value.buffer == b[FicAt(b)..SubchAt(b)]
  {
    hide Declared, Payload;
  }

  lemma HandedOverAt(r: Reader, b: seq<byte>, i: nat)
    requires WellFormed(b) && HandedOver(r, b) && i < |r.sources|
    ensures |b| == FRAME && |r.sources| == |Declared(b)|
    ensures 0 <= SliceAt(b, i) <= SliceAt(b, i) + Declared(b)[i].FrameSize() <= |b|
    ensures r.sources[i] == Declared(b)[i].(buffer := b[SliceAt(b, i)..SliceAt(b, i) + Declared(b)[i].FrameSize()])
  {
    hide SliceAt, Declared, FicAt, SubchAt, StcEnd;
    SlicesInside(b, i);
  }

  lemma IsReceived(r: Reader, f: Frame)
    requires r.fic.Some? && r.fic.value.buffer == f.fic && |r.sources| == |f.streams| == |f.payloads|
    requires forall i | 0 <= i < |r.sources| :: r.sources[i] == SourceFor(f.streams[i], f.payloads[i])
    ensures Received(r, f)
  {
  }

  lemma SourceForIs(s: Stream, payload: seq<byte>)
    ensures SourceFor(s, payload) == Source(s.sad, s.stl, s.tpl, payload)
    ensures SourceFor(s, []).(buffer := payload) == SourceFor(s, payload) && SourceFor(s, []).FrameSize() == 8 * s.stl
  {
  }

  lemma SliceReceived(f: Frame, i: nat)
    requires IsFrame(f) && WellFormed(FrameBytes(f)) && i < |f.streams| == |Declared(FrameBytes(f))|
    ensures var b := FrameBytes(f);
            && |b| == FRAME && Declared(b)[i] == SourceFor(f.streams[i], [])
            && 0 <= SliceAt(b, i) <= SliceAt(b, i) + Declared(b)[i].FrameSize() <= |b|
            && b[SliceAt(b, i)..SliceAt(b, i) + Declared(b)[i].FrameSize()] == f.payloads[i]
  {
    hide *;
    FrameDeclares(f);
    FrameSizes(f);
    Parts(f);
    var b := FrameBytes(f);
    PayloadBefore(f, Declared(b), i);
    ConcatAt(f.payloads, i);
    SliceIs(b, i);
    SourceForIs(f.streams[i], f.payloads[i]);
    SliceInSlice(b, SubchAt(b), |Concat(f.payloads)|, |Concat(f.payloads[..i])|, 8 * f.streams[i].stl);
  }

  lemma SliceInSlice(b: seq<byte>, start: nat, length: nat, at: nat, n: nat)
    requires start + length <= |b| && at + n <= length
    ensures b[start..start + length][at..at + n] == b[start + at..start + at + n]
  {
    var u, v := b[start..start + length][at..at + n], b[start + at..start + at + n];
    forall k | 0 <= k < n ensures u[k] == v[k] {
    }
  }

  /** Whatever the fields say, a frame that is written down in the layout of the standard is taken
      as a whole, and received as it was meant. */
  lemma FrameReceived(r: Reader, f: Frame)
    requires Valid(r) && AtFrameStart(r) && IsFrame(f)
    ensures var x := Run(r, FrameBytes(f));
            && x.end.Used? && x.n == 6144 && Valid(x.reader) && AtFrameStart(x.reader) && Received(x.reader, f)
            && x.reader.sync == f.sync && x.reader.eoh == f.eoh && x.reader.eof == f.eof && x.reader.tist == f.tist
            && x.reader.fc == [f.fct, 128 + |f.streams|, 32 * f.fp + 8 * f.mid + f.fl / 256, f.fl % 256]
  {
    hide *;
    FrameSizes(f);
    FrameIsWellFormed(f);
    FrameParsed(r, FrameBytes(f));
    var x := Run(r, FrameBytes(f));
    HandedOverIsReceived(x.reader, f);
    Parts(f);
    FrameDeclares(f);
    StoredIs(x.reader, FrameBytes(f));
    FcBytesAre(f);
  }

  lemma FcBytesAre(f: Frame)
    requires IsFrame(f)
    ensures FieldsFit(f) && |f.streams| < 128 && 0 <= f.fct < 256 && 0 <= 32 * f.fp + 8 * f.mid + f.fl / 256 < 256
    ensures FcBytes(f) == [f.fct, 128 + |f.streams|, 32 * f.fp + 8 * f.mid + f.fl / 256, f.fl % 256]
  {
  }

  // ----- Streams of frames -----

  ghost predicate AreFrames(frames: seq<Frame>) {
    forall f | f in frames :: IsFrame(f)
  }

  ghost function FramesBytes(frames: seq<Frame>): seq<seq<byte>>
    requires AreFrames(frames)
  {
    seq(|frames|, i requires 0 <= i < |frames| => assert IsFrame(frames[i]); FrameBytes(frames[i]))
  }

  /** Place p of the stream lies strictly inside the sub-channels of its frame. */
  ghost predicate CutsStream(frames: seq<Frame>, p: nat) {
    && p / 6144 < |frames|
    && var f := frames[p / 6144];
       var start := 12 + 4 * |f.streams| + |f.fic|;
       start < p % 6144 < start + |Concat(f.payloads)|
  }

  lemma FramesWellFormed(frames: seq<Frame>)
    requires AreFrames(frames)
    ensures AllWellFormed(FramesBytes(frames))
    ensures forall p: nat :: CutsPayload(FramesBytes(frames), p) <==> CutsStream(frames, p)
  {
    var all := FramesBytes(frames);
    forall i | 0 <= i < |frames| ensures WellFormed(all[i]) {
      FrameIsWellFormed(frames[i]);
    }
    forall p: nat ensures CutsPayload(all, p) <==> CutsStream(frames, p) {
      if p / 6144 < |frames| {
        var f := frames[p / 6144];
        FrameIsWellFormed(f);
        FrameDeclares(f);
        hide IsFrame, FrameBytes, Declared, SubchAt, FicAt, StcEnd, Payload, Concat, WellFormed;
      }
    }
  }

  /** A stream of such frames, or the beginning of one, fed in any pieces: it goes well exactly when
      no piece ends strictly inside the sub-channels, and then the frames that are complete are
      received one after the other. */
  lemma StreamReceived(r: Reader, frames: seq<Frame>, pieces: seq<seq<byte>>)
    requires Valid(r) && AtFrameStart(r) && AreFrames(frames) && Concat(pieces) <= Concat(FramesBytes(frames))
    ensures Feed(r, [], pieces).ok <==> forall i | 0 < i <= |pieces| :: !CutsStream(frames, |Arrived(pieces, i)|)
    ensures Feed(r, [], pieces).ok ==>
              var h := FeedHanded(r, [], pieces);
              |Concat(pieces)| / 6144 <= |h| <= |frames| && forall i | 0 <= i < |h| :: Received(h[i], frames[i])
  {
    hide Feed, FeedHanded, Received, CutsStream, Arrived, Valid, IsFrame, CutsPayload, Concat;
    var all := FramesBytes(frames);
    FramesWellFormed(frames);
    StreamFed(r, all, pieces);
    if Feed(r, [], pieces).ok {
      var h := FeedHanded(r, [], pieces);
      forall i | 0 <= i < |h| ensures Received(h[i], frames[i]) {
        FrameIsWellFormed(frames[i]);
        HandedOverIsReceived(h[i], frames[i]);
      }
    }
  }
}
