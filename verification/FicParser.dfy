/** The FIG formats of section 5.2.2 and following of ETSI EN 300 401 that
    `FigParser.cpp` reads: from bytes to events. */
module FicParser {
  import opened Common
  import opened FicDatabase

  /** One entry of a FIG: how many bytes it takes and what it says. */
  datatype Entry = Entry(size: nat, events: seq<Event>)

  /** Rows of eight entries. */
  const UEP_SIZES: seq<seq<int>> := [
    [16, 21, 24, 29, 35, 24, 29, 35],
    [42, 52, 29, 35, 42, 52, 32, 42],
    [48, 58, 70, 40, 52, 58, 70, 84],
    [48, 58, 70, 84, 104, 58, 70, 84],
    [104, 64, 84, 96, 116, 140, 80, 104],
    [116, 140, 168, 96, 116, 140, 168, 208],
    [116, 140, 168, 208, 232, 128, 168, 192],
    [232, 280, 160, 208, 280, 192, 280, 416]
  ]
  const UEP_LEVELS: seq<seq<int>> := [
    [5, 4, 3, 2, 1, 5, 4, 3],
    [2, 1, 5, 4, 3, 2, 5, 4],
    [3, 2, 1, 5, 4, 3, 2, 1],
    [5, 4, 3, 2, 1, 5, 4, 3],
    [2, 5, 4, 3, 2, 1, 5, 4],
    [3, 2, 1, 5, 4, 3, 2, 1],
    [5, 4, 3, 2, 1, 5, 4, 3],
    [2, 1, 5, 4, 2, 5, 3, 1]
  ]
  const UEP_BITRATES: seq<seq<int>> := [
    [32, 32, 32, 32, 32, 48, 48, 48],
    [48, 48, 56, 56, 56, 56, 64, 64],
    [64, 64, 64, 80, 80, 80, 80, 80],
    [96, 96, 96, 96, 96, 112, 112, 112],
    [112, 128, 128, 128, 128, 128, 160, 160],
    [160, 160, 160, 192, 192, 192, 192, 192],
    [224, 224, 224, 224, 224, 256, 256, 256],
    [256, 256, 320, 320, 320, 384, 384, 384]
  ]

  function UepSize(i: int): int
    requires 0 <= i < 64
  {
    UEP_SIZES[i / 8][i % 8]
  }

  function UepLevel(i: int): int
    requires 0 <= i < 64
  {
    UEP_LEVELS[i / 8][i % 8]
  }

  function UepBitrate(i: int): int
    requires 0 <= i < 64
  {
    UEP_BITRATES[i / 8][i % 8]
  }

  function EepAFactor(pl: int): (r: int)
    ensures r > 0
  {
    if pl == 0 then 12 else if pl == 1 then 8 else if pl == 2 then 6 else 4
  }

  function EepBFactor(pl: int): (r: int)
    ensures r > 0
  {
    if pl == 0 then 27 else if pl == 1 then 21 else if pl == 2 then 18 else 15
  }

  // ----- One entry of each FIG 0 extension; None when it does not fit -----

  /** FIG 0/1: sub-channel organization */
  function Entry1(d: seq<byte>): Option<Entry> {
    if |d| < 3 then None else
    var subchid, start := d[0] / 4, Word(d[0] % 4, d[1]);
    if d[2] >= 128 then
      if |d| < 4 then None else
      var option, pl, size := d[2] / 16 % 8, d[2] / 4 % 4, Word(d[2] % 4, d[3]);
      if option == 0 then Some(Entry(4, [SubchannelInfo(subchid, start, size, EepA(pl + 1), size / EepAFactor(pl) * 8)]))
      else if option == 1 then Some(Entry(4, [SubchannelInfo(subchid, start, size, EepB(pl + 1), size / EepBFactor(pl) * 32)]))
      else Some(Entry(4, []))
    else if d[2] / 64 % 2 == 0 then
      var i := d[2] % 64;
      Some(Entry(3, [SubchannelInfo(subchid, start, UepSize(i), Uep(UepLevel(i)), UepBitrate(i))]))
    else Some(Entry(3, []))
  }

  /** One component of FIG 0/2: only stream audio without conditional access, DAB or DAB+. */
  function Component(sid: int, b0: byte, b1: byte): seq<Event> {
    var ascty := b0 % 64;
    if b0 / 64 == 0 && b1 % 2 == 0 && (ascty == 0 || ascty == 63) then
      [AudioComponent(sid, b1 / 4, ascty == 63, b1 / 2 % 2 == 1)]
    else []
  }

  function Components(sid: int, d: seq<byte>): seq<Event>
    decreases |d|
  {
    if |d| < 2 then [] else Component(sid, d[0], d[1]) + Components(sid, d[2..])
  }

  /** FIG 0/2: services and their components */
  function Entry2(d: seq<byte>): Option<Entry> {
    if |d| < 3 || |d| < 3 + 2 * (d[2] % 16) then None else
    var n := 3 + 2 * (d[2] % 16);
    Some(Entry(n, Components(Word(d[0], d[1]), d[3..n])))
  }

  /** FIG 0/5: language of a sub-channel */
  function Entry5(d: seq<byte>): Option<Entry> {
    if |d| < 2 || (d[0] >= 128 && |d| < 3) then None
    else if d[0] >= 128 then Some(Entry(3, []))
    else if d[0] / 64 % 2 == 0 then Some(Entry(2, [Language(d[0] % 64, d[1])]))
    else Some(Entry(2, []))
  }

  /** FIG 0/8: component definitions */
  function Entry8(d: seq<byte>): Option<Entry> {
    if |d| < 4 then None else
    var ext, isLong := if d[2] >= 128 then 1 else 0, d[3] >= 128;
    var n := (if isLong then 5 else 4) + ext;
    if |d| < n then None
    else if !isLong && d[3] / 64 % 2 == 0 then
      Some(Entry(n, [ComponentDefinition(Word(d[0], d[1]), d[2] % 16, d[3] % 64)]))
    else Some(Entry(n, []))
  }

  /** The user applications of FIG 0/13, of which only Slideshow is kept. */
  function Applications(sid: int, scids: int, count: nat, d: seq<byte>): Option<Entry>
  {
    if count == 0 then Some(Entry(0, []))
    else if |d| < 2 || |d| < 2 + d[1] % 32 then None
    else
      var n := 2 + d[1] % 32;
      var rest := Applications(sid, scids, count - 1, d[n..]);
      if rest.None? then None else
      var here := if 8 * (d[0] as int) + (d[1] as int) / 32 == 2 then [Slideshow(sid, scids, d[2..n])] else [];
      Some(Entry(n + rest.value.size, here + rest.value.events))
  }

  /** FIG 0/13: user applications */
  function Entry13(d: seq<byte>): Option<Entry> {
    if |d| < 3 then None else
    var apps := Applications(Word(d[0], d[1]), d[2] / 16, d[2] % 16, d[3..]);
    if apps.None? then None else Some(Entry(3 + apps.value.size, apps.value.events))
  }

  /** FIG 0/17: programme type */
  function Entry17(d: seq<byte>): Option<Entry> {
    if |d| < 3 then None else
    var at := if d[2] / 32 % 2 == 1 then 4 else 3;
    var n := at + 1 + d[2] / 16 % 2;
    if |d| < n then None else
    Some(Entry(n, [ProgrammeType(Word(d[0], d[1]), d[2] >= 128, d[at] % 32)]))
  }

  /** FIG 0/18: announcement support */
  function Entry18(d: seq<byte>): Option<Entry> {
    if |d| < 5 || |d| < 5 + d[4] % 32 then None else
    var n := 5 + d[4] % 32;
    Some(Entry(n, [Announcements(Word(d[0], d[1]), Word(d[2], d[3]), set c | c in d[5..n])]))
  }

  /** FIG 0/19: announcement switching */
  function Entry19(d: seq<byte>): Option<Entry> {
    if |d| < 4 then None else
    var n := if d[3] / 64 % 2 == 1 then 5 else 4;
    if |d| < n then None else
    Some(Entry(n, [Switching(d[0], Word(d[1], d[2]), d[3] % 64)]))
  }

  predicate IsList(ext: int) {
    ext in {1, 2, 5, 8, 13, 17, 18, 19}
  }

  /** The first entry of a FIG 0 that is a list of entries. */
  function FirstEntry(ext: int, d: seq<byte>): Option<Entry>
    requires IsList(ext)
  {
    match ext
    case 1 => Entry1(d)
    case 2 => Entry2(d)
    case 5 => Entry5(d)
    case 8 => Entry8(d)
    case 13 => Entry13(d)
    case 17 => Entry17(d)
    case 18 => Entry18(d)
    case _ => Entry19(d)
  }

  /** Every entry takes at least two bytes and stays inside the FIG. */
  lemma EntryFits(ext: int, d: seq<byte>)
    requires IsList(ext) && FirstEntry(ext, d).Some?
    ensures 2 <= FirstEntry(ext, d).value.size <= |d|
  {
    if ext == 13 {
      ApplicationsFit(Word(d[0], d[1]), d[2] / 16, d[2] % 16, d[3..]);
    }
  }

  lemma {:induction false} ApplicationsFit(sid: int, scids: int, count: nat, d: seq<byte>)
    requires Applications(sid, scids, count, d).Some?
    ensures Applications(sid, scids, count, d).value.size <= |d|
    decreases count
  {
    if count > 0 {
      ApplicationsFit(sid, scids, count - 1, d[2 + d[1] % 32..]);
    }
  }

  /** All entries, None when one runs past the end of the FIG. */
  function Entries(ext: int, d: seq<byte>): Option<seq<Event>>
    requires IsList(ext)
    decreases |d|
  {
    if d == [] then Some([]) else
    var e := FirstEntry(ext, d);
    if e.None? then None else
    EntryFits(ext, d);
    var rest := Entries(ext, d[e.value.size..]);
    if rest.None? then None else Some(e.value.events + rest.value)
  }

  // ----- FIGs and FIBs -----

  /** The local time offset in half hours, sign and magnitude. */
  function OffsetOf(b: byte): int {
    var magnitude: int := b % 32;
    if b / 32 % 2 == 1 then -magnitude else magnitude
  }

  /** The payload of a FIG 0 after its header. */
  function Figure0(ext: int, d: seq<byte>): Option<seq<Event>> {
    if ext == 0 then
      Some(if |d| < 4 then [] else [EnsembleInfo(Word(d[0], d[1]), d[2] / 32 % 2 == 1)])
    else if ext == 9 then
      Some(if |d| < 3 then [] else [Country(OffsetOf(d[0]), d[1], d[2])])
    else if IsList(ext) then Entries(ext, d)
    else Some([])
  }

  /** ProcessFIG0: the next configuration, other ensembles and data services are ignored. */
  function Fig0(d: seq<byte>): Option<seq<Event>> {
    if |d| < 1 || d[0] >= 32 then Some([]) else Figure0(d[0] % 32, d[1..])
  }

  function LabelAt(header: byte, d: seq<byte>, at: nat): Label
    requires at + 18 <= |d|
  {
    Label(header / 16, d[at..at + 16], Word(d[at + 16], d[at + 17]))
  }

  /** ProcessFIG1: labels of exactly the expected length. */
  function Fig1(f: seq<byte>): seq<Event> {
    if |f| < 1 || f[0] / 8 % 2 == 1 then [] else
    var h, ext, d := f[0], f[0] % 8, f[1..];
    if (ext == 0 || ext == 1) && |d| == 20 then
      if ext == 0 then [EnsembleLabel(LabelAt(h, d, 2))] else [ServiceLabel(Word(d[0], d[1]), LabelAt(h, d, 2))]
    else if ext == 4 && |d| == 21 && d[0] < 128 then
      [ComponentLabel(Word(d[1], d[2]), d[0] % 16, LabelAt(h, d, 3))]
    else []
  }

  function Fig(kind: int, d: seq<byte>): Option<seq<Event>> {
    if kind == 0 then Fig0(d) else if kind == 1 then Some(Fig1(d)) else Some([])
  }

  /** The FIGs of a FIB from `offset` on, None when one runs past the 30 data bytes. */
  function Figs(fib: seq<byte>, offset: nat): Option<seq<Event>>
    requires |fib| == 32
    decreases 32 - offset
  {
    if offset >= 30 || fib[offset] == 0xff then Some([]) else
    var kind, n := fib[offset] / 32, fib[offset] % 32;
    if offset + 1 + n > 30 then None else
    var here := Fig(kind, fib[offset + 1..offset + 1 + n]);
    var rest := Figs(fib, offset + 1 + n);
    if here.None? || rest.None? then None else Some(here.value + rest.value)
  }

  // ----- The parsed fields are in range -----

  ghost predicate AllValid(es: seq<Event>) {
    forall e | e in es :: ValidEvent(e)
  }

  lemma {:induction false} ComponentsValid(sid: int, d: seq<byte>)
    requires sid >= 0
    ensures AllValid(Components(sid, d))
    decreases |d|
  {
    if |d| >= 2 {
      ComponentsValid(sid, d[2..]);
    }
  }

  lemma {:induction false} ApplicationsValid(sid: int, scids: int, count: nat, d: seq<byte>)
    requires sid >= 0 && scids >= 0 && Applications(sid, scids, count, d).Some?
    ensures AllValid(Applications(sid, scids, count, d).value.events)
    decreases count
  {
    if count > 0 {
      ApplicationsValid(sid, scids, count - 1, d[2 + d[1] % 32..]);
    }
  }

  lemma EntryValid(ext: int, d: seq<byte>)
    requires IsList(ext) && FirstEntry(ext, d).Some?
    ensures AllValid(FirstEntry(ext, d).value.events)
  {
    if ext == 2 {
      ComponentsValid(Word(d[0], d[1]), d[3..3 + 2 * (d[2] % 16)]);
    } else if ext == 13 {
      ApplicationsValid(Word(d[0], d[1]), d[2] / 16, d[2] % 16, d[3..]);
    }
  }

  lemma {:induction false} EntriesValid(ext: int, d: seq<byte>)
    requires IsList(ext) && Entries(ext, d).Some?
    ensures AllValid(Entries(ext, d).value)
    decreases |d|
  {
    hide FirstEntry;
    if d != [] {
      EntryFits(ext, d);
      EntryValid(ext, d);
      EntriesValid(ext, d[FirstEntry(ext, d).value.size..]);
    }
  }

  lemma FigValid(kind: int, d: seq<byte>)
    requires Fig(kind, d).Some?
    ensures AllValid(Fig(kind, d).value)
  {
    hide Entries;
    if kind == 0 && |d| >= 1 && d[0] < 32 && IsList(d[0] % 32) {
      EntriesValid(d[0] % 32, d[1..]);
    }
  }

  lemma {:induction false} FigsValid(fib: seq<byte>, offset: nat)
    requires |fib| == 32 && Figs(fib, offset).Some?
    ensures AllValid(Figs(fib, offset).value)
    decreases 32 - offset
  {
    hide Fig;
    if offset < 30 && fib[offset] != 0xff {
      var kind, n := fib[offset] / 32, fib[offset] % 32;
      FigValid(kind, fib[offset + 1..offset + 1 + n]);
      FigsValid(fib, offset + 1 + n);
    }
  }

  // ----- The layout of the standard, written down the other way round -----

  predicate IsWord(x: int) { 0 <= x < 65536 }

  /** The table index that stands for this size, protection level and bit rate. */
  predicate IsUepIndex(i: int, size: int, pl: Protection, bitrate: int) {
    0 <= i < 64 && size == UepSize(i) && pl == Uep(UepLevel(i)) && bitrate == UepBitrate(i)
  }

  /** The elements of cids below n, in ascending order. */
  ghost function ClusterList(cids: set<int>, n: nat): (r: seq<byte>)
    requires n <= 256
    ensures forall c | c in r :: c < n
  {
    if n == 0 then [] else ClusterList(cids, n - 1) + if n - 1 in cids then [n - 1] else []
  }

  lemma {:induction false} ClusterListHas(cids: set<int>, n: nat, c: int)
    requires n <= 256
    ensures c in ClusterList(cids, n) <==> 0 <= c < n && c in cids
    decreases n
  {
    if n > 0 {
      ClusterListHas(cids, n - 1, c);
    }
  }

  ghost function Below(cids: set<int>, n: nat): set<int> { set c | c in cids && 0 <= c < n }

  lemma BelowNext(cids: set<int>, n: nat)
    ensures Below(cids, 0) == {}
    ensures Below(cids, n + 1) == if n in cids then Below(cids, n) + {n} else Below(cids, n)
  {
  }

  lemma {:induction false} ClusterListSize(cids: set<int>, n: nat)
    requires n <= 256
    ensures |ClusterList(cids, n)| == |Below(cids, n)|
    decreases n
  {
    if n > 0 {
      ClusterListSize(cids, n - 1);
      BelowNext(cids, n - 1);
    } else {
      BelowNext(cids, 0);
    }
  }

  /** What the bit fields of a list entry can carry. */
  ghost predicate Encodable(e: Event) {
    match e
    case SubchannelInfo(subchid, start, size, pl, bitrate) =>
      && 0 <= subchid < 64 && 0 <= start < 1024
      && if pl.Uep? then exists i :: IsUepIndex(i, size, pl, bitrate)
         else
           && 0 <= size < 1024 && (pl.EepA? || pl.EepB?) && 1 <= pl.level <= 4
           && bitrate == if pl.EepA? then size / EepAFactor(pl.level - 1) * 8 else size / EepBFactor(pl.level - 1) * 32
    case AudioComponent(sid, subchid, _, _) => IsWord(sid) && 0 <= subchid < 64
    case Language(subchid, language) => 0 <= subchid < 64 && 0 <= language < 256
    case ComponentDefinition(sid, scids, subchid) => IsWord(sid) && 0 <= scids < 16 && 0 <= subchid < 64
    case Slideshow(sid, scids, ua) => IsWord(sid) && 0 <= scids < 16 && |ua| < 32
    case ProgrammeType(sid, _, pty) => IsWord(sid) && 0 <= pty < 32
    case Announcements(sid, asuFlags, cids) =>
      IsWord(sid) && IsWord(asuFlags) && |cids| < 32 && forall c | c in cids :: 0 <= c < 256
    case Switching(cid, flags, subchid) => 0 <= cid < 256 && IsWord(flags) && 0 <= subchid < 64
    case _ => false
  }

  function ExtensionOf(e: Event): int {
    match e
    case SubchannelInfo(_, _, _, _, _) => 1
    case AudioComponent(_, _, _, _) => 2
    case Language(_, _) => 5
    case ComponentDefinition(_, _, _) => 8
    case Slideshow(_, _, _) => 13
    case ProgrammeType(_, _, _) => 17
    case Announcements(_, _, _) => 18
    case _ => 19
  }

  function Flag(b: bool, weight: nat): nat { if b then weight else 0 }

  lemma AnnouncedClusters(cids: set<int>)
    requires |cids| < 32 && forall c | c in cids :: 0 <= c < 256
    ensures |ClusterList(cids, 256)| < 32 && forall c: int :: c in ClusterList(cids, 256) <==> c in cids
  {
    ClusterListSize(cids, 256);
    assert Below(cids, 256) == cids;
    forall c: int ensures c in ClusterList(cids, 256) <==> c in cids {
      ClusterListHas(cids, 256, c);
    }
  }

  ghost function EncodeSubchannel(e: Event): (r: seq<byte>)
    requires Encodable(e) && e.SubchannelInfo?
    ensures |r| == if e.pl.Uep? then 3 else 4
  {
    if e.pl.Uep? then
      var i :| IsUepIndex(i, e.size, e.pl, e.bitrate);
      [4 * e.subchid + e.start / 256, e.start % 256, i]
    else
      [4 * e.subchid + e.start / 256, e.start % 256,
       128 + Flag(e.pl.EepB?, 16) + 4 * (e.pl.level - 1) + e.size / 256, e.size % 256]
  }

  ghost function EncodeAnnouncements(e: Event): seq<byte>
    requires Encodable(e) && e.Announcements?
  {
    AnnouncedClusters(e.cids);
    var list := ClusterList(e.cids, 256);
    [e.sid / 256, e.sid % 256, e.asuFlags / 256, e.asuFlags % 256, |list|] + list
  }

  /** The bytes of a list entry that says e and nothing else. */
  ghost function Encode(e: Event): seq<byte>
    requires Encodable(e)
  {
    match e
    case SubchannelInfo(_, _, _, _, _) => EncodeSubchannel(e)
    case Announcements(_, _, _) => EncodeAnnouncements(e)
    case AudioComponent(sid, subchid, dabPlus, ps) =>
      [sid / 256, sid % 256, 1, Flag(dabPlus, 63), 4 * subchid + Flag(ps, 2)]
    case Language(subchid, language) => [subchid, language]
    case ComponentDefinition(sid, scids, subchid) => [sid / 256, sid % 256, scids, subchid]
    case Slideshow(sid, scids, ua) => [sid / 256, sid % 256, 16 * scids + 1, 0, 64 + |ua|] + ua
    case ProgrammeType(sid, isDynamic, pty) => [sid / 256, sid % 256, Flag(isDynamic, 128), pty]
    case Switching(cid, flags, subchid) => [cid, flags / 256, flags % 256, subchid]
  }

  /** The short form: a table index for size, protection level and bit rate. */
  lemma ShortFormRoundTrip(e: Event, rest: seq<byte>)
    requires Encodable(e) && e.SubchannelInfo? && e.pl.Uep?
    ensures Entry1(Encode(e) + rest) == Some(Entry(3, [e]))
  {
    hide UepSize, UepLevel, UepBitrate;
    var c := Encode(e);
    var d := c + rest;
    assert |c| == 3 && d[0] == c[0] && d[1] == c[1] && d[2] == c[2];
    assert d[0] / 4 == e.subchid && Word(d[0] % 4, d[1]) == e.start && d[2] < 64;
  }

  lemma AnnouncementsRoundTrip(e: Event, rest: seq<byte>)
    requires Encodable(e) && e.Announcements?
    ensures Entry18(Encode(e) + rest) == Some(Entry(|Encode(e)|, [e]))
  {
    AnnouncedClusters(e.cids);
    hide ClusterList;
    var c, list := Encode(e), ClusterList(e.cids, 256);
    var d := c + rest;
    var n := 5 + |list|;
    assert |c| == n && d[0] == c[0] && d[1] == c[1] && d[2] == c[2] && d[3] == c[3] && d[4] == c[4] == |list|;
    assert d[5..n] == c[5..] == list;
    assert (set x | x in d[5..n]) == e.cids;
  }

  lemma SubchannelRoundTrip(e: Event, rest: seq<byte>)
    requires Encodable(e) && e.SubchannelInfo? && !e.pl.Uep?
    ensures Entry1(Encode(e) + rest) == Some(Entry(4, [e]))
  {
    hide UepSize, UepLevel, UepBitrate, EepAFactor, EepBFactor;
    var d := Encode(e) + rest;
    SubchannelFields(e, d);
  }

  lemma SubchannelFields(e: Event, d: seq<byte>)
    requires Encodable(e) && e.SubchannelInfo? && !e.pl.Uep? && Encode(e) <= d
    ensures d[0] / 4 == e.subchid && Word(d[0] % 4, d[1]) == e.start
    ensures d[2] >= 128 && Word(d[2] % 4, d[3]) == e.size && d[2] / 4 % 4 == e.pl.level - 1
    ensures d[2] / 16 % 8 == if e.pl.EepB? then 1 else 0
  {
    hide EepAFactor, EepBFactor;
    var c := Encode(e);
    assert d[0] == c[0] && d[1] == c[1] && d[2] == c[2] && d[3] == c[3];
  }

  lemma OneComponent(sid: int, b0: byte, b1: byte)
    ensures Components(sid, [b0, b1]) == Component(sid, b0, b1)
  {
    assert [b0, b1][2..] == [];
    assert Components(sid, [b0, b1][2..]) == [];
  }

  lemma AudioRoundTrip(e: Event, rest: seq<byte>)
    requires Encodable(e) && e.AudioComponent?
    ensures Entry2(Encode(e) + rest) == Some(Entry(5, [e]))
  {
    hide EncodeSubchannel, EncodeAnnouncements;
    var d := Encode(e) + rest;
    var b0: byte, b1: byte := Flag(e.dabPlus, 63), 4 * e.subchid + Flag(e.ps, 2);
    assert d[3..5] == [b0, b1] && d[2] % 16 == 1 && Word(d[0], d[1]) == e.sid;
    OneComponent(e.sid, b0, b1);
    assert b0 / 64 == 0 && b0 % 64 == b0;
    assert b1 % 2 == 0 && b1 / 4 == e.subchid && b1 / 2 % 2 == Flag(e.ps, 1);
  }

  /** A single Slideshow application with its data. */
  lemma OneApplication(sid: int, scids: int, a: seq<byte>, ua: seq<byte>)
    requires |ua| < 32 && [0, 64 + |ua|] + ua <= a
    ensures Applications(sid, scids, 1, a) == Some(Entry(2 + |ua|, [Slideshow(sid, scids, ua)]))
  {
    var h := [0, 64 + |ua|] + ua;
    assert a[0] == h[0] == 0 && a[1] == h[1] == 64 + |ua|;
    var n := 2 + |ua|;
    assert a[1] % 32 == |ua| && a[1] / 32 == 2;
    assert 8 * (a[0] as int) + (a[1] as int) / 32 == 2;
    assert |a| >= |h|;
    assert a[2..n] == ua by {
      assert a[..n] == h;
      assert h[2..] == ua;
      assert a[..n][2..] == a[2..n];
    }
    var rest := Applications(sid, scids, 0, a[n..]);
    assert rest == Some(Entry(0, []));
    var one := [Slideshow(sid, scids, ua)];
    assert one + rest.value.events == one;
    assert n == 2 + a[1] % 32 && |a| >= n;
    assert Applications(sid, scids, 1, a) == Some(Entry(n + rest.value.size, one + rest.value.events));
  }

  lemma SlideshowFields(e: Event, d: seq<byte>)
    requires Encodable(e) && e.Slideshow? && Encode(e) <= d
    ensures |d| >= 5 && d[2] / 16 == e.scids && d[2] % 16 == 1 && Word(d[0], d[1]) == e.sid
    ensures [0, 64 + |e.ua|] + e.ua <= d[3..]
  {
    var c := Encode(e);
    assert d[0] == c[0] == e.sid / 256 && d[1] == c[1] == e.sid % 256 && d[2] == c[2] == 16 * e.scids + 1;
    assert c[3..] == [0, 64 + |e.ua|] + e.ua;
    assert c[3..] == d[..|c|][3..] == d[3..|c|];
    assert d[3..][..|c| - 3] == c[3..];
  }

  lemma SlideshowRoundTrip(e: Event, rest: seq<byte>)
    requires Encodable(e) && e.Slideshow?
    ensures Entry13(Encode(e) + rest) == Some(Entry(5 + |e.ua|, [e]))
  {
    var d := Encode(e) + rest;
    SlideshowFields(e, d);
    hide Encode, Applications;
    OneApplication(e.sid, e.scids, d[3..], e.ua);
  }

  /** Parsing an encoded entry, whatever follows it, gives back the event. */
  lemma EntryRoundTrip(e: Event, rest: seq<byte>)
    requires Encodable(e)
    ensures FirstEntry(ExtensionOf(e), Encode(e) + rest) == Some(Entry(|Encode(e)|, [e]))
  {
    hide EncodeSubchannel, EncodeAnnouncements, Entry1, Entry2, Entry13, Entry18;
    match e {
      case SubchannelInfo(_, _, _, pl, _) =>
        if pl.Uep? {
          ShortFormRoundTrip(e, rest);
        } else {
          SubchannelRoundTrip(e, rest);
        }
      case Announcements(_, _, _) => AnnouncementsRoundTrip(e, rest);
      case AudioComponent(_, _, _, _) => AudioRoundTrip(e, rest);
      case Slideshow(_, _, _) => SlideshowRoundTrip(e, rest);
      case _ =>
    }
  }
}
