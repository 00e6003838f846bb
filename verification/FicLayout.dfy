/** FIGs and FIBs of sections 5.2 and 8.1 of ETSI EN 300 401, written down from the fields to the
    bytes, and what `FigParser.cpp` reads from them. */
module FicLayout {
  import opened Common
  import opened FicDatabase
  import opened FicParser

  // ----- The protection tables -----

  /** The sizes of section 6.2.1 in capacity units, for protection levels 5 to 1; 0 where the bit
      rate does not have the level. */
  function UepRow(bitrate: int): seq<int> {
    match bitrate
    case 32 => [16, 21, 24, 29, 35]
    case 48 => [24, 29, 35, 42, 52]
    case 56 => [29, 35, 42, 52, 0]
    case 64 => [32, 42, 48, 58, 70]
    case 80 => [40, 52, 58, 70, 84]
    case 96 => [48, 58, 70, 84, 104]
    case 112 => [58, 70, 84, 104, 0]
    case 128 => [64, 84, 96, 116, 140]
    case 160 => [80, 104, 116, 140, 168]
    case 192 => [96, 116, 140, 168, 208]
    case 224 => [116, 140, 168, 208, 232]
    case 256 => [128, 168, 192, 232, 280]
    case 320 => [160, 208, 0, 280, 0]
    case 384 => [192, 0, 280, 0, 416]
    case _ => [0, 0, 0, 0, 0]
  }

  /** The i-th entry is a cell of the table that is filled. */
  ghost predicate IsUepCell(i: int)
    requires 0 <= i < 64
  {
    1 <= UepLevel(i) <= 5 && UepSize(i) == UepRow(UepBitrate(i))[5 - UepLevel(i)] > 0
  }

  /** The cells come by rising bit rate and falling level. */
  ghost predicate UepPrecedes(i: int, j: int)
    requires 0 <= i < 64 && 0 <= j < 64
  {
    UepBitrate(i) < UepBitrate(j) || (UepBitrate(i) == UepBitrate(j) && UepLevel(i) > UepLevel(j))
  }

  lemma UepEighth0(i: int)
    requires 0 <= i < 8
    ensures IsUepCell(i) && (i < 63 ==> UepPrecedes(i, i + 1))
  {
    match i
    case 0 | 1 | 2 | 3 | 4 | 5 | 6 | 7 =>
  }

  lemma UepEighth1(i: int)
    requires 8 <= i < 16
    ensures IsUepCell(i) && (i < 63 ==> UepPrecedes(i, i + 1))
  {
    match i
    case 8 | 9 | 10 | 11 | 12 | 13 | 14 | 15 =>
  }

  lemma UepEighth2(i: int)
    requires 16 <= i < 24
    ensures IsUepCell(i) && (i < 63 ==> UepPrecedes(i, i + 1))
  {
    match i
    case 16 | 17 | 18 | 19 | 20 | 21 | 22 | 23 =>
  }

  lemma UepEighth3(i: int)
    requires 24 <= i < 32
    ensures IsUepCell(i) && (i < 63 ==> UepPrecedes(i, i + 1))
  {
    match i
    case 24 | 25 | 26 | 27 | 28 | 29 | 30 | 31 =>
  }

  lemma UepEighth4(i: int)
    requires 32 <= i < 40
    ensures IsUepCell(i) && (i < 63 ==> UepPrecedes(i, i + 1))
  {
    match i
    case 32 | 33 | 34 | 35 | 36 | 37 | 38 | 39 =>
  }

  lemma UepEighth5(i: int)
    requires 40 <= i < 48
    ensures IsUepCell(i) && (i < 63 ==> UepPrecedes(i, i + 1))
  {
    match i
    case 40 | 41 | 42 | 43 | 44 | 45 | 46 | 47 =>
  }

  lemma UepEighth6(i: int)
    requires 48 <= i < 56
    ensures IsUepCell(i) && (i < 63 ==> UepPrecedes(i, i + 1))
  {
    match i
    case 48 | 49 | 50 | 51 | 52 | 53 | 54 | 55 =>
  }

  lemma UepEighth7(i: int)
    requires 56 <= i < 64
    ensures IsUepCell(i) && (i < 63 ==> UepPrecedes(i, i + 1))
  {
    match i
    case 56 | 57 | 58 | 59 | 60 | 61 | 62 | 63 =>
  }

  /** The three tables of the parser are the table of the standard, cell by cell. */
  lemma UepTable(i: int)
    requires 0 <= i < 64
    ensures IsUepCell(i) && (i < 63 ==> UepPrecedes(i, i + 1))
  {
    hide *;
    match i / 8
    case 0 => UepEighth0(i);
    case 1 => UepEighth1(i);
    case 2 => UepEighth2(i);
    case 3 => UepEighth3(i);
    case 4 => UepEighth4(i);
    case 5 => UepEighth5(i);
    case 6 => UepEighth6(i);
    case 7 => UepEighth7(i);
  }

  /** A sub-channel with equal error protection: n times 8 kbit/s take 12, 8, 6 or 4 capacity units
      each with set A, n times 32 kbit/s take 27, 21, 18 or 15 with set B. */
  lemma EepRates(n: nat)
    ensures 12 * n / EepAFactor(0) * 8 == 8 * n && 8 * n / EepAFactor(1) * 8 == 8 * n
    ensures 6 * n / EepAFactor(2) * 8 == 8 * n && 4 * n / EepAFactor(3) * 8 == 8 * n
    ensures 27 * n / EepBFactor(0) * 32 == 32 * n && 21 * n / EepBFactor(1) * 32 == 32 * n
    ensures 18 * n / EepBFactor(2) * 32 == 32 * n && 15 * n / EepBFactor(3) * 32 == 32 * n
  {
  }

  // ----- Entries in their other forms -----

  lemma Middle<T>(a: seq<T>, b: seq<T>, c: seq<T>)
    ensures (a + b + c)[|a|..|a| + |b|] == b && (a + b + c)[|a| + |b|..] == c
  {
  }

  /** FIG 0/17 with or without the language and the complementary code; the reserved bits count for nothing. */
  lemma ProgrammeTypeForms(sid: int, isDynamic: bool, pty: int, language: seq<byte>, code: seq<byte>, rest: seq<byte>,
                           top: bool, low: int, high: int)
    requires IsWord(sid) && 0 <= pty < 32 && |language| <= 1 && |code| <= 1 && 0 <= low < 16 && 0 <= high < 8
    ensures Entry17([sid / 256, sid % 256, Flag(isDynamic, 128) + Flag(top, 64) + 32 * |language| + 16 * |code| + low]
                    + language + [32 * high + pty] + code + rest)
         == Some(Entry(4 + |language| + |code|, [ProgrammeType(sid, isDynamic, pty)]))
  {
    var flags := Flag(isDynamic, 128) + Flag(top, 64) + 32 * |language| + 16 * |code| + low;
    var head: seq<byte> := [sid / 256, sid % 256, flags];
    var d := head + language + [32 * high + pty] + code + rest;
    var at := 3 + |language|;
    assert d[0] == head[0] && d[1] == head[1] && d[2] == head[2] && d[at] == 32 * high + pty;
    assert |d| >= at + 1 + |code|;
    SidRead(sid);
    FlagsRead(isDynamic, top, |language|, |code|, low);
    PtyRead(d, sid, isDynamic, pty, |language|, |code|);
  }

  lemma FlagsRead(first: bool, second: bool, third: int, fourth: int, low: int)
    requires 0 <= third <= 1 && 0 <= fourth <= 1 && 0 <= low < 16
    ensures var x := Flag(first, 128) + Flag(second, 64) + 32 * third + 16 * fourth + low;
            0 <= x < 256 && (x >= 128 <==> first) && x / 32 % 2 == third && x / 16 % 2 == fourth
  {
  }

  lemma PtyRead(d: seq<byte>, sid: int, isDynamic: bool, pty: int, language: int, code: int)
    requires 0 <= language <= 1 && 0 <= code <= 1 && |d| >= 4 + language + code && Word(d[0], d[1]) == sid
    requires (d[2] >= 128 <==> isDynamic) && d[2] / 32 % 2 == language && d[2] / 16 % 2 == code
    requires 0 <= pty < 32 && d[3 + language] % 32 == pty
    ensures Entry17(d) == Some(Entry(4 + language + code, [ProgrammeType(sid, isDynamic, pty)]))
  {
  }

  /** FIG 0/18 with any reserved bits and any list of clusters. */
  lemma AnnouncementForms(sid: int, flags: int, cids: seq<byte>, rest: seq<byte>, high: int)
    requires IsWord(sid) && IsWord(flags) && |cids| < 32 && 0 <= high < 8
    ensures Entry18([sid / 256, sid % 256, flags / 256, flags % 256, 32 * high + |cids|] + cids + rest)
         == Some(Entry(5 + |cids|, [Announcements(sid, flags, set c | c in cids)]))
  {
    var head: seq<byte> := [sid / 256, sid % 256, flags / 256, flags % 256, 32 * high + |cids|];
    var d := head + cids + rest;
    Middle(head, cids, rest);
    assert d[..5] == head;
    FirstFour(head, d);
    assert d[4] == d[..5][4] == head[4];
    SidRead(sid);
    SidRead(flags);
  }

  /** FIG 0/8 in the short form, with or without the reserved byte; the long form and components of
      the FIC say nothing. */
  lemma ComponentForms(sid: int, scids: int, x: int, extended: seq<byte>, y: byte, rest: seq<byte>, middle: int)
    requires IsWord(sid) && 0 <= scids < 16 && 0 <= x < 64 && |extended| <= 1 && 0 <= middle < 8
    ensures var z := 128 * |extended| + 16 * middle + scids;
            && Entry8([sid / 256, sid % 256, z, x] + extended + rest)
               == Some(Entry(4 + |extended|, [ComponentDefinition(sid, scids, x)]))
            && Entry8([sid / 256, sid % 256, z, 64 + x] + extended + rest) == Some(Entry(4 + |extended|, []))
            && Entry8([sid / 256, sid % 256, z, 128 + x, y] + extended + rest) == Some(Entry(5 + |extended|, []))
            && Entry8([sid / 256, sid % 256, z, 192 + x, y] + extended + rest) == Some(Entry(5 + |extended|, []))
  {
    var z := 128 * |extended| + 16 * middle + scids;
    ScidsRead(|extended|, middle, scids);
    SidRead(sid);
    ComponentRead(sid, scids, z, x, [], extended, rest);
    ComponentRead(sid, scids, z, 64 + x, [], extended, rest);
    ComponentRead(sid, scids, z, 128 + x, [y], extended, rest);
    ComponentRead(sid, scids, z, 192 + x, [y], extended, rest);
    hide Entry8;
    assert [sid / 256, sid % 256, z, x] + [] == [sid / 256, sid % 256, z, x];
    assert [sid / 256, sid % 256, z, 64 + x] + [] == [sid / 256, sid % 256, z, 64 + x];
    assert [sid / 256, sid % 256, z, 128 + x] + [y] == [sid / 256, sid % 256, z, 128 + x, y];
    assert [sid / 256, sid % 256, z, 192 + x] + [y] == [sid / 256, sid % 256, z, 192 + x, y];
  }

  lemma ScidsRead(extended: int, middle: int, scids: int)
    requires 0 <= extended <= 1 && 0 <= middle < 8 && 0 <= scids < 16
    ensures var z := 128 * extended + 16 * middle + scids; 0 <= z < 256 && (z >= 128 <==> extended == 1) && z % 16 == scids
  {
  }

  lemma ComponentRead(sid: int, scids: int, z: byte, x: byte, more: seq<byte>, extended: seq<byte>, rest: seq<byte>)
    requires IsWord(sid) && z % 16 == scids && |extended| == (if z >= 128 then 1 else 0)
    requires |more| == if x >= 128 then 1 else 0
    ensures Entry8([sid / 256, sid % 256, z, x] + more + extended + rest)
         == Some(Entry(4 + |more| + |extended|, if x < 64 then [ComponentDefinition(sid, scids, x)] else []))
  {
    var head: seq<byte> := [sid / 256, sid % 256, z, x];
    var d := head + more + extended + rest;
    assert d[..4] == head;
    FirstFour(head, d);
    SidRead(sid);
    hide Entry8, Word;
    Entry8Is(d, sid, scids, z, x);
  }

  lemma Entry8Is(d: seq<byte>, sid: int, scids: int, z: byte, x: byte)
    requires z % 16 == scids && |d| >= 4 + (if z >= 128 then 1 else 0) + (if x >= 128 then 1 else 0)
    requires Word(d[0], d[1]) == sid && d[2] == z && d[3] == x
    ensures Entry8(d) == Some(Entry(4 + (if z >= 128 then 1 else 0) + (if x >= 128 then 1 else 0),
                                    if x < 64 then [ComponentDefinition(sid, scids, x)] else []))
  {
    hide Word;
  }

  lemma FirstFour(a: seq<byte>, d: seq<byte>)
    requires 4 <= |a| <= |d| && d[..|a|] == a
    ensures d[0] == a[0] && d[1] == a[1] && d[2] == a[2] && d[3] == a[3]
  {
    assert d[..|a|][0] == d[0] && d[..|a|][1] == d[1] && d[..|a|][2] == d[2] && d[..|a|][3] == d[3];
  }

  /** FIG 0/19 with or without a region, and with any reserved bit. */
  lemma SwitchingForms(cid: int, flags: int, subchid: int, newRegion: seq<byte>, rest: seq<byte>, top: bool)
    requires 0 <= cid < 256 && IsWord(flags) && 0 <= subchid < 64 && |newRegion| <= 1
    ensures Entry19([cid, flags / 256, flags % 256, Flag(top, 128) + 64 * |newRegion| + subchid] + newRegion + rest)
         == Some(Entry(4 + |newRegion|, [Switching(cid, flags, subchid)]))
  {
    var f: seq<byte> := [cid, flags / 256, flags % 256, Flag(top, 128) + 64 * |newRegion| + subchid];
    assert (f + newRegion + rest)[..4] == f;
    FirstFour(f, f + newRegion + rest);
  }

  /** FIG 0/5 in the long form or about the FIC says nothing. */
  lemma LanguageForms(x: int, y: byte, z: byte, rest: seq<byte>)
    requires 0 <= x < 128
    ensures x < 64 ==> Entry5([64 + x, y] + rest) == Some(Entry(2, []))
    ensures Entry5([128 + x, y, z] + rest) == Some(Entry(3, []))
  {
  }

  /** FIG 0/1: reserved options of the long form and the reserved table of the short form say nothing. */
  lemma SubchannelForms(a: byte, b: byte, option: int, x: int, y: byte, z: int, rest: seq<byte>)
    requires 2 <= option < 8 && 0 <= x < 16 && 0 <= z < 64
    ensures Entry1([a, b, 128 + 16 * option + x, y] + rest) == Some(Entry(4, []))
    ensures Entry1([a, b, 64 + z] + rest) == Some(Entry(3, []))
  {
    var f: seq<byte> := [a, b, 128 + 16 * option + x, y];
    var g: seq<byte> := [a, b, 64 + z];
    assert (f + rest)[..4] == f;
    FirstFour(f, f + rest);
    ReservedOption(f + rest, option, x);
    assert (g + rest)[2] == g[2];
    ReservedTable(g + rest, z);
  }

  lemma ReservedOption(d: seq<byte>, option: int, x: int)
    requires |d| >= 4 && 2 <= option < 8 && 0 <= x < 16 && d[2] == 128 + 16 * option + x
    ensures Entry1(d) == Some(Entry(4, []))
  {
    hide UepSize, UepLevel, UepBitrate, EepAFactor, EepBFactor;
    assert d[2] / 16 == 8 + option;
  }

  lemma ReservedTable(d: seq<byte>, z: int)
    requires |d| >= 3 && 0 <= z < 64 && d[2] == 64 + z
    ensures Entry1(d) == Some(Entry(3, []))
  {
    hide UepSize, UepLevel, UepBitrate, EepAFactor, EepBFactor;
  }

  /** A component of FIG 0/2: mode, type, sub-channel, and the flags for primary and conditional access. */
  datatype ServiceComponent = ServiceComponent(mode: int, kind: int, id: int, primary: bool, access: bool)

  predicate IsComponent(c: ServiceComponent) { 0 <= c.mode < 4 && 0 <= c.kind < 64 && 0 <= c.id < 64 }

  function ComponentsBytes(cs: seq<ServiceComponent>): (r: seq<byte>)
    requires forall c | c in cs :: IsComponent(c)
    ensures |r| == 2 * |cs|
  {
    if cs == [] then []
    else
      assert IsComponent(cs[0]);
      [64 * cs[0].mode + cs[0].kind, 4 * cs[0].id + Flag(cs[0].primary, 2) + Flag(cs[0].access, 1)] + ComponentsBytes(cs[1..])
  }

  /** Only stream audio of type 0 (DAB) or 63 (DAB+) without conditional access says something. */
  function ComponentsSay(sid: int, cs: seq<ServiceComponent>): seq<Event> {
    if cs == [] then []
    else
      (if cs[0].mode == 0 && !cs[0].access && (cs[0].kind == 0 || cs[0].kind == 63)
       then [AudioComponent(sid, cs[0].id, cs[0].kind == 63, cs[0].primary)] else [])
      + ComponentsSay(sid, cs[1..])
  }

  lemma OneComponentSays(sid: int, c: ServiceComponent)
    requires IsComponent(c)
    ensures Component(sid, 64 * c.mode + c.kind, 4 * c.id + Flag(c.primary, 2) + Flag(c.access, 1))
         == if c.mode == 0 && !c.access && (c.kind == 0 || c.kind == 63)
            then [AudioComponent(sid, c.id, c.kind == 63, c.primary)] else []
  {
  }

  lemma {:induction false} ComponentsForms(sid: int, cs: seq<ServiceComponent>)
    requires forall c | c in cs :: IsComponent(c)
    ensures Components(sid, ComponentsBytes(cs)) == ComponentsSay(sid, cs)
    decreases |cs|
  {
    hide Component, ComponentsBytes;
    ComponentsSplit(cs);
    if cs != [] {
      OneComponentSays(sid, cs[0]);
      ComponentsForms(sid, cs[1..]);
    }
  }

  lemma ComponentsSplit(cs: seq<ServiceComponent>)
    requires forall c | c in cs :: IsComponent(c)
    ensures |ComponentsBytes(cs)| == 2 * |cs|
    ensures cs != [] ==>
              var c, b := cs[0], ComponentsBytes(cs);
              && IsComponent(c) && b[0] == 64 * c.mode + c.kind && b[1] == 4 * c.id + Flag(c.primary, 2) + Flag(c.access, 1)
              && b[2..] == ComponentsBytes(cs[1..])
  {
    if cs != [] {
      assert IsComponent(cs[0]);
    }
    hide Flag;
  }

  /** FIG 0/2 with any components. */
  lemma ServiceForms(sid: int, local: int, cs: seq<ServiceComponent>, rest: seq<byte>)
    requires IsWord(sid) && 0 <= local < 16 && |cs| < 16 && forall c | c in cs :: IsComponent(c)
    ensures Entry2([sid / 256, sid % 256, 16 * local + |cs|] + ComponentsBytes(cs) + rest)
         == Some(Entry(3 + 2 * |cs|, ComponentsSay(sid, cs)))
  {
    hide *;
    ComponentsForms(sid, cs);
    ListRead(sid, local, |cs|, ComponentsBytes(cs), rest, ComponentsSay(sid, cs));
  }

  lemma ListRead(sid: int, local: int, n: nat, b: seq<byte>, rest: seq<byte>, events: seq<Event>)
    requires IsWord(sid) && 0 <= local < 16 && n < 16 && |b| == 2 * n && Components(sid, b) == events
    ensures Entry2([sid / 256, sid % 256, 16 * local + n] + b + rest) == Some(Entry(3 + 2 * n, events))
  {
    hide *;
    SidRead(sid);
    CountRead(local, n);
    Headed(sid / 256, sid % 256, 16 * local + n, b, rest);
    Entry2Is([sid / 256, sid % 256, 16 * local + n] + b + rest, sid, n, events);
  }

  lemma Headed(x: byte, y: byte, z: byte, b: seq<byte>, rest: seq<byte>)
    ensures var d := [x, y, z] + b + rest;
            && |d| == 3 + |b| + |rest| && d[0] == x && d[1] == y && d[2] == z
            && d[3..3 + |b|] == b && d[3..] == b + rest
  {
    assert [x, y, z] + b + rest == [x, y, z] + (b + rest);
    Middle([x, y, z], b, rest);
  }

  lemma CountRead(high: int, count: int)
    requires 0 <= high < 16 && 0 <= count < 16
    ensures (16 * high + count) % 16 == count && (16 * high + count) / 16 == high
  {
  }

  lemma SidRead(sid: int)
    requires IsWord(sid)
    ensures 0 <= sid / 256 < 256 && 0 <= sid % 256 < 256 && Word(sid / 256, sid % 256) == sid
  {
  }

  lemma Entry2Is(d: seq<byte>, sid: int, n: nat, events: seq<Event>)
    requires |d| >= 3 + 2 * n && Word(d[0], d[1]) == sid && d[2] % 16 == n && Components(sid, d[3..3 + 2 * n]) == events
    ensures Entry2(d) == Some(Entry(3 + 2 * n, events))
  {
    hide Components;
  }

  lemma Entry13Is(d: seq<byte>, sid: int, scids: int, count: nat, apps: Entry)
    requires |d| >= 3 && Word(d[0], d[1]) == sid && d[2] / 16 == scids && d[2] % 16 == count
    requires Applications(sid, scids, count, d[3..]) == Some(apps)
    ensures Entry13(d) == Some(Entry(3 + apps.size, apps.events))
  {
    hide Applications;
  }

  lemma ApplicationsIs(sid: int, scids: int, count: nat, d: seq<byte>, kind: int, data: seq<byte>, rest: Entry)
    requires count > 0 && 0 <= kind < 2048 && |data| < 32 && |d| >= 2 + |data|
    requires d[0] == kind / 8 && d[1] == 32 * (kind % 8) + |data| && d[2..2 + |data|] == data
    requires Applications(sid, scids, count - 1, d[2 + |data|..]) == Some(rest)
    ensures Applications(sid, scids, count, d)
         == Some(Entry(2 + |data| + rest.size, (if kind == 2 then [Slideshow(sid, scids, data)] else []) + rest.events))
  {
    KindRead(kind, |data|);
  }

  /** A user application of FIG 0/13. */
  datatype Application = Application(kind: int, data: seq<byte>)

  predicate IsApplication(a: Application) { 0 <= a.kind < 2048 && |a.data| < 32 }

  function ApplicationsBytes(apps: seq<Application>): seq<byte>
    requires forall a | a in apps :: IsApplication(a)
  {
    if apps == [] then []
    else
      assert IsApplication(apps[0]);
      ApplicationBytes(apps[0]) + ApplicationsBytes(apps[1..])
  }

  function ApplicationBytes(a: Application): (r: seq<byte>)
    requires IsApplication(a)
    ensures |r| == 2 + |a.data|
  {
    [a.kind / 8, 32 * (a.kind % 8) + |a.data|] + a.data
  }

  lemma ApplicationRead(a: Application, tail: seq<byte>)
    requires IsApplication(a)
    ensures var d := ApplicationBytes(a) + tail;
            && d[0] == a.kind / 8 && d[1] == 32 * (a.kind % 8) + |a.data| && d[2..2 + |a.data|] == a.data
            && d[2 + |a.data|..] == tail
  {
    var head: seq<byte> := [a.kind / 8, 32 * (a.kind % 8) + |a.data|];
    Middle(head, a.data, tail);
    assert head + a.data + tail == ApplicationBytes(a) + tail;
    assert (head + a.data + tail)[0] == head[0] && (head + a.data + tail)[1] == head[1];
  }

  /** Only Slideshow, type 2, says something. */
  function ApplicationsSay(sid: int, scids: int, apps: seq<Application>): seq<Event> {
    if apps == [] then []
    else (if apps[0].kind == 2 then [Slideshow(sid, scids, apps[0].data)] else []) + ApplicationsSay(sid, scids, apps[1..])
  }

  lemma {:induction false} ApplicationsForms(sid: int, scids: int, apps: seq<Application>, rest: seq<byte>)
    requires forall a | a in apps :: IsApplication(a)
    ensures Applications(sid, scids, |apps|, ApplicationsBytes(apps) + rest)
         == Some(Entry(|ApplicationsBytes(apps)|, ApplicationsSay(sid, scids, apps)))
    decreases |apps|
  {
    hide *;
    if apps == [] {
      NoApplications(sid, scids, rest);
    } else {
      var a, more := apps[0], ApplicationsBytes(apps[1..]);
      ApplicationsForms(sid, scids, apps[1..], rest);
      ApplicationsStart(apps, rest);
      ApplicationsIs(sid, scids, |apps|, ApplicationsBytes(apps) + rest, a.kind, a.data,
                     Entry(|more|, ApplicationsSay(sid, scids, apps[1..])));
      ApplicationsSayIs(sid, scids, apps);
    }
  }

  lemma ApplicationsStart(apps: seq<Application>, rest: seq<byte>)
    requires apps != [] && forall a | a in apps :: IsApplication(a)
    ensures var a, more, d := apps[0], ApplicationsBytes(apps[1..]), ApplicationsBytes(apps) + rest;
            && 0 <= a.kind < 2048 && |a.data| < 32
            && |ApplicationsBytes(apps)| == 2 + |a.data| + |more| && |d| >= 2 + |a.data|
            && d[0] == a.kind / 8 && d[1] == 32 * (a.kind % 8) + |a.data| && d[2..2 + |a.data|] == a.data
            && d[2 + |a.data|..] == more + rest
  {
    hide *;
    var a, more := apps[0], ApplicationsBytes(apps[1..]);
    ApplicationsSplit(apps);
    Grouped(ApplicationBytes(a), more, rest);
    ApplicationRead(a, more + rest);
  }

  lemma ApplicationsSplit(apps: seq<Application>)
    requires apps != [] && forall a | a in apps :: IsApplication(a)
    ensures IsApplication(apps[0]) && 0 <= apps[0].kind < 2048 && |apps[0].data| < 32
    ensures ApplicationsBytes(apps) == ApplicationBytes(apps[0]) + ApplicationsBytes(apps[1..])
  {
  }

  lemma Grouped<T>(a: seq<T>, b: seq<T>, c: seq<T>)
    ensures a + b + c == a + (b + c)
  {
  }

  lemma ApplicationsSayIs(sid: int, scids: int, apps: seq<Application>)
    requires apps != []
    ensures ApplicationsSay(sid, scids, apps)
         == (if apps[0].kind == 2 then [Slideshow(sid, scids, apps[0].data)] else []) + ApplicationsSay(sid, scids, apps[1..])
  {
  }

  lemma NoApplications(sid: int, scids: int, rest: seq<byte>)
    ensures Applications(sid, scids, 0, ApplicationsBytes([]) + rest)
         == Some(Entry(|ApplicationsBytes([])|, ApplicationsSay(sid, scids, [])))
  {
  }

  lemma KindRead(kind: int, n: int)
    requires 0 <= kind < 2048 && 0 <= n < 32
    ensures (32 * (kind % 8) + n) % 32 == n && 8 * (kind / 8) + (32 * (kind % 8) + n) / 32 == kind
  {
  }

  /** FIG 0/13 with any applications. */
  lemma ApplicationForms(sid: int, scids: int, apps: seq<Application>, rest: seq<byte>)
    requires IsWord(sid) && 0 <= scids < 16 && |apps| < 16 && forall a | a in apps :: IsApplication(a)
    ensures Entry13([sid / 256, sid % 256, 16 * scids + |apps|] + ApplicationsBytes(apps) + rest)
         == Some(Entry(3 + |ApplicationsBytes(apps)|, ApplicationsSay(sid, scids, apps)))
  {
    hide *;
    var b := ApplicationsBytes(apps);
    ApplicationsForms(sid, scids, apps, rest);
    SidRead(sid);
    Headed(sid / 256, sid % 256, 16 * scids + |apps|, b, rest);
    CountRead(scids, |apps|);
    Entry13Is([sid / 256, sid % 256, 16 * scids + |apps|] + b + rest, sid, scids, |apps|,
              Entry(|b|, ApplicationsSay(sid, scids, apps)));
  }

  // ----- FIGs -----

  /** A FIG with its fields: ensemble information with change flags, CIF count and what may follow,
      country with local time offset, extended field and reserved bits, a list of entries of one
      extension, and the three labels. */
  datatype Figure =
    | Info(eid: int, change: int, alarm: bool, cif: int, more: seq<byte>)
    | CountryAndTime(top: int, lto: int, ecc: int, table: int, more: seq<byte>)
    | Listing(ext: int, events: seq<Event>)
    | EnsembleName(eid: int, name: Label)
    | ServiceName(sid: int, name: Label)
    | ComponentName(sid: int, middle: int, scids: int, name: Label)

  predicate IsName(name: Label) {
    0 <= name.charset < 16 && |name.text| == 16 && IsWord(name.shortMask)
  }

  ghost predicate IsFigure(f: Figure) {
    match f
    case Info(eid, change, _, cif, _) => IsWord(eid) && 0 <= change < 4 && 0 <= cif < 8192
    case CountryAndTime(top, lto, ecc, table, _) => 0 <= top < 4 && -32 < lto < 32 && 0 <= ecc < 256 && 0 <= table < 256
    case Listing(ext, events) =>
      IsList(ext) && AllEncodable(events) && forall e | e in events :: ExtensionOf(e) == ext
    case EnsembleName(eid, name) => IsWord(eid) && IsName(name)
    case ServiceName(sid, name) => IsWord(sid) && IsName(name)
    case ComponentName(sid, middle, scids, name) => IsWord(sid) && 0 <= middle < 8 && 0 <= scids < 16 && IsName(name)
  }

  ghost predicate AllEncodable(events: seq<Event>) {
    forall e | e in events :: Encodable(e)
  }

  function Sized(x: int): (r: seq<byte>)
    requires IsWord(x)
    ensures |r| == 2
  {
    [x / 256, x % 256]
  }

  ghost function EncodeAll(events: seq<Event>): seq<byte>
    requires AllEncodable(events)
  {
    if events == [] then [] else Encode(events[0]) + EncodeAll(events[1..])
  }

  /** The type of a FIG, and its bytes behind the FIG header. */
  function KindOf(f: Figure): int { if f.EnsembleName? || f.ServiceName? || f.ComponentName? then 1 else 0 }

  ghost function FigureBytes(f: Figure): seq<byte>
    requires IsFigure(f)
  {
    match f
    case Info(eid, change, alarm, cif, more) =>
      [0] + Sized(eid) + [64 * change + Flag(alarm, 32) + cif / 256, cif % 256] + more
    case CountryAndTime(top, lto, ecc, table, more) =>
      [9, 64 * top + (if lto < 0 then 32 - lto else lto), ecc, table] + more
    case Listing(ext, events) => [ext] + EncodeAll(events)
    case EnsembleName(eid, name) => [16 * name.charset] + Sized(eid) + name.text + Sized(name.shortMask)
    case ServiceName(sid, name) => [16 * name.charset + 1] + Sized(sid) + name.text + Sized(name.shortMask)
    case ComponentName(sid, middle, scids, name) =>
      [16 * name.charset + 4] + [16 * middle + scids] + Sized(sid) + name.text + Sized(name.shortMask)
  }

  /** The pieces of information that it carries. */
  function Says(f: Figure): seq<Event> {
    match f
    case Info(eid, _, alarm, _, _) => [EnsembleInfo(eid, alarm)]
    case CountryAndTime(_, lto, ecc, table, _) => [Country(lto, ecc, table)]
    case Listing(_, events) => events
    case EnsembleName(_, name) => [EnsembleLabel(name)]
    case ServiceName(sid, name) => [ServiceLabel(sid, name)]
    case ComponentName(sid, _, scids, name) => [ComponentLabel(sid, scids, name)]
  }

  lemma {:induction false} EntriesRoundTrip(ext: int, events: seq<Event>)
    requires IsList(ext) && AllEncodable(events) && forall e | e in events :: ExtensionOf(e) == ext
    ensures Entries(ext, EncodeAll(events)) == Some(events)
    decreases |events|
  {
    hide Encodable, Encode, FirstEntry, ExtensionOf, EncodeSubchannel, EncodeAnnouncements;
    if events != [] {
      var e, rest := events[0], EncodeAll(events[1..]);
      assert e in events && Encodable(e) && ExtensionOf(e) == ext;
      assert forall x | x in events[1..] :: x in events;
      EntryRoundTrip(e, rest);
      EntriesRoundTrip(ext, events[1..]);
      var d := Encode(e) + rest;
      EntryFits(ext, d);
      assert d[|Encode(e)|..] == rest;
      assert d != [];
      assert [e] + events[1..] == events;
    }
  }

  lemma WordOf(x: int)
    requires IsWord(x)
    ensures Word(Sized(x)[0], Sized(x)[1]) == x
  {
  }

  lemma InfoRoundTrip(eid: int, change: int, alarm: bool, cif: int, more: seq<byte>)
    requires IsFigure(Info(eid, change, alarm, cif, more))
    ensures Fig0(FigureBytes(Info(eid, change, alarm, cif, more))) == Some([EnsembleInfo(eid, alarm)])
  {
    AlarmRead(change, alarm, cif);
    WordOf(eid);
    InfoBytes(eid, change, alarm, cif, more);
    hide *;
    Figure0Is(FigureBytes(Info(eid, change, alarm, cif, more)), eid, alarm);
  }

  lemma AlarmRead(change: int, alarm: bool, cif: int)
    requires 0 <= change < 4 && 0 <= cif < 8192
    ensures var x := 64 * change + Flag(alarm, 32) + cif / 256; 0 <= x < 256 && (x / 32 % 2 == 1 <==> alarm)
  {
  }

  lemma InfoBytes(eid: int, change: int, alarm: bool, cif: int, more: seq<byte>)
    requires IsFigure(Info(eid, change, alarm, cif, more))
    ensures var b := FigureBytes(Info(eid, change, alarm, cif, more));
            && |b| >= 5 && b[0] == 0 && b[1] == Sized(eid)[0] && b[2] == Sized(eid)[1]
            && b[3] == 64 * change + Flag(alarm, 32) + cif / 256
  {
    hide Sized, Flag;
  }

  lemma Figure0Is(b: seq<byte>, eid: int, alarm: bool)
    requires |b| >= 5 && b[0] == 0 && Word(b[1], b[2]) == eid && (b[3] / 32 % 2 == 1 <==> alarm)
    ensures Fig0(b) == Some([EnsembleInfo(eid, alarm)])
  {
    hide Entries, Word;
    var d := b[1..];
    assert d[0] == b[1] && d[1] == b[2] && d[2] == b[3];
  }

  lemma CountryRoundTrip(top: int, lto: int, ecc: int, table: int, more: seq<byte>)
    requires IsFigure(CountryAndTime(top, lto, ecc, table, more))
    ensures Fig0(FigureBytes(CountryAndTime(top, lto, ecc, table, more))) == Some([Country(lto, ecc, table)])
  {
    hide Entries;
  }

  lemma NameRead(header: byte, d: seq<byte>, at: nat, name: Label)
    requires IsName(name) && at + 18 == |d| && header / 16 == name.charset
    requires d[at..at + 16] == name.text && d[at + 16..] == Sized(name.shortMask)
    ensures LabelAt(header, d, at) == name
  {
    assert d[at + 16] == d[at + 16..][0] && d[at + 17] == d[at + 16..][1];
    WordOf(name.shortMask);
  }

  lemma SliceOfSlice<T>(s: seq<T>, at: nat, n: nat, i: nat, j: nat)
    requires at + n <= |s| && i <= j <= n
    ensures s[at..at + n][i..j] == s[at + i..at + j]
  {
    var u, v := s[at..at + n][i..j], s[at + i..at + j];
    forall k | 0 <= k < |u| ensures u[k] == v[k] {
    }
  }

  function IdsOf(f: Figure): (r: seq<byte>)
    requires KindOf(f) == 1
    requires if f.EnsembleName? then IsWord(f.eid) else IsWord(f.sid) && (f.ComponentName? ==> 0 <= f.middle < 8 && 0 <= f.scids < 16)
    ensures |r| == if f.ComponentName? then 3 else 2
  {
    if f.EnsembleName? then Sized(f.eid) else if f.ServiceName? then Sized(f.sid) else [16 * f.middle + f.scids] + Sized(f.sid)
  }

  lemma NameBytes(f: Figure)
    requires IsFigure(f) && KindOf(f) == 1
    ensures IsName(f.name)
    ensures if f.EnsembleName? then IsWord(f.eid) else IsWord(f.sid) && (f.ComponentName? ==> 0 <= f.middle < 8 && 0 <= f.scids < 16)
    ensures var b, ext := FigureBytes(f), if f.EnsembleName? then 0 else if f.ServiceName? then 1 else 4;
            && |b| == 19 + |IdsOf(f)| && b[0] == 16 * f.name.charset + ext
            && b[1..] == IdsOf(f) + f.name.text + Sized(f.name.shortMask)
  {
    hide EncodeAll, Encodable, AllEncodable, Sized;
  }

  lemma HeaderRead(charset: int, ext: int)
    requires 0 <= charset < 16 && 0 <= ext < 8
    ensures (16 * charset + ext) / 16 == charset && (16 * charset + ext) % 8 == ext && (16 * charset + ext) / 8 % 2 == 0
  {
  }

  lemma NameRoundTrip(f: Figure)
    requires IsFigure(f) && KindOf(f) == 1
    ensures Fig1(FigureBytes(f)) == Says(f)
  {
    NameBytes(f);
    hide FigureBytes, IsFigure;
    var b, name, ids := FigureBytes(f), f.name, IdsOf(f);
    var d := b[1..];
    Middle(ids, name.text, Sized(name.shortMask));
    HeaderRead(name.charset, if f.EnsembleName? then 0 else if f.ServiceName? then 1 else 4);
    assert name.charset == b[0] / 16;
    NameRead(b[0], d, |ids|, name);
    assert forall k | 0 <= k < |ids| :: d[k] == ids[k];
    if !f.EnsembleName? {
      WordOf(f.sid);
    }
    hide LabelAt, Word, Sized;
  }

  /** What a FIG is written to say is what is read from it. */
  lemma FigureRoundTrip(f: Figure)
    requires IsFigure(f)
    ensures Fig(KindOf(f), FigureBytes(f)) == Some(Says(f))
  {
    match f
    case Info(eid, change, alarm, cif, more) => InfoRoundTrip(eid, change, alarm, cif, more);
    case CountryAndTime(top, lto, ecc, table, more) => CountryRoundTrip(top, lto, ecc, table, more);
    case Listing(ext, events) =>
      EntriesRoundTrip(ext, events);
      var b := FigureBytes(f);
      assert b[1..] == EncodeAll(events) && b[0] == ext;
      hide Entries, EncodeAll, Encodable;
    case _ => NameRoundTrip(f);
  }

  /** FIG 0 for the next configuration, another ensemble or data services, and labels of another
      ensemble, say nothing. */
  lemma OthersIgnored(next: bool, other: bool, data: bool, ext: int, rest: seq<byte>, charset: int, extension: int)
    requires 0 <= ext < 32 && (next || other || data) && 0 <= charset < 16 && 0 <= extension < 8
    ensures Fig0([Flag(next, 128) + Flag(other, 64) + Flag(data, 32) + ext] + rest) == Some([])
    ensures Fig1([16 * charset + 8 + extension] + rest) == []
  {
  }

  /** Nor do other types and extensions, FIGs 0/0 and 0/9 that are too short, labels of another
      length, and components of data services. */
  lemma UnknownIgnored(kind: int, d: seq<byte>, ext: int, rest: seq<byte>, charset: int, extension: int)
    requires 2 <= kind < 8 && 0 <= ext < 32 && ext !in {1, 2, 5, 8, 13, 17, 18, 19}
    requires (ext == 0 ==> |rest| < 4) && (ext == 9 ==> |rest| < 3)
    requires 0 <= charset < 16 && 0 <= extension < 8
    requires extension in {0, 1} ==> |rest| != 20
    requires extension == 4 ==> |rest| != 21 || rest[0] >= 128
    ensures Fig(kind, d) == Some([]) && Fig(0, [ext] + rest) == Some([])
    ensures Fig(1, [16 * charset + extension] + rest) == Some([])
  {
    hide Entries;
  }

  // ----- FIBs -----

  /** FIGs one after the other, each behind its type and length. */
  ghost function FigureList(figures: seq<Figure>): seq<byte>
    requires AreFigures(figures)
  {
    if figures == [] then []
    else
      var b := FigureBytes(figures[0]);
      [32 * KindOf(figures[0]) + |b|] + b + FigureList(figures[1..])
  }

  ghost predicate AreFigures(figures: seq<Figure>) {
    forall f | f in figures :: IsFigure(f) && |FigureBytes(f)| < 30
  }

  function SayAll(figures: seq<Figure>): seq<Event> {
    if figures == [] then [] else Says(figures[0]) + SayAll(figures[1..])
  }

  /** The 30 bytes of a FIB hold these FIGs from a place on: they fill it, or the end marker follows. */
  ghost predicate Holds(fib: seq<byte>, at: nat, figures: seq<Figure>)
    requires AreFigures(figures)
  {
    && |fib| == 32 && at + |FigureList(figures)| <= 30
    && fib[at..at + |FigureList(figures)|] == FigureList(figures)
    && (at + |FigureList(figures)| < 30 ==> fib[at + |FigureList(figures)|] == 0xff)
  }

  /** The first FIG of a FIB, and the others behind it. */
  lemma FirstFigure(fib: seq<byte>, at: nat, figures: seq<Figure>)
    requires AreFigures(figures) && Holds(fib, at, figures) && figures != []
    ensures IsFigure(figures[0]) && AreFigures(figures[1..])
    ensures var n := |FigureBytes(figures[0])|;
            && n < 30 && |fib| == 32 && at + 1 + n <= 30 && fib[at] == 32 * KindOf(figures[0]) + n
            && fib[at + 1..at + 1 + n] == FigureBytes(figures[0]) && Holds(fib, at + 1 + n, figures[1..])
  {
    hide FigureBytes, IsFigure, KindOf;
    var f, more := figures[0], figures[1..];
    assert f in figures && forall x | x in more :: x in figures;
    var b, all := FigureBytes(f), FigureList(figures);
    KindIs(f);
    assert |b| < 30;
    Behind(fib, at, 32 * KindOf(f) + |b|, b, FigureList(more));
    hide AreFigures;
  }

  lemma Behind(s: seq<byte>, at: nat, head: byte, b: seq<byte>, c: seq<byte>)
    requires at + 1 + |b| + |c| <= |s| && s[at..at + |[head] + b + c|] == [head] + b + c
    ensures s[at] == head && s[at + 1..at + 1 + |b|] == b
    ensures s[at + 1 + |b|..at + 1 + |b| + |c|] == c
  {
    var all := [head] + b + c;
    Middle([head], b, c);
    SliceOfSlice(s, at, |all|, 1, 1 + |b|);
    SliceOfSlice(s, at, |all|, 1 + |b|, |all|);
    assert all[1 + |b|..] == all[1 + |b|..|all|];
    assert s[at] == s[at..at + |all|][0] == all[0] == head;
  }

  lemma FigsNext(fib: seq<byte>, at: nat, kind: int, n: nat, events: seq<Event>, rest: seq<Event>)
    requires |fib| == 32 && at + 1 + n <= 30 && n < 32 && 0 <= kind <= 1 && fib[at] == 32 * kind + n
    requires Fig(kind, fib[at + 1..at + 1 + n]) == Some(events) && Figs(fib, at + 1 + n) == Some(rest)
    ensures Figs(fib, at) == Some(events + rest)
  {
    hide Fig;
    assert fib[at] / 32 == kind && fib[at] % 32 == n;
  }

  lemma NoFigures(fib: seq<byte>, at: nat)
    requires AreFigures([]) && Holds(fib, at, [])
    ensures |fib| == 32 && Figs(fib, at) == Some([])
  {
    hide Fig;
  }

  lemma KindIs(f: Figure)
    ensures 0 <= KindOf(f) <= 1
  {
  }

  lemma SayAllIs(figures: seq<Figure>)
    ensures SayAll(figures) == if figures == [] then [] else Says(figures[0]) + SayAll(figures[1..])
  {
  }

  /** With the others read, the first FIG is read too. */
  lemma FirstRead(fib: seq<byte>, at: nat, figures: seq<Figure>)
    requires AreFigures(figures) && Holds(fib, at, figures) && figures != []
    ensures IsFigure(figures[0]) && AreFigures(figures[1..])
    ensures var next := at + 1 + |FigureBytes(figures[0])|;
            && |fib| == 32 && Holds(fib, next, figures[1..])
            && (Figs(fib, next) == Some(SayAll(figures[1..])) ==> Figs(fib, at) == Some(SayAll(figures)))
  {
    hide *;
    var f := figures[0];
    FirstFigure(fib, at, figures);
    FigureRoundTrip(f);
    KindIs(f);
    SayAllIs(figures);
    var n := |FigureBytes(f)|;
    if Figs(fib, at + 1 + n) == Some(SayAll(figures[1..])) {
      FigsNext(fib, at, KindOf(f), n, Says(f), SayAll(figures[1..]));
    }
  }

  /** What a FIB is written to say is what is read from it. */
  lemma {:induction false} FibRoundTrip(fib: seq<byte>, at: nat, figures: seq<Figure>)
    requires |fib| == 32 && AreFigures(figures) && Holds(fib, at, figures)
    ensures Figs(fib, at) == Some(SayAll(figures))
    decreases |figures|
  {
    hide *;
    if figures == [] {
      SayAllIs(figures);
      NoFigures(fib, at);
    } else {
      FirstRead(fib, at, figures);
      FibRoundTrip(fib, at + 1 + |FigureBytes(figures[0])|, figures[1..]);
    }
  }
}
