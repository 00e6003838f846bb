/** The records of `FigParser.h`, and the decoder and observer as one state that
    changes with each piece of service information (section 5.2 of ETSI EN 300 401). */
module FicDatabase {
  import opened Common

  /** FIC_LABEL; charset -1 marks a label that has not been received. */
  datatype Label = Label(charset: int, text: seq<byte>, shortMask: int) {
    predicate IsNone() { charset == -1 }
  }

  const NO_LABEL := Label(-1, [0, 0, 0, 0, 0, 0, 0, 0, 0, 0, 0, 0, 0, 0, 0, 0], 0)

  datatype Protection = Unknown | Uep(level: int) | EepA(level: int) | EepB(level: int)

  /** FIC_SUBCHANNEL */
  datatype Subchannel = Subchannel(start: int, size: int, pl: Protection, bitrate: int, language: int)

  const NO_SUBCHANNEL := Subchannel(0, 0, Unknown, -1, -1)

  /** FIC_ASW_CLUSTER */
  datatype Cluster = Cluster(flags: int, subchid: int)

  /** FIC_ENSEMBLE */
  datatype Ensemble = Ensemble(eid: int, alarm: bool, name: Label, ecc: int, lto: int, interTableId: int,
                               clusters: map<int, Cluster>)
  {
    predicate IsNone() { eid == -1 }
  }

  const NO_ENSEMBLE := Ensemble(-1, false, NO_LABEL, -1, -100, -1, map[])

  /** AUDIO_SERVICE */
  datatype Audio = Audio(subchid: int, dabPlus: bool)

  const NO_AUDIO := Audio(-1, false)

  /** FIC_SERVICE */
  datatype Service = Service(sid: int, primary: int, name: Label, ptyStatic: int, ptyDynamic: int,
                             asuFlags: int, cids: set<int>,
                             audioComps: map<int, Audio>, compDefs: map<int, int>,
                             compLabels: map<int, Label>, compSlsUas: map<int, seq<byte>>)
  {
    predicate IsNone() { sid == -1 }

    /** UpdateService goes past its first check. */
    predicate Listable() { primary != -1 && !name.IsNone() }
  }

  const NO_SERVICE := Service(-1, -1, NO_LABEL, -1, -1, 0, {}, map[], map[], map[], map[])

  /** LISTED_SERVICE; scids -1 marks the primary component. */
  datatype Listed = Listed(sid: int, scids: int, subchannel: Subchannel, audio: Audio, name: Label,
                           ptyStatic: int, ptyDynamic: int, slsAppType: int, asuFlags: int, cids: set<int>,
                           primary: int, multiComps: bool)

  /** The decoder's database together with what its observer holds. */
  datatype Fic = Fic(ensemble: Ensemble, services: map<int, Service>, subchannels: map<int, Subchannel>,
                     observed: Option<Ensemble>, listed: map<int, Listed>)

  const EMPTY := Fic(NO_ENSEMBLE, map[], map[], None, map[])

  /** One piece of service information, as the FIG parsers hand it over. */
  datatype Event =
    | EnsembleInfo(eid: int, alarm: bool)
    | SubchannelInfo(subchid: int, start: int, size: int, pl: Protection, bitrate: int)
    | AudioComponent(sid: int, subchid: int, dabPlus: bool, ps: bool)
    | Language(subchid: int, language: int)
    | ComponentDefinition(sid: int, scids: int, subchid: int)
    | Country(lto: int, ecc: int, interTableId: int)
    | Slideshow(sid: int, scids: int, ua: seq<byte>)
    | ProgrammeType(sid: int, isDynamic: bool, pty: int)
    | Announcements(sid: int, asuFlags: int, cids: set<int>)
    | Switching(cid: int, flags: int, subchid: int)
    | EnsembleLabel(name: Label)
    | ServiceLabel(sid: int, name: Label)
    | ComponentLabel(sid: int, scids: int, name: Label)

  /** The ranges that the bit fields of a FIG allow. */
  predicate ValidEvent(e: Event) {
    match e
    case EnsembleInfo(eid, _) => eid >= 0
    case SubchannelInfo(subchid, _, _, pl, _) => subchid >= 0 && pl != Unknown
    case AudioComponent(sid, subchid, _, _) => sid >= 0 && subchid >= 0
    case Language(subchid, language) => subchid >= 0 && language >= 0
    case ComponentDefinition(sid, scids, subchid) => sid >= 0 && scids >= 0 && subchid >= 0
    case Country(_, ecc, table) => ecc >= 0 && table >= 0
    case Slideshow(sid, scids, _) => sid >= 0 && scids >= 0
    case ProgrammeType(sid, _, pty) => sid >= 0 && pty >= 0
    case Announcements(sid, flags, _) => sid >= 0 && flags >= 0
    case Switching(cid, flags, subchid) => cid >= 0 && subchid >= 0
    case EnsembleLabel(name) => !name.IsNone()
    case ServiceLabel(sid, name) => sid >= 0 && !name.IsNone()
    case ComponentLabel(sid, scids, name) => sid >= 0 && scids >= 0 && !name.IsNone()
  }

  // ----- The listing of a service, recomputed from the database -----

  /** The lowest key with the given value, -1 if there is none. */
  ghost function FirstKey(m: map<int, int>, v: int): int {
    if exists k :: IsFirstKey(m, v, k) then
      var k :| IsFirstKey(m, v, k); k
    else -1
  }

  ghost predicate IsFirstKey(m: map<int, int>, v: int, k: int) {
    k in m && m[k] == v && forall j | j in m && m[j] == v :: k <= j
  }

  /** GetSLSAppType */
  function SlsAppType(ua: seq<byte>): int {
    if |ua| >= 2 then
      var ca, appType, dg, dscty := ua[0] >= 128, ua[0] % 32, ua[1] >= 128, ua[1] % 64;
      if !ca && !dg && dscty == 60 then appType else -1
    else 12
  }

  /** A secondary component is both defined and present. */
  predicate HasSecondary(s: Service) {
    exists k | k in s.compDefs :: s.compDefs[k] != s.primary && s.compDefs[k] in s.audioComps
  }

  function Lookup<K, V>(m: map<K, V>, k: K, default: V): V {
    if k in m then m[k] else default
  }

  /** What the observer should hold for a listable service. */
  ghost function PrimaryListing(s: Service, subchannels: map<int, Subchannel>): Listed {
    var audio := Lookup(s.audioComps, s.primary, NO_AUDIO);
    var scids := FirstKey(s.compDefs, audio.subchid);
    Listed(s.sid, -1, Lookup(subchannels, audio.subchid, NO_SUBCHANNEL), audio, s.name,
           s.ptyStatic, s.ptyDynamic,
           if scids != -1 && scids in s.compSlsUas then SlsAppType(s.compSlsUas[scids]) else -1,
           s.asuFlags, s.cids, s.primary, HasSecondary(s))
  }

  // ----- Steps -----

  /** UpdateService for each of the given services. */
  ghost function Refresh(st: Fic, sids: set<int>): Fic {
    st.(listed := map k | k in st.listed.Keys + sids && (k in st.listed || Refreshable(st, k)) ::
          if k in sids && Refreshable(st, k) then PrimaryListing(st.services[k], st.subchannels) else st.listed[k])
  }

  predicate Refreshable(st: Fic, sid: int) {
    sid in st.services && st.services[sid].Listable()
  }

  /** FICChangeEnsemble is called and does not return early. */
  predicate Forwards(st: Fic) {
    && !st.ensemble.IsNone() && !st.ensemble.name.IsNone()
    && !(st.observed.Some? && st.ensemble.eid == st.observed.value.eid && st.ensemble.ecc == st.observed.value.ecc)
  }

  /** UpdateEnsemble */
  function Announce(st: Fic): Fic {
    if Forwards(st) then st.(listed := map[], observed := Some(st.ensemble)) else st
  }

  /** GetService: a new service is created with its SId set. */
  function GetService(st: Fic, sid: int): Service {
    if sid in st.services && !st.services[sid].IsNone() then st.services[sid] else NO_SERVICE.(sid := sid)
  }

  ghost function PutService(st: Fic, s: Service): Fic {
    Refresh(st.(services := st.services[s.sid := s]), {s.sid})
  }

  ghost function PutSubchannel(st: Fic, subchid: int, sc: Subchannel): Fic {
    Refresh(st.(subchannels := st.subchannels[subchid := sc]),
            set sid | sid in st.services && subchid in st.services[sid].audioComps)
  }

  /** The decoder's new ensemble record for the events that change it. */
  function EnsembleAfter(e: Event, old_: Ensemble): Ensemble {
    match e
    case EnsembleInfo(eid, alarm) => old_.(eid := eid, alarm := alarm)
    case Country(lto, ecc, table) => old_.(lto := lto, ecc := ecc, interTableId := table)
    case Switching(cid, flags, subchid) => old_.(clusters := old_.clusters[cid := Cluster(flags, subchid)])
    case EnsembleLabel(name) => old_.(name := name)
    case _ => old_
  }

  /** The services that an ensemble change refreshes. */
  ghost function Affected(e: Event, st: Fic): set<int> {
    match e
    case Country(_, _, _) =>
      set sid | sid in st.services && (st.services[sid].ptyStatic != -1 || st.services[sid].ptyDynamic != -1)
    case Switching(cid, _, _) => set sid | sid in st.services && cid in st.services[sid].cids
    case _ => {}
  }

  ghost function ChangeEnsemble(st: Fic, e: Event): Fic {
    var next := EnsembleAfter(e, st.ensemble);
    if next == st.ensemble then st
    else Refresh(Announce(st.(ensemble := next)), Affected(e, st))
  }

  predicate AboutService(e: Event) {
    || e.AudioComponent? || e.ComponentDefinition? || e.Slideshow? || e.ProgrammeType? || e.Announcements?
    || e.ServiceLabel? || e.ComponentLabel?
  }

  /** The parsers' tests for a change of the service record. */
  predicate Changes(e: Event, s: Service)
    requires AboutService(e)
  {
    match e
    case AudioComponent(_, subchid, dabPlus, ps) =>
      Lookup(s.audioComps, subchid, NO_AUDIO) != Audio(subchid, dabPlus) || ps != (s.primary == subchid)
    case ComponentDefinition(_, scids, subchid) => !(scids in s.compDefs && s.compDefs[scids] == subchid)
    case Slideshow(_, scids, _) => scids !in s.compSlsUas
    case ProgrammeType(_, isDynamic, pty) => (if isDynamic then s.ptyDynamic else s.ptyStatic) != pty
    case Announcements(_, asuFlags, cids) => s.asuFlags != asuFlags || s.cids != cids
    case ServiceLabel(_, name) => s.name != name
    case ComponentLabel(_, scids, name) => Lookup(s.compLabels, scids, NO_LABEL) != name
  }

  function ServiceAfter(e: Event, s: Service): Service
    requires AboutService(e)
  {
    match e
    case AudioComponent(_, subchid, dabPlus, ps) =>
      s.(audioComps := s.audioComps[subchid := Audio(subchid, dabPlus)], primary := if ps then subchid else s.primary)
    case ComponentDefinition(_, scids, subchid) => s.(compDefs := s.compDefs[scids := subchid])
    case Slideshow(_, scids, ua) => s.(compSlsUas := s.compSlsUas[scids := ua])
    case ProgrammeType(_, isDynamic, pty) => if isDynamic then s.(ptyDynamic := pty) else s.(ptyStatic := pty)
    case Announcements(_, asuFlags, cids) => s.(asuFlags := asuFlags, cids := cids)
    case ServiceLabel(_, name) => s.(name := name)
    case ComponentLabel(_, scids, name) => s.(compLabels := s.compLabels[scids := name])
  }

  /** The effect of one event, with the parsers' tests for a change. */
  ghost function Step(st: Fic, e: Event): Fic {
    match e
    case EnsembleInfo(_, _) => ChangeEnsemble(st, e)
    case Country(_, _, _) => ChangeEnsemble(st, e)
    case Switching(_, _, _) => ChangeEnsemble(st, e)
    case EnsembleLabel(_) => ChangeEnsemble(st, e)
    case SubchannelInfo(subchid, start, size, pl, bitrate) =>
      var was := Lookup(st.subchannels, subchid, NO_SUBCHANNEL);
      var sc := Subchannel(start, size, pl, bitrate, was.language);
      if was == sc then st else PutSubchannel(st, subchid, sc)
    case Language(subchid, language) =>
      var was := Lookup(st.subchannels, subchid, NO_SUBCHANNEL);
      if was.language == language then st else PutSubchannel(st, subchid, was.(language := language))
    case _ =>
      var s := GetService(st, e.sid);
      if Changes(e, s) then PutService(st, ServiceAfter(e, s))
      else if e.Announcements? then st.(services := st.services[e.sid := s])
      else st
  }

  ghost function Run(st: Fic, events: seq<Event>): Fic
    decreases events
  {
    if events == [] then st else Run(Step(st, events[0]), events[1..])
  }

  // ----- Invariants -----

  /** The cross references inside the decoder's database. */
  ghost predicate ServiceConsistent(st: Fic, sid: int)
    requires sid in st.services
  {
    var s := st.services[sid];
    && sid >= 0 && s.sid == sid
    && s.primary >= -1 && (s.primary != -1 ==> s.primary in s.audioComps)
    && (forall k | k in s.audioComps :: k >= 0 && s.audioComps[k].subchid == k)
    && (forall k | k in s.compDefs :: k >= 0)
  }

  /** The observer's entry is the listing recomputed from the database. */
  ghost predicate EntryFresh(st: Fic, sid: int)
    requires sid in st.listed
  {
    Refreshable(st, sid) && st.listed[sid] == PrimaryListing(st.services[sid], st.subchannels)
  }

  ghost predicate Invariant(st: Fic) {
    && (forall sid | sid in st.services :: ServiceConsistent(st, sid))
    && (forall sid | sid in st.listed :: EntryFresh(st, sid))
    && (st.observed.Some? ==>
          && !st.ensemble.IsNone() && !st.ensemble.name.IsNone()
          && st.observed.value.eid == st.ensemble.eid && st.observed.value.ecc == st.ensemble.ecc)
  }

  /** Refreshing restores freshness: it suffices that the entries left alone are fresh. */
  lemma RefreshFreshens(st: Fic, sids: set<int>)
    requires forall sid | sid in st.services :: ServiceConsistent(st, sid)
    requires forall sid | sid in st.listed && sid !in sids :: EntryFresh(st, sid)
    requires forall sid | sid in st.listed :: Refreshable(st, sid)
    requires st.observed.Some? ==>
               && !st.ensemble.IsNone() && !st.ensemble.name.IsNone()
               && st.observed.value.eid == st.ensemble.eid && st.observed.value.ecc == st.ensemble.ecc
    ensures Invariant(Refresh(st, sids))
  {
    hide PrimaryListing;
    var r := Refresh(st, sids);
    forall sid | sid in r.services ensures ServiceConsistent(r, sid) {
      assert ServiceConsistent(st, sid);
    }
    forall sid | sid in r.listed ensures EntryFresh(r, sid) {
      if sid in sids {
      } else {
        assert EntryFresh(st, sid);
      }
    }
  }

  lemma PutServiceKeeps(st: Fic, s: Service)
    requires Invariant(st)
    requires ServiceConsistent(st.(services := st.services[s.sid := s]), s.sid)
    requires s.sid in st.listed ==> s.Listable()
    ensures Invariant(PutService(st, s))
  {
    hide PrimaryListing;
    var next := st.(services := st.services[s.sid := s]);
    forall sid | sid in next.services ensures ServiceConsistent(next, sid) {
      if sid != s.sid { assert ServiceConsistent(st, sid); }
    }
    forall sid | sid in next.listed ensures Refreshable(next, sid) && (sid != s.sid ==> EntryFresh(next, sid)) {
      assert EntryFresh(st, sid);
    }
    RefreshFreshens(next, {s.sid});
  }

  /** A listing depends on no other sub-channel than that of the primary component. */
  lemma ListingReadsPrimary(s: Service, a: map<int, Subchannel>, subchid: int, sc: Subchannel)
    requires s.primary in s.audioComps && s.audioComps[s.primary].subchid == s.primary
    requires subchid !in s.audioComps
    ensures PrimaryListing(s, a[subchid := sc]) == PrimaryListing(s, a)
  {
  }

  lemma PutSubchannelKeeps(st: Fic, subchid: int, sc: Subchannel)
    requires Invariant(st)
    ensures Invariant(PutSubchannel(st, subchid, sc))
  {
    var sids := set sid | sid in st.services && subchid in st.services[sid].audioComps;
    var next := st.(subchannels := st.subchannels[subchid := sc]);
    hide PrimaryListing;
    forall sid | sid in next.services ensures ServiceConsistent(next, sid) {
      assert ServiceConsistent(st, sid);
    }
    forall sid | sid in next.listed ensures Refreshable(next, sid) && (sid !in sids ==> EntryFresh(next, sid)) {
      assert EntryFresh(st, sid) && ServiceConsistent(st, sid);
      if sid !in sids {
        ListingReadsPrimary(st.services[sid], st.subchannels, subchid, sc);
      }
    }
    RefreshFreshens(next, sids);
  }

  lemma ChangeEnsembleKeeps(st: Fic, e: Event)
    requires Invariant(st) && ValidEvent(e)
    requires e.EnsembleInfo? || e.Country? || e.Switching? || e.EnsembleLabel?
    ensures Invariant(ChangeEnsemble(st, e))
  {
    hide PrimaryListing;
    var next := EnsembleAfter(e, st.ensemble);
    if next != st.ensemble {
      var a := Announce(st.(ensemble := next));
      forall sid | sid in a.services ensures ServiceConsistent(a, sid) {
        assert ServiceConsistent(st, sid);
      }
      forall sid | sid in a.listed ensures EntryFresh(a, sid) {
        assert EntryFresh(st, sid);
      }
      RefreshFreshens(a, Affected(e, st));
    }
  }

  /** GetService hands out a consistent record. */
  lemma GotService(st: Fic, sid: int)
    requires Invariant(st) && sid >= 0
    ensures var s := GetService(st, sid);
            && s.sid == sid
            && ServiceConsistent(st.(services := st.services[sid := s]), sid)
            && (sid in st.services ==> s == st.services[sid])
            && (sid in st.listed ==> s.Listable())
  {
    if sid in st.services {
      assert ServiceConsistent(st, sid);
    }
    if sid in st.listed {
      assert EntryFresh(st, sid);
    }
  }

  /** No event leaves a stale entry behind. */
  lemma StepKeepsInvariant(st: Fic, e: Event)
    requires Invariant(st) && ValidEvent(e)
    ensures Invariant(Step(st, e))
  {
    hide Invariant, PrimaryListing, PutService, PutSubchannel, ChangeEnsemble, ServiceConsistent, EntryFresh, GetService;
    match e {
      case EnsembleInfo(_, _) => ChangeEnsembleKeeps(st, e);
      case Country(_, _, _) => ChangeEnsembleKeeps(st, e);
      case Switching(_, _, _) => ChangeEnsembleKeeps(st, e);
      case EnsembleLabel(_) => ChangeEnsembleKeeps(st, e);
      case SubchannelInfo(subchid, start, size, pl, bitrate) =>
        PutSubchannelKeeps(st, subchid,
          Subchannel(start, size, pl, bitrate, Lookup(st.subchannels, subchid, NO_SUBCHANNEL).language));
      case Language(subchid, language) =>
        PutSubchannelKeeps(st, subchid, Lookup(st.subchannels, subchid, NO_SUBCHANNEL).(language := language));
      case _ => ServiceStepKeeps(st, e);
    }
  }

  lemma ServiceStepKeeps(st: Fic, e: Event)
    requires Invariant(st) && ValidEvent(e) && AboutService(e)
    ensures Invariant(Step(st, e))
  {
    GotService(st, e.sid);
    var s := GetService(st, e.sid);
    AfterIsConsistent(st, e, s);
    PutBackKeeps(st, e.sid);
    hide Invariant, PrimaryListing, PutService, GetService, ServiceAfter, Changes;
    PutServiceKeeps(st, ServiceAfter(e, s));
  }

  lemma AfterIsConsistent(st: Fic, e: Event, s: Service)
    requires ValidEvent(e) && AboutService(e) && s.sid == e.sid
    requires ServiceConsistent(st.(services := st.services[s.sid := s]), s.sid)
    ensures var t := ServiceAfter(e, s);
            && t.sid == s.sid && (s.Listable() ==> t.Listable())
            && ServiceConsistent(st.(services := st.services[t.sid := t]), t.sid)
  {
  }

  ghost function PutBack(st: Fic, sid: int): Fic {
    st.(services := st.services[sid := GetService(st, sid)])
  }

  lemma PutBackKeeps(st: Fic, sid: int)
    requires Invariant(st) && sid >= 0
    ensures Invariant(PutBack(st, sid))
  {
    GotService(st, sid);
    hide PrimaryListing;
    var next := PutBack(st, sid);
    forall k | k in next.services ensures ServiceConsistent(next, k) {
      if k != sid { assert ServiceConsistent(st, k); }
    }
    forall k | k in next.listed ensures EntryFresh(next, k) {
      assert EntryFresh(st, k);
    }
  }

  /** Never stale: after any run of events from the empty decoder, every entry of the
      observer is the recomputed listing, and a forwarded ensemble has the current eid and ecc. */
  lemma {:induction false} RunKeepsInvariant(st: Fic, events: seq<Event>)
    requires Invariant(st) && forall e | e in events :: ValidEvent(e)
    ensures Invariant(Run(st, events))
    decreases events
  {
    if events != [] {
      StepKeepsInvariant(st, events[0]);
      RunKeepsInvariant(Step(st, events[0]), events[1..]);
    }
  }

  /** Everything the decoder knows from scratch is invariant. */
  lemma EmptyInvariant()
    ensures Invariant(EMPTY)
  {
  }

  lemma {:induction false} RunAppend(st: Fic, a: seq<Event>, b: seq<Event>)
    ensures Run(st, a + b) == Run(Run(st, a), b)
    decreases a
  {
    if a == [] {
      assert a + b == b;
    } else {
      assert (a + b)[0] == a[0] && (a + b)[1..] == a[1..] + b;
      RunAppend(Step(st, a[0]), a[1..], b);
    }
  }

  // ----- What the cache does not promise -----

  /** Every listable service has an entry. */
  ghost predicate Complete(st: Fic) {
    forall sid | Refreshable(st, sid) :: sid in st.listed
  }

  /** The event makes UpdateEnsemble forward a new eid or ecc, which empties the list. */
  ghost predicate Clears(st: Fic, e: Event) {
    && EnsembleAfter(e, st.ensemble) != st.ensemble
    && Forwards(st.(ensemble := EnsembleAfter(e, st.ensemble)))
  }

  /** A complete list stays complete exactly when it is not emptied, or everything
      listable is refreshed right after. */
  lemma CompleteIffNotCleared(st: Fic, e: Event)
    requires Invariant(st) && ValidEvent(e) && Complete(st)
    ensures Complete(Step(st, e))
       <==> (Clears(st, e) ==> forall sid | Refreshable(st, sid) :: sid in Affected(e, st))
  {
    hide PrimaryListing, Invariant;
    if AboutService(e) {
      ServiceStepComplete(st, e);
    } else {
      assert forall sid :: Refreshable(st, sid) <==> Refreshable(Step(st, e), sid);
    }
  }

  lemma ServiceStepComplete(st: Fic, e: Event)
    requires AboutService(e) && Complete(st) && ValidEvent(e) && Invariant(st)
    ensures Complete(Step(st, e)) && !Clears(st, e)
  {
    GotService(st, e.sid);
    hide PrimaryListing, Invariant, Changes, GetService, ServiceConsistent;
    assert ServiceAfter(e, GetService(st, e.sid)).sid == e.sid;
    hide ServiceAfter;
    var next := Step(st, e);
    forall sid | Refreshable(next, sid) ensures sid in next.listed {
      if sid != e.sid {
        assert Refreshable(st, sid);
      }
    }
  }

  /** A service that was complete before the ensemble was first forwarded is not listed. */
  lemma ListedServiceLost(name: Label)
    requires !name.IsNone() && name != NO_LABEL
    ensures var events := [AudioComponent(1, 2, true, true), ServiceLabel(1, name), EnsembleInfo(3, false), EnsembleLabel(name)];
            var st := Run(EMPTY, events);
            && (forall e | e in events :: ValidEvent(e))
            && Refreshable(st, 1) && 1 !in st.listed && 1 in Run(EMPTY, events[..3]).listed
  {
    hide PrimaryListing;
    var events := [AudioComponent(1, 2, true, true), ServiceLabel(1, name), EnsembleInfo(3, false), EnsembleLabel(name)];
    var s1 := Step(EMPTY, events[0]);
    var s2 := Step(s1, events[1]);
    var s3 := Step(s2, events[2]);
    var s4 := Step(s3, events[3]);
    assert s1.services == map[1 := NO_SERVICE.(sid := 1, audioComps := map[2 := Audio(2, true)], primary := 2)];
    assert Refreshable(s2, 1) && 1 in s2.listed;
    assert s3.listed == s2.listed;
    assert s4.listed == map[];
    assert events[..3] == [events[0], events[1], events[2]];
    RunThree(EMPTY, events[0], events[1], events[2]);
    RunAppend(EMPTY, events[..3], [events[3]]);
    assert events == events[..3] + [events[3]];
    RunOne(s3, events[3]);
  }

  lemma RunOne(st: Fic, e: Event)
    ensures Run(st, [e]) == Step(st, e)
  {
    assert [e][1..] == [];
    assert Run(Step(st, e), []) == Step(st, e);
  }

  lemma RunThree(st: Fic, a: Event, b: Event, c: Event)
    ensures Run(st, [a, b, c]) == Step(Step(Step(st, a), b), c)
  {
    RunAppend(st, [a, b], [c]);
    RunAppend(st, [a], [b]);
    assert [a, b, c] == [a, b] + [c] && [a, b] == [a] + [b];
    RunOne(st, a);
    RunOne(Step(st, a), b);
    RunOne(Step(Step(st, a), b), c);
  }

  /** An observer that is up to date stays so exactly when the ensemble does not change, or
      changes its eid or ecc while it has an eid and a label: a new label, alarm flag, time
      offset or cluster alone does not reach it. */
  lemma ObservedFollowsIff(st: Fic, e: Event)
    requires st.observed == Some(st.ensemble)
    ensures var old_, next := st.ensemble, EnsembleAfter(e, st.ensemble);
            Step(st, e).observed == Some(Step(st, e).ensemble)
            <==> next == old_ || ((next.eid != old_.eid || next.ecc != old_.ecc) && next.eid != -1 && !next.name.IsNone())
  {
    hide PrimaryListing;
  }

  /** A second label does not reach the observer. */
  lemma OldLabelKept(first: Label, second: Label)
    requires !first.IsNone() && first != NO_LABEL && first != second
    ensures var st := Run(EMPTY, [EnsembleInfo(3, false), EnsembleLabel(first), EnsembleLabel(second)]);
            st.ensemble.name == second && st.observed.Some? && st.observed.value.name == first
  {
    hide PrimaryListing;
    RunThree(EMPTY, EnsembleInfo(3, false), EnsembleLabel(first), EnsembleLabel(second));
  }
}
