/** What each piece of service information changes in the database and in the observer's list,
    field by field. */
module FicFields {
  import opened Common
  import opened FicDatabase

  // ----- A listing shows its record -----

  ghost predicate IsListable(s: Service) { s.primary != -1 && s.name.charset != -1 }

  /** The Slideshow type that user application data announces: 12 for short data, -1 for data
      with conditional access, of a data group, or of another type than 60. */
  ghost function AnnouncedType(ua: seq<byte>): int {
    if |ua| < 2 then 12 else if ua[0] < 128 && (ua[1] == 60 || ua[1] == 124) then ua[0] % 32 else -1
  }

  /** The component with the lowest number that is defined for the sub-channel. */
  ghost predicate IsLowest(s: Service, scids: int, subchid: int) {
    && scids in s.compDefs && s.compDefs[scids] == subchid
    && forall k | k in s.compDefs && s.compDefs[k] == subchid :: scids <= k
  }

  /** The observer's entry, in terms of the service record and the sub-channels. */
  ghost predicate Shows(st: Fic, sid: int) {
    && sid in st.services && sid in st.listed && IsListable(st.services[sid])
    && var s, l := st.services[sid], st.listed[sid];
    && l.sid == sid && l.scids == -1 && l.name == s.name && l.primary == s.primary
    && l.ptyStatic == s.ptyStatic && l.ptyDynamic == s.ptyDynamic
    && l.asuFlags == s.asuFlags && l.cids == s.cids
    && s.primary in s.audioComps && l.audio == s.audioComps[s.primary] && l.audio.subchid == s.primary
    && (s.primary in st.subchannels ==> l.subchannel == st.subchannels[s.primary])
    && (s.primary !in st.subchannels ==> l.subchannel == Subchannel(0, 0, Unknown, -1, -1))
    && (l.multiComps <==> exists k :: k in s.compDefs && s.compDefs[k] != s.primary && s.compDefs[k] in s.audioComps)
    && ((forall k | k in s.compDefs :: s.compDefs[k] != s.primary) ==> l.slsAppType == -1)
    && (forall k | IsLowest(s, k, s.primary) ::
          l.slsAppType == if k in s.compSlsUas then AnnouncedType(s.compSlsUas[k]) else -1)
  }

  ghost predicate AllShow(st: Fic) {
    forall sid | sid in st.listed :: Shows(st, sid)
  }

  lemma EntryShows(st: Fic, sid: int)
    requires Invariant(st) && sid in st.listed
    ensures Shows(st, sid)
  {
    assert EntryFresh(st, sid) && ServiceConsistent(st, sid);
    var s, l := st.services[sid], st.listed[sid];
    LowestIsFirst(s);
    TypesAgree(s);
    hide SlsAppType, FirstKey, AnnouncedType, IsLowest;
  }

  lemma TypesAgree(s: Service)
    ensures forall k | k in s.compSlsUas :: SlsAppType(s.compSlsUas[k]) == AnnouncedType(s.compSlsUas[k])
  {
    forall k | k in s.compSlsUas ensures SlsAppType(s.compSlsUas[k]) == AnnouncedType(s.compSlsUas[k]) {
      TypeAgrees(s.compSlsUas[k]);
    }
  }

  lemma TypeAgrees(ua: seq<byte>)
    ensures SlsAppType(ua) == AnnouncedType(ua)
  {
  }

  lemma LowestIsFirst(s: Service)
    requires forall k | k in s.compDefs :: k >= 0
    ensures forall k | IsLowest(s, k, s.primary) :: FirstKey(s.compDefs, s.primary) == k
    ensures (forall k | k in s.compDefs :: s.compDefs[k] != s.primary) ==> FirstKey(s.compDefs, s.primary) == -1
  {
    forall k | IsLowest(s, k, s.primary) ensures FirstKey(s.compDefs, s.primary) == k {
      assert IsFirstKey(s.compDefs, s.primary, k);
    }
  }

  lemma StepShows(st: Fic, e: Event)
    requires Invariant(st) && ValidEvent(e)
    ensures Invariant(Step(st, e)) && AllShow(Step(st, e))
  {
    StepKeepsInvariant(st, e);
    hide Step, Invariant, Shows;
    forall sid | sid in Step(st, e).listed ensures Shows(Step(st, e), sid) {
      EntryShows(Step(st, e), sid);
    }
  }

  // ----- Events about a service -----

  /** The record before: as it is stored, or a new one with nothing known but its SId. */
  ghost function Before(st: Fic, sid: int): Service {
    if sid in st.services then st.services[sid]
    else Service(sid, -1, Label(-1, [0, 0, 0, 0, 0, 0, 0, 0, 0, 0, 0, 0, 0, 0, 0, 0], 0), -1, -1, 0, {}, map[], map[], map[], map[])
  }

  /** Nothing but the record and the entry of this service changes; a changed record that can be
      listed is listed. */
  ghost predicate OnlyService(st: Fic, t: Fic, sid: int) {
    && t.ensemble == st.ensemble && t.subchannels == st.subchannels && t.observed == st.observed
    && t.services.Keys == st.services.Keys + {sid}
    && (forall k | k in st.services && k != sid :: t.services[k] == st.services[k])
    && (forall k | k != sid :: k in t.listed <==> k in st.listed)
    && (forall k | k in st.listed && k != sid :: t.listed[k] == st.listed[k])
    && (sid in st.listed ==> sid in t.listed)
    && (IsListable(t.services[sid]) && t.services[sid] != Before(st, sid) ==> sid in t.listed)
  }

  lemma ServiceEvent(st: Fic, e: Event)
    requires Invariant(st) && ValidEvent(e) && AboutService(e)
    ensures GetService(st, e.sid) == Before(st, e.sid)
    ensures var t, s := Step(st, e), Before(st, e.sid);
            && OnlyService(st, t, e.sid)
            && (t.services[e.sid] == if Changes(e, s) then ServiceAfter(e, s) else s)
  {
    FoundService(st, e.sid);
    var s := Before(st, e.sid);
    assert !Changes(e, s) && !e.Announcements? ==> e.sid in st.services;
    assert ServiceAfter(e, s).sid == e.sid;
    KeysKept(st, e, s);
  }

  lemma FoundService(st: Fic, sid: int)
    requires Invariant(st) && sid >= 0
    ensures GetService(st, sid) == Before(st, sid) && Before(st, sid).sid == sid
  {
    if sid in st.services {
      assert ServiceConsistent(st, sid);
    }
  }

  lemma KeysKept(st: Fic, e: Event, s: Service)
    requires Invariant(st) && ValidEvent(e) && AboutService(e) && s == GetService(st, e.sid) == Before(st, e.sid)
    requires !Changes(e, s) && !e.Announcements? ==> e.sid in st.services
    requires ServiceAfter(e, s).sid == e.sid
    ensures OnlyService(st, Step(st, e), e.sid)
  {
    hide PrimaryListing, Changes, ServiceAfter, GetService, Invariant;
  }

  lemma AudioComponentFields(st: Fic, sid: int, subchid: int, dabPlus: bool, ps: bool)
    requires Invariant(st) && sid >= 0 && subchid >= 0
    ensures var t := Step(st, AudioComponent(sid, subchid, dabPlus, ps));
            && OnlyService(st, t, sid) && AllShow(t)
            && var a, b := Before(st, sid), t.services[sid];
            && b.audioComps == a.audioComps[subchid := Audio(subchid, dabPlus)]
            && b.primary == (if ps then subchid else a.primary)
            && b == a.(audioComps := b.audioComps, primary := b.primary)
  {
    var e := AudioComponent(sid, subchid, dabPlus, ps);
    ServiceEvent(st, e);
    StepShows(st, e);
    hide Step, OnlyService, AllShow, Invariant;
  }

  lemma ComponentDefinitionFields(st: Fic, sid: int, scids: int, subchid: int)
    requires Invariant(st) && sid >= 0 && scids >= 0 && subchid >= 0
    ensures var t := Step(st, ComponentDefinition(sid, scids, subchid));
            && OnlyService(st, t, sid) && AllShow(t)
            && var a, b := Before(st, sid), t.services[sid];
            && b.compDefs == a.compDefs[scids := subchid] && b == a.(compDefs := b.compDefs)
  {
    var e := ComponentDefinition(sid, scids, subchid);
    ServiceEvent(st, e);
    StepShows(st, e);
    hide Step, OnlyService, AllShow, Invariant;
  }

  /** Only the first user application data of a component is kept. */
  lemma SlideshowFields(st: Fic, sid: int, scids: int, ua: seq<byte>)
    requires Invariant(st) && sid >= 0 && scids >= 0
    ensures var t := Step(st, Slideshow(sid, scids, ua));
            && OnlyService(st, t, sid) && AllShow(t)
            && var a, b := Before(st, sid), t.services[sid];
            && b.compSlsUas == (if scids in a.compSlsUas then a.compSlsUas else a.compSlsUas[scids := ua])
            && b == a.(compSlsUas := b.compSlsUas)
  {
    var e := Slideshow(sid, scids, ua);
    ServiceEvent(st, e);
    StepShows(st, e);
    hide Step, OnlyService, AllShow, Invariant;
  }

  lemma ProgrammeTypeFields(st: Fic, sid: int, isDynamic: bool, pty: int)
    requires Invariant(st) && sid >= 0 && pty >= 0
    ensures var t := Step(st, ProgrammeType(sid, isDynamic, pty));
            && OnlyService(st, t, sid) && AllShow(t)
            && var a, b := Before(st, sid), t.services[sid];
            && b.ptyStatic == (if isDynamic then a.ptyStatic else pty)
            && b.ptyDynamic == (if isDynamic then pty else a.ptyDynamic)
            && b == a.(ptyStatic := b.ptyStatic, ptyDynamic := b.ptyDynamic)
  {
    var e := ProgrammeType(sid, isDynamic, pty);
    ServiceEvent(st, e);
    StepShows(st, e);
    hide Step, OnlyService, AllShow, Invariant;
  }

  lemma AnnouncementsFields(st: Fic, sid: int, asuFlags: int, cids: set<int>)
    requires Invariant(st) && sid >= 0 && asuFlags >= 0
    ensures var t := Step(st, Announcements(sid, asuFlags, cids));
            && OnlyService(st, t, sid) && AllShow(t)
            && var a, b := Before(st, sid), t.services[sid];
            && b.asuFlags == asuFlags && b.cids == cids && b == a.(asuFlags := b.asuFlags, cids := b.cids)
  {
    var e := Announcements(sid, asuFlags, cids);
    ServiceEvent(st, e);
    StepShows(st, e);
    hide Step, OnlyService, AllShow, Invariant;
  }

  lemma ServiceLabelFields(st: Fic, sid: int, name: Label)
    requires Invariant(st) && sid >= 0 && name.charset != -1
    ensures var t := Step(st, ServiceLabel(sid, name));
            && OnlyService(st, t, sid) && AllShow(t)
            && var a, b := Before(st, sid), t.services[sid]; b.name == name && b == a.(name := b.name)
  {
    var e := ServiceLabel(sid, name);
    ServiceEvent(st, e);
    StepShows(st, e);
    hide Step, OnlyService, AllShow, Invariant;
  }

  lemma ComponentLabelFields(st: Fic, sid: int, scids: int, name: Label)
    requires Invariant(st) && sid >= 0 && scids >= 0 && name.charset != -1
    ensures var t := Step(st, ComponentLabel(sid, scids, name));
            && OnlyService(st, t, sid) && AllShow(t)
            && var a, b := Before(st, sid), t.services[sid];
            && b.compLabels == a.compLabels[scids := name] && b == a.(compLabels := b.compLabels)
  {
    var e := ComponentLabel(sid, scids, name);
    ServiceEvent(st, e);
    StepShows(st, e);
    hide Step, OnlyService, AllShow, Invariant;
  }

  // ----- Events about a sub-channel -----

  /** Nothing but this sub-channel changes, and the entries of the services that have it. */
  ghost predicate OnlySubchannel(st: Fic, t: Fic, subchid: int) {
    && t.ensemble == st.ensemble && t.services == st.services && t.observed == st.observed
    && t.subchannels.Keys == st.subchannels.Keys + {subchid}
    && (forall k | k in st.subchannels && k != subchid :: t.subchannels[k] == st.subchannels[k])
    && (forall k :: k in t.listed <==>
          || k in st.listed
          || (t.subchannels != st.subchannels && k in st.services && IsListable(st.services[k]) && subchid in st.services[k].audioComps))
  }

  lemma SubchannelInfoFields(st: Fic, subchid: int, start: int, size: int, pl: Protection, bitrate: int)
    requires Invariant(st) && subchid >= 0 && pl != Unknown
    ensures var t := Step(st, SubchannelInfo(subchid, start, size, pl, bitrate));
            && OnlySubchannel(st, t, subchid) && AllShow(t)
            && var c := t.subchannels[subchid];
            && c.start == start && c.size == size && c.pl == pl && c.bitrate == bitrate
            && c.language == if subchid in st.subchannels then st.subchannels[subchid].language else -1
  {
    StepShows(st, SubchannelInfo(subchid, start, size, pl, bitrate));
    hide AllShow, PrimaryListing, Invariant;
  }

  lemma LanguageFields(st: Fic, subchid: int, language: int)
    requires Invariant(st) && subchid >= 0 && language >= 0
    ensures var t := Step(st, Language(subchid, language));
            && OnlySubchannel(st, t, subchid) && AllShow(t)
            && t.subchannels[subchid].language == language
            && t.subchannels[subchid].(language := -1)
            == if subchid in st.subchannels then st.subchannels[subchid].(language := -1) else Subchannel(0, 0, Unknown, -1, -1)
  {
    StepShows(st, Language(subchid, language));
    hide AllShow, PrimaryListing, Invariant;
  }

  // ----- Events about the ensemble -----

  /** The changed ensemble reaches the observer: it has an eid and a label, and its eid or ecc is new. */
  ghost predicate IsForwarded(st: Fic, ensemble: Ensemble) {
    && ensemble != st.ensemble && ensemble.eid != -1 && ensemble.name.charset != -1
    && (st.observed.None? || st.observed.value.eid != ensemble.eid || st.observed.value.ecc != ensemble.ecc)
  }

  /** Records and sub-channels stay; the list is emptied when the ensemble is forwarded, and holds
      the refreshed services when it has changed. */
  ghost predicate OnlyEnsemble(st: Fic, t: Fic, refreshed: set<int>) {
    && t.services == st.services && t.subchannels == st.subchannels
    && t.observed == (if IsForwarded(st, t.ensemble) then Some(t.ensemble) else st.observed)
    && forall k :: k in t.listed <==>
         || (k in st.listed && !IsForwarded(st, t.ensemble))
         || (t.ensemble != st.ensemble && k in refreshed && k in st.services && IsListable(st.services[k]))
  }

  lemma EnsembleEvent(st: Fic, e: Event)
    requires e.EnsembleInfo? || e.Country? || e.Switching? || e.EnsembleLabel?
    ensures Step(st, e).ensemble == EnsembleAfter(e, st.ensemble) && OnlyEnsemble(st, Step(st, e), Affected(e, st))
  {
    var next := EnsembleAfter(e, st.ensemble);
    RefreshKeys(Announce(st.(ensemble := next)), Affected(e, st));
    hide PrimaryListing, EnsembleAfter, Affected, Refresh;
  }

  lemma RefreshKeys(st: Fic, sids: set<int>)
    ensures var r := Refresh(st, sids);
            && r.ensemble == st.ensemble && r.services == st.services && r.subchannels == st.subchannels
            && r.observed == st.observed
            && forall k :: k in r.listed <==> k in st.listed || (k in sids && k in st.services && IsListable(st.services[k]))
  {
    hide PrimaryListing;
  }

  lemma EnsembleInfoFields(st: Fic, eid: int, alarm: bool)
    requires Invariant(st) && eid >= 0
    ensures var t := Step(st, EnsembleInfo(eid, alarm));
            && OnlyEnsemble(st, t, {}) && AllShow(t)
            && t.ensemble.eid == eid && t.ensemble.alarm == alarm
            && t.ensemble == st.ensemble.(eid := t.ensemble.eid, alarm := t.ensemble.alarm)
  {
    StepShows(st, EnsembleInfo(eid, alarm));
    EnsembleEvent(st, EnsembleInfo(eid, alarm));
    hide AllShow, Invariant, Step, OnlyEnsemble;
  }

  /** The services with a programme type are refreshed. */
  lemma CountryFields(st: Fic, lto: int, ecc: int, table: int)
    requires Invariant(st) && ecc >= 0 && table >= 0
    ensures var t := Step(st, Country(lto, ecc, table));
            && OnlyEnsemble(st, t, set k | k in st.services && (st.services[k].ptyStatic != -1 || st.services[k].ptyDynamic != -1))
            && AllShow(t)
            && t.ensemble.lto == lto && t.ensemble.ecc == ecc && t.ensemble.interTableId == table
            && t.ensemble == st.ensemble.(lto := t.ensemble.lto, ecc := t.ensemble.ecc, interTableId := t.ensemble.interTableId)
  {
    StepShows(st, Country(lto, ecc, table));
    EnsembleEvent(st, Country(lto, ecc, table));
    hide AllShow, Invariant, Step, OnlyEnsemble;
  }

  /** The services that announce in the cluster are refreshed. */
  lemma SwitchingFields(st: Fic, cid: int, flags: int, subchid: int)
    requires Invariant(st) && cid >= 0 && subchid >= 0
    ensures var t := Step(st, Switching(cid, flags, subchid));
            && OnlyEnsemble(st, t, set k | k in st.services && cid in st.services[k].cids) && AllShow(t)
            && t.ensemble.clusters == st.ensemble.clusters[cid := Cluster(flags, subchid)]
            && t.ensemble == st.ensemble.(clusters := t.ensemble.clusters)
  {
    StepShows(st, Switching(cid, flags, subchid));
    EnsembleEvent(st, Switching(cid, flags, subchid));
    hide AllShow, Invariant, Step, OnlyEnsemble;
  }

  lemma EnsembleLabelFields(st: Fic, name: Label)
    requires Invariant(st) && name.charset != -1
    ensures var t := Step(st, EnsembleLabel(name));
            && OnlyEnsemble(st, t, {}) && AllShow(t)
            && t.ensemble.name == name && t.ensemble == st.ensemble.(name := t.ensemble.name)
  {
    StepShows(st, EnsembleLabel(name));
    EnsembleEvent(st, EnsembleLabel(name));
    hide AllShow, Invariant, Step, OnlyEnsemble;
  }
}
