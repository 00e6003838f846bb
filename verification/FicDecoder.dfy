/** FICDecoder and FICDecoderObserver of `FigParser.cpp`: the records are updated in
    place and every method is proved against the steps of `FicDatabase`. */
module FicDecoding {
  import opened Common
  import opened FicDatabase
  import opened FicParser
  import Crc16Table
  import FibCheck

  // ----- Iteration over a std::map: keys in ascending order -----

  lemma Inhabited(keys: set<int>)
    ensures keys == {} || exists k :: k in keys
  {
    if forall k :: k !in keys {
      assert keys == {};
    }
  }

  lemma {:induction false} LeastExists(keys: set<int>)
    requires |keys| > 0
    ensures exists k :: k in keys && forall j | j in keys :: k <= j
    decreases |keys|
  {
    Inhabited(keys);
    var x :| x in keys;
    var others := keys - {x};
    assert forall j | j in keys :: j == x || j in others;
    if |others| == 0 {
      assert x in keys && forall j | j in keys :: x <= j;
    } else {
      LeastExists(others);
      var k :| k in others && forall j | j in others :: k <= j;
      var m := if x < k then x else k;
      assert m in keys && forall j | j in keys :: m <= j;
    }
  }

  method Ascending(keys: set<int>) returns (r: seq<int>)
    ensures forall k :: k in r <==> k in keys
    ensures forall i | 0 <= i < |r| :: r[i] in keys
    ensures forall i, j | 0 <= i < j < |r| :: r[i] < r[j]
  {
    r := [];
    var rest := keys;
    while rest != {}
      invariant rest <= keys
      invariant forall k :: k in r <==> k in keys && k !in rest
      invariant forall i, j | 0 <= i < j < |r| :: r[i] < r[j]
      invariant forall i, k | 0 <= i < |r| && k in rest :: r[i] < k
      decreases |rest|
    {
      LeastExists(rest);
      var k :| k in rest && forall j | j in rest :: k <= j;
      assert k in keys;
      r := r + [k];
      rest := rest - {k};
    }
  }

  // ----- Refreshing a set of services one after the other -----

  lemma RefreshMore(st: Fic, a: set<int>, sid: int)
    ensures Refresh(Refresh(st, a), {sid}) == Refresh(st, a + {sid})
  {
    hide PrimaryListing;
    var x, y := Refresh(Refresh(st, a), {sid}), Refresh(st, a + {sid});
    assert x.listed == y.listed;
  }

  lemma RefreshNone(st: Fic, sids: set<int>)
    requires forall sid | sid in sids :: !Refreshable(st, sid)
    ensures Refresh(st, sids) == st
  {
    hide PrimaryListing;
    assert Refresh(st, sids).listed == st.listed;
  }

  lemma RefreshOne(st: Fic, s: Service)
    requires s.sid in st.services && st.services[s.sid] == s && s.Listable()
    ensures Refresh(st, {s.sid}) == st.(listed := st.listed[s.sid := PrimaryListing(s, st.subchannels)])
  {
    hide PrimaryListing;
    assert Refresh(st, {s.sid}).listed == st.listed[s.sid := PrimaryListing(s, st.subchannels)];
  }

  lemma FirstKeyIs(m: map<int, int>, v: int, k: int)
    requires IsFirstKey(m, v, k)
    ensures FirstKey(m, v) == k
  {
  }

  lemma FirstKeyNone(m: map<int, int>, v: int)
    requires v !in m.Values
    ensures FirstKey(m, v) == -1
  {
  }

  /** What UpdateListedService forwards for a secondary component. */
  function SecondaryListing(s: Service, scids: int, multiComps: bool, subchannels: map<int, Subchannel>): Listed
    requires scids in s.compDefs && s.compDefs[scids] in s.audioComps
  {
    var audio := s.audioComps[s.compDefs[scids]];
    Listed(s.sid, scids, Lookup(subchannels, audio.subchid, NO_SUBCHANNEL), audio,
           Lookup(s.compLabels, scids, s.name), s.ptyStatic, s.ptyDynamic,
           if scids in s.compSlsUas then SlsAppType(s.compSlsUas[scids]) else -1,
           s.asuFlags, s.cids, s.primary, multiComps)
  }

  /** The lowest SCIdS defined for the sub-channel. */
  method DeriveScids(compDefs: map<int, int>, subchid: int) returns (scids: int)
    ensures scids == FirstKey(compDefs, subchid)
  {
    scids := -1;
    var keys := Ascending(compDefs.Keys);
    for i := 0 to |keys|
      invariant forall j | 0 <= j < |keys| :: keys[j] in compDefs
      invariant forall j | 0 <= j < i :: compDefs[keys[j]] != subchid
    {
      if compDefs[keys[i]] == subchid {
        scids := keys[i];
        assert forall k | k in compDefs && compDefs[k] == subchid :: k in keys && scids <= k;
        FirstKeyIs(compDefs, subchid, scids);
        return;
      }
    }
    assert forall k | k in compDefs :: k in keys && compDefs[k] != subchid;
    FirstKeyNone(compDefs, subchid);
  }

  class FicDecoder {
    var ensemble: Ensemble
    var services: map<int, Service>
    var subchannels: map<int, Subchannel>
    // the observer
    var observed: Option<Ensemble>
    var listed: map<int, Listed>
    var discardedFibs: nat

    ghost function State(): Fic
      reads this
    {
      Fic(ensemble, services, subchannels, observed, listed)
    }

    constructor ()
      ensures State() == EMPTY && Invariant(State()) && discardedFibs == 0
      ensures ensemble == Ensemble(-1, false, Label(-1, [0, 0, 0, 0, 0, 0, 0, 0, 0, 0, 0, 0, 0, 0, 0, 0], 0), -1, -100, -1, map[])
      ensures services == map[] && subchannels == map[] && observed == None && listed == map[]
    {
      ensemble, services, subchannels := NO_ENSEMBLE, map[], map[];
      observed, listed, discardedFibs := None, map[], 0;
      new;
      EmptyInvariant();
    }

    // ----- Observer -----

    method FICChangeEnsemble(e: Ensemble)
      modifies `observed, `listed
      ensures if old(observed).Some? && e.eid == old(observed).value.eid && e.ecc == old(observed).value.ecc
              then observed == old(observed) && listed == old(listed)
              else observed == Some(e) && listed == map[]
    {
      if observed.Some? && e.eid == observed.value.eid && e.ecc == observed.value.ecc {
        return;
      }
      listed := map[];
      observed := Some(e);
    }

    method FICChangeService(ls: Listed)
      modifies `listed
      ensures listed == old(listed)[ls.sid := ls]
    {
      listed := listed[ls.sid := ls];
    }

    // ----- Updates of the observer -----

    method UpdateEnsemble()
      modifies `observed, `listed
      ensures State() == Announce(old(State()))
    {
      if ensemble.IsNone() || ensemble.name.IsNone() {
        return;
      }
      FICChangeEnsemble(ensemble);
    }

    method UpdateListedService(service: Service, scids: int, multiComps: bool)
      requires scids == -1 ==> service.primary in service.audioComps
      requires scids != -1 ==> scids in service.compDefs && service.compDefs[scids] in service.audioComps
      modifies `listed
      ensures listed == old(listed)[service.sid :=
                if scids == -1 then PrimaryListing(service, subchannels).(multiComps := multiComps)
                else SecondaryListing(service, scids, multiComps, subchannels)]
    {
      var audio: Audio;
      var name := service.name;
      if scids == -1 {
        audio := service.audioComps[service.primary];
      } else {
        audio := service.audioComps[service.compDefs[scids]];
        if scids in service.compLabels {
          name := service.compLabels[scids];
        }
      }
      var subchannel := NO_SUBCHANNEL;
      if audio.subchid in subchannels {
        subchannel := subchannels[audio.subchid];
      }
      var slsScids := scids;
      if slsScids == -1 {
        slsScids := DeriveScids(service.compDefs, audio.subchid);
      }
      var slsAppType := -1;
      if slsScids != -1 && slsScids in service.compSlsUas {
        slsAppType := SlsAppType(service.compSlsUas[slsScids]);
      }
      FICChangeService(Listed(service.sid, scids, subchannel, audio, name, service.ptyStatic, service.ptyDynamic,
                              slsAppType, service.asuFlags, service.cids, service.primary, multiComps));
    }

    /** All secondary components are forwarded, then the primary one, which stays. */
    method UpdateService(service: Service)
      requires service.sid in services && services[service.sid] == service
      requires service.primary != -1 ==> service.primary in service.audioComps
      requires forall k | k in service.compDefs :: k >= 0
      modifies `listed
      ensures State() == Refresh(old(State()), {service.sid})
    {
      if !service.Listable() {
        RefreshNone(State(), {service.sid});
        return;
      }
      ghost var before := State();
      hide Refresh, PrimaryListing, SecondaryListing;
      var multiComps := false;
      var keys := Ascending(service.compDefs.Keys);
      for i := 0 to |keys|
        invariant ensemble == before.ensemble && services == before.services
        invariant subchannels == before.subchannels && observed == before.observed
        invariant listed.Keys - {service.sid} == before.listed.Keys - {service.sid}
        invariant forall sid | sid in listed && sid != service.sid :: sid in before.listed && listed[sid] == before.listed[sid]
        invariant multiComps <==> exists j | 0 <= j < i :: IsSecondary(service, keys[j])
      {
        if !IsSecondary(service, keys[i]) {
          continue;
        }
        UpdateListedService(service, keys[i], true);
        multiComps := true;
      }
      MultiCompsMeaning(service, keys, multiComps);
      ListingMultiComps(service, subchannels);
      PutOver(listed, before.listed, service.sid, PrimaryListing(service, subchannels));
      UpdateListedService(service, -1, multiComps);
      RefreshOne(before, service);
    }

    /** The loops over all services that update those a change may affect. */
    method UpdateServices(affected: set<int>)
      requires affected <= services.Keys
      requires forall sid | sid in services :: ServiceConsistent(State(), sid)
      modifies `listed
      ensures State() == Refresh(old(State()), affected)
    {
      hide Refresh;
      ghost var before := State();
      ghost var done: set<int> := {};
      RefreshNone(before, {});
      var keys := Ascending(services.Keys);
      for i := 0 to |keys|
        invariant State() == Refresh(before, done)
        invariant services == before.services && State().subchannels == before.subchannels
        invariant done == set k | k in affected && k in keys[..i]
      {
        assert ServiceConsistent(before, keys[i]);
        if keys[i] in affected {
          RefreshMore(before, done, keys[i]);
          UpdateService(services[keys[i]]);
          done := done + {keys[i]};
        }
      }
      forall k | k in affected ensures k in done {
        assert k in services.Keys && k in keys && keys[..|keys|] == keys;
      }
      assert done == affected;
    }

    // ----- The records -----

    method GetService(sid: int) returns (s: Service)
      modifies `services
      ensures s == FicDatabase.GetService(old(State()), sid)
      ensures services == old(services)[sid := s]
    {
      s := if sid in services then services[sid] else NO_SERVICE;
      if s.IsNone() {
        s := NO_SERVICE.(sid := sid);
      }
      services := services[sid := s];
    }

    method GetSubchannel(subchid: int) returns (sc: Subchannel)
      modifies `subchannels
      ensures sc == Lookup(old(subchannels), subchid, NO_SUBCHANNEL)
      ensures subchannels == old(subchannels)[subchid := sc]
    {
      sc := if subchid in subchannels then subchannels[subchid] else NO_SUBCHANNEL;
      subchannels := subchannels[subchid := sc];
    }

    method ChangeSubchannel(e: Event)
      requires e.SubchannelInfo? || e.Language?
      requires Invariant(State()) && ValidEvent(e)
      modifies `subchannels, `listed
      ensures State() == Step(old(State()), e)
    {
      hide Refresh, PrimaryListing;
      ghost var before := State();
      StepKeepsInvariant(before, e);
      var current := GetSubchannel(e.subchid);
      var sc := match e
        case SubchannelInfo(_, start, size, pl, bitrate) => Subchannel(start, size, pl, bitrate, current.language)
        case Language(_, language) => current.(language := language);
      if current != sc {
        subchannels := subchannels[e.subchid := sc];
        assert subchannels == before.subchannels[e.subchid := sc];
        var affected := set sid | sid in services && e.subchid in services[sid].audioComps;
        ConsistencyReadsServices(before, State());
        UpdateServices(affected);
      } else {
        assert e.subchid in before.subchannels;
        assert subchannels == before.subchannels;
      }
    }

    method ChangeEnsemble(e: Event)
      requires e.EnsembleInfo? || e.Country? || e.Switching? || e.EnsembleLabel?
      requires Invariant(State()) && ValidEvent(e)
      modifies `ensemble, `observed, `listed
      ensures State() == Step(old(State()), e)
    {
      hide Refresh, PrimaryListing, EnsembleAfter;
      ghost var before := State();
      var next := EnsembleAfter(e, ensemble);
      if ensemble != next {
        ensemble := next;
        UpdateEnsemble();
        var affected: set<int> := {};
        if e.Country? {
          affected := set sid | sid in services && (services[sid].ptyStatic != -1 || services[sid].ptyDynamic != -1);
        } else if e.Switching? {
          affected := set sid | sid in services && e.cid in services[sid].cids;
        }
        assert affected == Affected(e, before);
        ConsistencyReadsServices(before, State());
        UpdateServices(affected);
      }
    }

    method ChangeService(e: Event)
      requires AboutService(e) && Invariant(State()) && ValidEvent(e)
      modifies `services, `listed
      ensures State() == Step(old(State()), e)
    {
      ghost var before := State();
      GotService(before, e.sid);
      var service := GetService(e.sid);
      hide Refresh, PrimaryListing, FicDatabase.GetService, Invariant;
      if Changes(e, service) {
        AfterIsConsistent(before, e, service);
        hide ServiceAfter, Changes;
        var after := ServiceAfter(e, service);
        services := services[after.sid := after];
        assert services == before.services[after.sid := after];
        assert ServiceConsistent(before.(services := services), after.sid);
        UpdateService(after);
      } else {
        UnchangedIsPresent(before, e);
        hide ServiceAfter, Changes;
        assert !e.Announcements? ==> services == before.services;
      }
    }

    method Apply(e: Event)
      requires Invariant(State()) && ValidEvent(e)
      modifies this`ensemble, this`services, this`subchannels, this`observed, this`listed
      ensures State() == Step(old(State()), e) && Invariant(State())
    {
      StepKeepsInvariant(State(), e);
      hide Step, Invariant;
      if AboutService(e) {
        ChangeService(e);
      } else if e.SubchannelInfo? || e.Language? {
        ChangeSubchannel(e);
      } else {
        ChangeEnsemble(e);
      }
    }

    method ApplyAll(events: seq<Event>)
      requires Invariant(State()) && AllValid(events)
      modifies this`ensemble, this`services, this`subchannels, this`observed, this`listed
      ensures State() == Run(old(State()), events) && Invariant(State())
    {
      hide Step, Invariant, ValidEvent;
      for i := 0 to |events|
        invariant State() == Run(old(State()), events[..i]) && Invariant(State())
      {
        RunAppend(old(State()), events[..i], [events[i]]);
        RunOne(State(), events[i]);
        assert events[..i + 1] == events[..i] + [events[i]];
        assert ValidEvent(events[i]);
        Apply(events[i]);
      }
      assert events[..|events|] == events;
    }

    // ----- FIGs, FIBs and the whole FIC -----

    method ProcessEntries(ext: int, data: seq<byte>)
      requires IsList(ext) && Entries(ext, data).Some?
      requires Invariant(State())
      modifies this`ensemble, this`services, this`subchannels, this`observed, this`listed
      ensures State() == Run(old(State()), Entries(ext, data).value) && Invariant(State())
    {
      hide FirstEntry, Invariant, Run;
      ghost var before := State();
      ghost var done: seq<Event> := [];
      RunNone(before);
      var offset := 0;
      assert data[0..] == data;
      while offset < |data|
        invariant offset <= |data| && Invariant(State()) && State() == Run(before, done)
        invariant Entries(ext, data[offset..]).Some?
        invariant Entries(ext, data).value == done + Entries(ext, data[offset..]).value
      {
        var rest := data[offset..];
        var entry := FirstEntry(ext, rest).value;
        EntryFits(ext, rest);
        EntryValid(ext, rest);
        RunAppend(before, done, entry.events);
        ApplyAll(entry.events);
        done := done + entry.events;
        offset := offset + entry.size;
        assert rest[entry.size..] == data[offset..];
      }
      assert data[offset..] == [];
      assert done == Entries(ext, data).value;
    }

    method ProcessFIG0(data: seq<byte>)
      requires Fig0(data).Some? && Invariant(State())
      modifies this`ensemble, this`services, this`subchannels, this`observed, this`listed
      ensures State() == Run(old(State()), Fig0(data).value) && Invariant(State())
    {
      hide Run, Invariant, Entries;
      RunNone(State());
      if |data| < 1 {
        return;
      }
      if data[0] >= 32 {
        return;
      }
      var ext, rest := data[0] % 32, data[1..];
      if IsList(ext) {
        ProcessEntries(ext, rest);
      } else {
        FigValid(0, data);
        ApplyAll(Figure0(ext, rest).value);
      }
    }

    method ProcessFIG1(data: seq<byte>)
      requires Invariant(State())
      modifies this`ensemble, this`services, this`subchannels, this`observed, this`listed
      ensures State() == Run(old(State()), Fig1(data)) && Invariant(State())
    {
      hide Run, Invariant;
      ApplyAll(Fig1(data));
    }

    /** The FIGs of a FIB, up to the end marker or the checksum. */
    method ProcessFIGs(fib: seq<byte>)
      requires |fib| == 32 && Figs(fib, 0).Some? && Invariant(State())
      modifies this`ensemble, this`services, this`subchannels, this`observed, this`listed
      ensures State() == Run(old(State()), Figs(fib, 0).value) && Invariant(State())
    {
      hide Run, Invariant, Fig, Figs;
      ghost var before := State();
      RunNone(before);
      var offset := 0;
      ghost var done: seq<Event> := [];
      while offset < 30 && fib[offset] != 0xff
        invariant Figs(fib, offset).Some? && Invariant(State()) && State() == Run(before, done)
        invariant Figs(fib, 0).value == done + Figs(fib, offset).value
        decreases 30 - offset
      {
        FigsUnfold(fib, offset);
        var kind, len := fib[offset] / 32, fib[offset] % 32;
        offset := offset + 1;
        var fig := fib[offset..offset + len];
        FigOfKind(kind, fig);
        RunAppend(before, done, Fig(kind, fig).value);
        if kind == 0 {
          ProcessFIG0(fig);
        } else if kind == 1 {
          ProcessFIG1(fig);
        } else {
          RunNone(State());
        }
        done := done + Fig(kind, fig).value;
        offset := offset + len;
      }
      FigsUnfold(fib, offset);
      assert done == Figs(fib, 0).value;
    }

    method ProcessFIB(data: seq<bv8>)
      requires |data| == 32 && Invariant(State())
      requires FibCheck.Accepts(Crc16Table.CCITT, data) ==> Figs(Bytes(data), 0).Some?
      modifies this
      ensures State() == Run(old(State()), FibEvents(data)) && Invariant(State())
      ensures discardedFibs == old(discardedFibs) + if FibCheck.Accepts(Crc16Table.CCITT, data) then 0 else 1
    {
      hide Run, Invariant, Figs, FibCheck.Accepts;
      RunNone(State());
      var ok := FibCheck.CheckCrc(data);
      if !ok {
        discardedFibs := discardedFibs + 1;
        return;
      }
      ProcessFIGs(Bytes(data));
    }

    /** The whole FIC: never stale after any number of FIBs. */
    method Process(data: seq<bv8>)
      requires Invariant(State()) && WellFormed(data)
      modifies this
      ensures Invariant(State())
      ensures State() == if |data| % 32 == 0 then Run(old(State()), FicEvents(data)) else old(State())
    {
      hide Run, Invariant, FibEvents, FicEvents, WellFormed, Figs, FibCheck.Accepts;
      if |data| % 32 != 0 {
        return;
      }
      ghost var before := State();
      RunNone(before);
      NoFibs();
      var i := 0;
      while i < |data|
        invariant i <= |data| && i % 32 == 0
        invariant Invariant(State()) && State() == Run(before, FicEvents(data[..i]))
      {
        FicEventsGrow(data, i);
        FibIsWellFormed(data, i);
        RunAppend(before, FicEvents(data[..i]), FibEvents(data[i..i + 32]));
        ProcessFIB(data[i..i + 32]);
        i := i + 32;
      }
      assert data[..|data|] == data;
    }
  }

  // ----- The events in a stretch of FIC bytes -----

  function Value(b: bv8): byte { b as int }

  function Bytes(data: seq<bv8>): seq<byte> {
    seq(|data|, i requires 0 <= i < |data| => Value(data[i]))
  }

  /** Nothing from a FIB whose checksum is wrong. */
  ghost function FibEvents(data: seq<bv8>): seq<Event>
    requires |data| == 32
  {
    if FibCheck.Accepts(Crc16Table.CCITT, data) && Figs(Bytes(data), 0).Some? then Figs(Bytes(data), 0).value else []
  }

  ghost function FicEvents(data: seq<bv8>): seq<Event> {
    if |data| < 32 then [] else FicEvents(data[..|data| - 32]) + FibEvents(data[|data| - 32..])
  }

  /** Every FIB with a valid checksum carries only FIGs that stay inside it. */
  ghost predicate WellFormed(data: seq<bv8>) {
    forall i | 0 <= i && i + 32 <= |data| && i % 32 == 0 ::
      FibCheck.Accepts(Crc16Table.CCITT, data[i..i + 32]) ==> Figs(Bytes(data[i..i + 32]), 0).Some?
  }

  lemma FibIsWellFormed(data: seq<bv8>, i: nat)
    requires WellFormed(data) && i + 32 <= |data| && i % 32 == 0
    ensures FibCheck.Accepts(Crc16Table.CCITT, data[i..i + 32]) ==> Figs(Bytes(data[i..i + 32]), 0).Some?
  {
    hide Figs, FibCheck.Accepts;
  }

  lemma NoFibs()
    ensures FicEvents([]) == []
  {
  }

  lemma FicEventsGrow(data: seq<bv8>, i: nat)
    requires i + 32 <= |data|
    ensures FicEvents(data[..i + 32]) == FicEvents(data[..i]) + FibEvents(data[i..i + 32])
  {
    hide FibEvents;
    var d := data[..i + 32];
    assert d[..|d| - 32] == data[..i] && d[|d| - 32..] == data[i..i + 32];
  }

  lemma FigsUnfold(fib: seq<byte>, offset: nat)
    requires |fib| == 32 && Figs(fib, offset).Some?
    ensures offset >= 30 || fib[offset] == 0xff ==> Figs(fib, offset).value == []
    ensures offset < 30 && fib[offset] != 0xff ==>
              var next := offset + 1 + fib[offset] % 32;
              && next <= 30
              && var here := Fig(fib[offset] / 32, fib[offset + 1..next]);
              && here.Some? && Figs(fib, next).Some?
              && Figs(fib, offset).value == here.value + Figs(fib, next).value
  {
    hide Fig;
  }

  lemma FigOfKind(kind: int, d: seq<byte>)
    ensures kind == 0 ==> Fig(kind, d) == Fig0(d)
    ensures kind == 1 ==> Fig(kind, d) == Some(Fig1(d))
    ensures kind != 0 && kind != 1 ==> Fig(kind, d) == Some([])
  {
  }

  lemma RunNone(st: Fic)
    ensures Run(st, []) == st
  {
  }

  lemma ConsistencyReadsServices(a: Fic, b: Fic)
    requires Invariant(a) && a.services == b.services
    ensures forall sid | sid in b.services :: ServiceConsistent(b, sid)
  {
    forall sid | sid in b.services ensures ServiceConsistent(b, sid) {
      assert ServiceConsistent(a, sid);
    }
  }

  /** A record that an event leaves as it is has been there before. */
  lemma UnchangedIsPresent(st: Fic, e: Event)
    requires AboutService(e) && ValidEvent(e) && Invariant(st)
    requires !Changes(e, GetService(st, e.sid))
    ensures e.Announcements? || (e.sid in st.services && st.services[e.sid] == GetService(st, e.sid))
  {
    if e.sid in st.services {
      assert ServiceConsistent(st, e.sid);
    }
  }

  lemma PutOver<V>(a: map<int, V>, b: map<int, V>, k: int, v: V)
    requires a.Keys - {k} == b.Keys - {k}
    requires forall j | j in a && j != k :: j in b && a[j] == b[j]
    ensures a[k := v] == b[k := v]
  {
    assert a[k := v].Keys == (a.Keys - {k}) + {k};
    assert b[k := v].Keys == (b.Keys - {k}) + {k};
    var x, y := a[k := v], b[k := v];
    forall j | j in x ensures j in y && x[j] == y[j] {
      if j != k { assert j in a.Keys - {k}; }
    }
  }

  predicate IsSecondary(s: Service, scids: int) {
    scids in s.compDefs && s.compDefs[scids] != s.primary && s.compDefs[scids] in s.audioComps
  }

  lemma MultiCompsMeaning(s: Service, keys: seq<int>, multiComps: bool)
    requires forall k :: k in keys <==> k in s.compDefs
    requires multiComps <==> exists j | 0 <= j < |keys| :: IsSecondary(s, keys[j])
    ensures multiComps == HasSecondary(s)
  {
    if HasSecondary(s) {
      var k :| k in s.compDefs && s.compDefs[k] != s.primary && s.compDefs[k] in s.audioComps;
      assert k in keys && IsSecondary(s, k);
    }
  }

  lemma ListingMultiComps(s: Service, subchannels: map<int, Subchannel>)
    ensures PrimaryListing(s, subchannels).(multiComps := HasSecondary(s)) == PrimaryListing(s, subchannels)
  {
  }
}
