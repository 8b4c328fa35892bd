/** The listening loop: address-to-MAC bookkeeping that drives the registry. */
module PassiveListener {
  import opened Prelude
  import opened Addresses
  import opened IdentityStore
  import opened StoreLaws

  /**
   * What arrives on the two queues. Each event carries the clock reading used for it and the answer
   * the registry's search happened to give.
   */
  datatype Event =
    | Entry(ip: Ipv4, mac: Mac, now: nat, found: Option<string>)
    | Service(ip: Ipv4, services: seq<string>, now: nat, found: Option<string>)

  datatype State = State(seen: map<Ipv4, Mac>, records: Records)

  /** Lookups outside the loop: the vendor table and the tag generator. */
  datatype Tables = Tables(oui: Mac -> Option<string>, tagGen: string -> string)

  /** A MAC without an address is not recorded, unless it is the broadcast placeholder. */
  predicate Placeholder(ip: Ipv4, mac: Mac)
  {
    ip == UNSPECIFIED && mac != BROADCAST
  }

  /** The device an event reports to the registry, if it is accepted. */
  function Reported(seen: map<Ipv4, Mac>, e: Event, tables: Tables): Option<Device>
  {
    match e
    case Entry(ip, mac, _, _) =>
      if Placeholder(ip, mac) || ip in seen then None
      else Some(Device(ip, Some(mac), tables.oui(mac), None, None, [], None))
    case Service(ip, services, _, _) =>
      if ip in seen then Some(Device(ip, Some(seen[ip]), tables.oui(seen[ip]), None, None, services, None))
      else None
  }

  function Step(s: State, e: Event, tables: Tables): State
  {
    match Reported(s.seen, e, tables)
    case None => s
    case Some(device) =>
      State(if e.Entry? then s.seen[e.ip := e.mac] else s.seen,
            Upserted(s.records, device, tables.tagGen, e.now, e.found))
  }

  class Listener {
    var seenLocal: map<Ipv4, Mac>
    const store: Store

    /** The table starts empty, the registry as it was loaded. */
    constructor (loaded: Store)
      ensures store == loaded && seenLocal == map[]
      ensures Now() == State(map[], old(loaded.records))
    {
      seenLocal := map[];
      store := loaded;
    }

    function Now(): State
      reads this, store
    {
      State(seenLocal, store.records)
    }

    method OnEntry(ip: Ipv4, mac: Mac, now: nat, tables: Tables) returns (isNew: bool, ghost found: Option<string>)
      modifies this, store
      ensures var e := Entry(ip, mac, now, found);
              && Now() == Step(old(Now()), e, tables)
              && isNew == Reported(old(seenLocal), e, tables).Some?
              && (isNew ==> Findable(old(store.records), Reported(old(seenLocal), e, tables).value, found))
    {
      found := None;
      if ip == UNSPECIFIED && mac != BROADCAST {
        return false, None;
      }
      if ip in seenLocal {
        return false, None;
      }
      seenLocal := seenLocal[ip := mac];
      var device := Device(ip, Some(mac), None, None, None, [], None);
      device := device.(vendor := tables.oui(mac));
      var record;
      record, found := store.Upsert(device, tables.tagGen, now);
      isNew := true;
    }

    method OnService(ip: Ipv4, services: seq<string>, now: nat, tables: Tables)
      returns (known: bool, ghost found: Option<string>)
      modifies store
      ensures var e := Service(ip, services, now, found);
              && Now() == Step(old(Now()), e, tables)
              && known == Reported(old(seenLocal), e, tables).Some?
              && (known ==> Findable(old(store.records), Reported(old(seenLocal), e, tables).value, found))
    {
      found := None;
      known := ip in seenLocal;
      if known {
        var mac := seenLocal[ip];
        var device := Device(ip, Some(mac), None, None, None, services, None);
        device := device.(vendor := tables.oui(mac));
        var record;
        record, found := store.Upsert(device, tables.tagGen, now);
      }
    }
  }

  // ----- Runs -----

  /** The listener starts from the registry loaded from disk, which is empty the first time. */
  function Run(loaded: Records, events: seq<Event>, tables: Tables): State
  {
    if events == [] then State(map[], loaded)
    else Step(Run(loaded, events[..|events| - 1], tables), events[|events| - 1], tables)
  }

  ghost predicate LegalStep(s: State, e: Event, tables: Tables)
  {
    Reported(s.seen, e, tables).Some? ==> Findable(s.records, Reported(s.seen, e, tables).value, e.found)
  }

  ghost predicate Legal(loaded: Records, events: seq<Event>, tables: Tables)
  {
    events == [] ||
    (Legal(loaded, events[..|events| - 1], tables)
     && LegalStep(Run(loaded, events[..|events| - 1], tables), events[|events| - 1], tables))
  }

  /** The MACs of the accepted events, with multiplicity. */
  function Accepted(loaded: Records, events: seq<Event>, tables: Tables): multiset<Mac>
  {
    if events == [] then multiset{} else
      var front, last := events[..|events| - 1], events[|events| - 1];
      match Reported(Run(loaded, front, tables).seen, last, tables)
      case None => Accepted(loaded, front, tables)
      case Some(device) => Accepted(loaded, front, tables) + multiset{device.mac.value}
  }

  // ----- When the registry can follow the table -----

  predicate Announces(e: Event)
  {
    e.Entry? && !Placeholder(e.ip, e.mac)
  }

  /** The event is the first to announce its address. */
  predicate RecordsFirst(seen: map<Ipv4, Mac>, e: Event)
  {
    Announces(e) && e.ip !in seen
  }

  /** The table as a function of the events alone. */
  function TableAfter(events: seq<Event>): map<Ipv4, Mac>
  {
    if events == [] then map[] else
      var seen, last := TableAfter(events[..|events| - 1]), events[|events| - 1];
      if RecordsFirst(seen, last) then seen[last.ip := last.mac] else seen
  }

  lemma {:induction false} RunTable(loaded: Records, events: seq<Event>, tables: Tables)
    ensures Run(loaded, events, tables).seen == TableAfter(events)
  {
    if events != [] {
      RunTable(loaded, events[..|events| - 1], tables);
    }
  }

  /** `k` is the key of a recorded MAC. */
  ghost predicate Touched(seen: map<Ipv4, Mac>, k: string)
  {
    exists ip :: ip in seen && k == MacKey(seen[ip])
  }

  /** The event records an address that the loaded record of another device, itself not recorded so far, claims. */
  ghost predicate Contested(loaded: Records, seen: map<Ipv4, Mac>, e: Event)
  {
    RecordsFirst(seen, e) && exists k :: ClaimedBy(loaded, k, e.ip) && k != MacKey(e.mac) && !Touched(seen, k)
  }

  predicate ClaimedBy(loaded: Records, k: string, ip: Ipv4)
  {
    k in loaded && loaded[k].lastIp == IpText(ip)
  }

  ghost predicate Uncontested(loaded: Records, events: seq<Event>)
  {
    forall i :: 0 <= i < |events| ==> !Contested(loaded, TableAfter(events[..i]), events[i])
  }

  /** Every loaded record that claims a recorded address is the record of a recorded MAC. */
  ghost predicate Unclaimed(loaded: Records, seen: map<Ipv4, Mac>)
  {
    forall k, ip :: ip in seen && ClaimedBy(loaded, k, ip) ==> Touched(seen, k)
  }

  ghost predicate HasMac(seen: map<Ipv4, Mac>, m: Mac)
  {
    exists ip :: ip in seen && seen[ip] == m
  }

  /** `t` is the text of an address recorded for `m`. */
  ghost predicate RecordedFor(seen: map<Ipv4, Mac>, m: Mac, t: string)
  {
    exists ip :: ip in seen && seen[ip] == m && t == IpText(ip)
  }

  /** The address history `ips` extends the `earlier` one by exactly the addresses recorded for `m`. */
  ghost predicate AddressesOf(ips: seq<string>, earlier: seq<string>, seen: map<Ipv4, Mac>, m: Mac)
  {
    earlier <= ips && forall t :: t in ips <==> t in earlier || RecordedFor(seen, m, t)
  }

  function LoadedIps(loaded: Records, k: string): seq<string>
  {
    if k in loaded then loaded[k].ips else []
  }

  function LoadedCount(loaded: Records, k: string): nat
  {
    if k in loaded then loaded[k].seenCount else 0
  }

  ghost predicate Untouched(loaded: Records, records: Records, k: string)
  {
    if k in loaded then k in records && records[k] == loaded[k] else k !in records
  }

  /**
   * The registry's view of `m`: a record that adds the recorded addresses and the accepted events to what was
   * loaded, when the table has the MAC; otherwise whatever was loaded.
   */
  ghost predicate MacMirrored(loaded: Records, s: State, m: Mac, accepted: nat)
  {
    var k := MacKey(m);
    if HasMac(s.seen, m) then
      && k in s.records && RecordedFor(s.seen, m, s.records[k].lastIp)
      && AddressesOf(s.records[k].ips, LoadedIps(loaded, k), s.seen, m)
      && s.records[k].seenCount == LoadedCount(loaded, k) + accepted
    else accepted == 0 && Untouched(loaded, s.records, k)
  }

  ghost predicate IsMacKey(k: string)
  {
    exists m: Mac :: k == MacKey(m)
  }

  /** Registry and table describe the same world. */
  ghost predicate Mirrors(loaded: Records, s: State, accepted: multiset<Mac>)
  {
    && Valid(s.records)
    && (forall k :: !IsMacKey(k) ==> Untouched(loaded, s.records, k))
    && (forall m: Mac :: MacMirrored(loaded, s, m, accepted[m]))
  }

  /** In a mirrored state nobody but its recorded MAC holds an address. */
  lemma NobodyElseHolds(loaded: Records, s: State, accepted: multiset<Mac>, ip: Ipv4, m: Mac)
    requires Mirrors(loaded, s, accepted) && Unclaimed(loaded, s.seen[ip := m])
    requires ip in s.seen ==> s.seen[ip] == m
    ensures forall k :: !HoldsIp(s.records, k, IpText(ip), MacKey(m))
  {
    hide MacKey, IpText;
    forall k | k in s.records && s.records[k].lastIp == IpText(ip)
      ensures s.records[k].key == MacKey(m)
    {
      assert WellKept(k, s.records[k]);
      if IsMacKey(k) {
        var n: Mac :| k == MacKey(n);
        assert MacMirrored(loaded, s, n, accepted[n]);
        if HasMac(s.seen, n) {
          var j: Ipv4 :| j in s.seen && s.seen[j] == n && IpText(ip) == IpText(j);
          IpTextInjective(ip, j);
        } else {
          UntouchedClaimsNothing(loaded, s.seen, ip, m, k, n);
        }
      } else {
        NoMacUntouched(loaded, s.seen, ip, m, k);
      }
    }
  }

  /** A record whose MAC is not in the table claims no recorded address. */
  lemma UntouchedClaimsNothing(loaded: Records, seen: map<Ipv4, Mac>, ip: Ipv4, m: Mac, k: string, n: Mac)
    requires Unclaimed(loaded, seen[ip := m]) && ClaimedBy(loaded, k, ip)
    requires k == MacKey(n) && !HasMac(seen, n)
    ensures k == MacKey(m)
  {
    hide MacKey, IpText;
    var after := seen[ip := m];
    assert Touched(after, k);
    var j :| j in after && k == MacKey(after[j]);
    MacKeyInjective(n, after[j]);
  }

  lemma NoMacUntouched(loaded: Records, seen: map<Ipv4, Mac>, ip: Ipv4, m: Mac, k: string)
    requires Unclaimed(loaded, seen[ip := m]) && ClaimedBy(loaded, k, ip)
    ensures IsMacKey(k)
  {
    hide MacKey, IpText;
    var after := seen[ip := m];
    assert Touched(after, k);
  }

  /** In a mirrored state an accepted event always lands on the record of its own MAC. */
  lemma MirroredLandsOnOwn(loaded: Records, s: State, accepted: multiset<Mac>, e: Event, tables: Tables)
    requires Mirrors(loaded, s, accepted) && LegalStep(s, e, tables) && Reported(s.seen, e, tables).Some?
    requires Unclaimed(loaded, Step(s, e, tables).seen)
    ensures var device := Reported(s.seen, e, tables).value;
            LandingOf(s.records, device, e.found) == Own(MacKey(device.mac.value), Some(MacText(device.mac.value)))
  {
    hide MacKey, IpText, MacText, Upserted, Mirrors, Valid, LandingOf;
    var device := Reported(s.seen, e, tables).value;
    assert Step(s, e, tables).seen == s.seen[device.ip := device.mac.value];
    NobodyElseHolds(loaded, s, accepted, device.ip, device.mac.value);
    MirroredValid(loaded, s, accepted);
    LandingSound(s.records, device, e.found);
  }

  lemma MirroredValid(loaded: Records, s: State, accepted: multiset<Mac>)
    requires Mirrors(loaded, s, accepted)
    ensures Valid(s.records)
  {
    hide Valid;
  }

  /** What one credited event does to table and registry. */
  ghost predicate Credits(s: State, after: State, ip: Ipv4, m: Mac)
  {
    var key := MacKey(m);
    && after.seen == s.seen[ip := m] && (ip in s.seen ==> s.seen[ip] == m)
    && after.records.Keys == s.records.Keys + {key}
    && (forall k :: k in s.records && k != key ==> after.records[k] == s.records[k])
    && after.records[key].lastIp == IpText(ip)
    && after.records[key].ips == (if key in s.records then AddOnce(s.records[key].ips, IpText(ip)) else [IpText(ip)])
    && after.records[key].seenCount == 1 + if key in s.records then s.records[key].seenCount else 0
  }

  lemma OwnLandingCredits(s: State, after: State, device: Device, m: Mac, tagGen: string -> string, now: nat)
    requires after.seen == s.seen[device.ip := m] && (device.ip in s.seen ==> s.seen[device.ip] == m)
    requires after.records == Settled(s.records, Own(MacKey(m), Some(MacText(m))), device, tagGen, now)
    ensures Credits(s, after, device.ip, m)
  {
    var key := MacKey(m);
    assert key !in s.records ==> after.records[key].ips == [IpText(device.ip)];
  }

  lemma StepCredits(loaded: Records, s: State, accepted: multiset<Mac>, e: Event, tables: Tables)
    requires Mirrors(loaded, s, accepted) && LegalStep(s, e, tables) && Reported(s.seen, e, tables).Some?
    requires Unclaimed(loaded, Step(s, e, tables).seen)
    ensures var device := Reported(s.seen, e, tables).value;
            Credits(s, Step(s, e, tables), device.ip, device.mac.value)
  {
    hide MacKey, IpText, MacText, Mirrors, Unclaimed, LegalStep, Settled, Credits, LandingOf;
    var device := Reported(s.seen, e, tables).value;
    MirroredLandsOnOwn(loaded, s, accepted, e, tables);
    assert e.Service? ==> s.seen == s.seen[device.ip := device.mac.value];
    OwnLandingCredits(s, Step(s, e, tables), device, device.mac.value, tables.tagGen, e.now);
  }

  lemma RecordedGains(seen: map<Ipv4, Mac>, ip: Ipv4, m: Mac)
    requires ip in seen ==> seen[ip] == m
    ensures forall t :: RecordedFor(seen[ip := m], m, t) <==> RecordedFor(seen, m, t) || t == IpText(ip)
  {
    hide IpText;
    forall t
      ensures RecordedFor(seen[ip := m], m, t) <==> RecordedFor(seen, m, t) || t == IpText(ip)
    {
      assert seen[ip := m][ip] == m;
      if RecordedFor(seen, m, t) {
        var j :| j in seen && seen[j] == m && t == IpText(j);
        assert seen[ip := m][j] == m;
      }
    }
  }

  lemma OwnMirrored(loaded: Records, s: State, after: State, accepted: nat, ip: Ipv4, m: Mac)
    requires MacMirrored(loaded, s, m, accepted) && Credits(s, after, ip, m)
    ensures MacMirrored(loaded, after, m, accepted + 1)
  {
    hide MacKey, IpText;
    var k := MacKey(m);
    assert after.seen[ip] == m && HasMac(after.seen, m);
    RecordedGains(s.seen, ip, m);
    if !HasMac(s.seen, m) {
      assert forall t :: !RecordedFor(s.seen, m, t);
    }
  }

  lemma OtherMacUnaffected(seen: map<Ipv4, Mac>, ip: Ipv4, m: Mac, n: Mac)
    requires n != m && (ip in seen ==> seen[ip] == m)
    ensures HasMac(seen[ip := m], n) <==> HasMac(seen, n)
    ensures forall t :: RecordedFor(seen[ip := m], n, t) <==> RecordedFor(seen, n, t)
  {
    hide IpText;
    assert forall j :: j in seen && seen[j] == n ==> seen[ip := m][j] == n;
  }

  lemma OtherMirrored(loaded: Records, s: State, after: State, accepted: nat, ip: Ipv4, m: Mac, n: Mac)
    requires MacMirrored(loaded, s, n, accepted) && Credits(s, after, ip, m) && n != m
    ensures MacMirrored(loaded, after, n, accepted)
  {
    hide MacKey, IpText, HasMac, RecordedFor;
    if MacKey(n) == MacKey(m) {
      MacKeyInjective(n, m);
    }
    OtherMacUnaffected(s.seen, ip, m, n);
  }

  lemma CreditsMirrors(loaded: Records, s: State, after: State, accepted: multiset<Mac>, ip: Ipv4, m: Mac)
    requires Mirrors(loaded, s, accepted) && Credits(s, after, ip, m) && Valid(after.records)
    ensures Mirrors(loaded, after, accepted + multiset{m})
  {
    hide MacKey, IpText, MacText, MacMirrored, Valid;
    var credited := accepted + multiset{m};
    assert IsMacKey(MacKey(m));
    forall n: Mac
      ensures MacMirrored(loaded, after, n, credited[n])
    {
      assert MacMirrored(loaded, s, n, accepted[n]);
      if n == m {
        OwnMirrored(loaded, s, after, accepted[m], ip, m);
      } else {
        OtherMirrored(loaded, s, after, accepted[n], ip, m, n);
      }
    }
  }

  lemma StepMirrors(loaded: Records, s: State, accepted: multiset<Mac>, e: Event, tables: Tables)
    requires Mirrors(loaded, s, accepted) && LegalStep(s, e, tables) && Reported(s.seen, e, tables).Some?
    requires Unclaimed(loaded, Step(s, e, tables).seen)
    ensures Mirrors(loaded, Step(s, e, tables), accepted + multiset{Reported(s.seen, e, tables).value.mac.value})
  {
    hide Mirrors, Credits, Unclaimed, Valid, Findable, Upserted;
    var device := Reported(s.seen, e, tables).value;
    StepCredits(loaded, s, accepted, e, tables);
    MirroredValid(loaded, s, accepted);
    UpsertKeepsValid(s.records, device, tables.tagGen, e.now, e.found);
    CreditsMirrors(loaded, s, Step(s, e, tables), accepted, device.ip, device.mac.value);
  }

  lemma UnclaimedStep(loaded: Records, seen: map<Ipv4, Mac>, e: Event)
    requires Unclaimed(loaded, seen) && !Contested(loaded, seen, e)
    ensures Unclaimed(loaded, if RecordsFirst(seen, e) then seen[e.ip := e.mac] else seen)
  {
    hide IpText, MacKey, ClaimedBy;
    if RecordsFirst(seen, e) {
      var after := seen[e.ip := e.mac];
      forall k, ip | ip in after && ClaimedBy(loaded, k, ip)
        ensures Touched(after, k)
      {
        if k == MacKey(e.mac) {
          assert k == MacKey(after[e.ip]);
        } else {
          assert Touched(seen, k);
          var j :| j in seen && k == MacKey(seen[j]);
          assert k == MacKey(after[j]);
        }
      }
    }
  }

  lemma {:induction false} UncontestedUnclaimed(loaded: Records, events: seq<Event>)
    requires Uncontested(loaded, events)
    ensures Unclaimed(loaded, TableAfter(events))
  {
    hide Contested, Touched, ClaimedBy;
    if events != [] {
      UncontestedFront(loaded, events);
      UncontestedUnclaimed(loaded, events[..|events| - 1]);
      UnclaimedStep(loaded, TableAfter(events[..|events| - 1]), events[|events| - 1]);
    }
  }

  lemma UncontestedFront(loaded: Records, events: seq<Event>)
    requires events != []
    ensures var n := |events| - 1;
            Uncontested(loaded, events) <==>
            Uncontested(loaded, events[..n]) && !Contested(loaded, TableAfter(events[..n]), events[n])
  {
    hide Contested, TableAfter;
    var n := |events| - 1;
    assert forall i :: 0 <= i <= n ==> events[..n][..i] == events[..i];
    assert forall i :: 0 <= i < n ==> events[..n][i] == events[i];
  }

  lemma LoadedMirrors(loaded: Records)
    requires Valid(loaded)
    ensures Mirrors(loaded, State(map[], loaded), multiset{})
  {
    hide Valid;
  }

  /**
   * The registry mirrors the listener's table in every uncontested run: a recorded MAC has a record whose addresses
   * are the loaded ones and those recorded for it, and whose count is the loaded one plus its accepted events; every
   * other record is as loaded.
   */
  lemma {:induction false} ListenerMirrorsStore(loaded: Records, events: seq<Event>, tables: Tables)
    requires Valid(loaded) && Legal(loaded, events, tables) && Uncontested(loaded, events)
    ensures Mirrors(loaded, Run(loaded, events, tables), Accepted(loaded, events, tables))
  {
    hide Mirrors, Uncontested, Unclaimed, Valid, LegalStep, Step, TableAfter;
    if events == [] {
      LoadedMirrors(loaded);
    } else {
      var front, last := events[..|events| - 1], events[|events| - 1];
      var s := Run(loaded, front, tables);
      UncontestedFront(loaded, events);
      UncontestedUnclaimed(loaded, events);
      RunTable(loaded, events, tables);
      ListenerMirrorsStore(loaded, front, tables);
      if Reported(s.seen, last, tables).Some? {
        StepMirrors(loaded, s, Accepted(loaded, front, tables), last, tables);
      } else {
        RefusedStep(s, last, tables);
      }
    }
  }

  lemma RefusedStep(s: State, e: Event, tables: Tables)
    requires Reported(s.seen, e, tables).None?
    ensures Step(s, e, tables) == s
  {
  }

  /** Then no event is ever credited to a record of a different MAC. */
  lemma NeverCreditsAnotherMac(loaded: Records, events: seq<Event>, tables: Tables)
    requires |events| > 0 && Valid(loaded) && Legal(loaded, events, tables) && Uncontested(loaded, events)
    requires Reported(Run(loaded, events[..|events| - 1], tables).seen, events[|events| - 1], tables).Some?
    ensures var s, e := Run(loaded, events[..|events| - 1], tables), events[|events| - 1];
            var device := Reported(s.seen, e, tables).value;
            LandingOf(s.records, device, e.found) == Own(MacKey(device.mac.value), Some(MacText(device.mac.value)))
  {
    hide Mirrors, Uncontested, Unclaimed, Valid, LegalStep, Step, Reported, LandingOf, MacKey, MacText, TableAfter;
    var front, last := events[..|events| - 1], events[|events| - 1];
    UncontestedFront(loaded, events);
    UncontestedUnclaimed(loaded, events);
    RunTable(loaded, events, tables);
    ListenerMirrorsStore(loaded, front, tables);
    MirroredLandsOnOwn(loaded, Run(loaded, front, tables), Accepted(loaded, front, tables), last, tables);
  }

  /** An accepted event adds one sighting and its address to the record of its own MAC, and changes no other record. */
  ghost predicate CreditsOwn(s: State, e: Event, tables: Tables)
  {
    var reported := Reported(s.seen, e, tables);
    reported.Some? ==> Credits(s, Step(s, e, tables), reported.value.ip, reported.value.mac.value)
  }

  ghost predicate AllCreditOwn(loaded: Records, events: seq<Event>, tables: Tables)
  {
    forall i :: 0 <= i < |events| ==> CreditsOwn(Run(loaded, events[..i], tables), events[i], tables)
  }

  lemma AllCreditFront(loaded: Records, events: seq<Event>, tables: Tables)
    requires events != []
    ensures var n := |events| - 1;
            AllCreditOwn(loaded, events, tables) <==>
            AllCreditOwn(loaded, events[..n], tables) && CreditsOwn(Run(loaded, events[..n], tables), events[n], tables)
  {
    hide CreditsOwn, Run;
    var n := |events| - 1;
    assert forall i :: 0 <= i <= n ==> events[..n][..i] == events[..i];
    assert forall i :: 0 <= i < n ==> events[..n][i] == events[i];
  }

  lemma OtherHolderCredited(s: State, e: Event, tables: Tables, k: string)
    requires Valid(s.records) && LegalStep(s, e, tables) && Reported(s.seen, e, tables).Some?
    requires var device := Reported(s.seen, e, tables).value;
             HoldsIp(s.records, k, IpText(device.ip), MacKey(device.mac.value))
    ensures !CreditsOwn(s, e, tables)
  {
    hide MacKey, IpText, MacText, Valid, Settled, LandingOf;
    var device := Reported(s.seen, e, tables).value;
    var landing := LandingOf(s.records, device, e.found);
    LandingSound(s.records, device, e.found);
    SettleFrame(s.records, landing, device, tables.tagGen, e.now);
    KeysDisjoint(device.mac.value, device.ip);
    assert !landing.Own?;
    if landing.Divert? {
      DivertedKey(s.records, landing);
    }
  }

  lemma DivertedKey(records: Records, landing: Landing)
    requires Valid(records) && landing.Divert? && landing.holder in records
    ensures records[landing.holder].key == landing.holder
  {
    assert WellKept(landing.holder, records[landing.holder]);
  }

  /** In a mirrored state a contested address is held by the untouched record that claims it. */
  lemma ContestedHeld(loaded: Records, s: State, accepted: multiset<Mac>, e: Event) returns (k: string)
    requires Mirrors(loaded, s, accepted) && Contested(loaded, s.seen, e)
    ensures HoldsIp(s.records, k, IpText(e.ip), MacKey(e.mac))
  {
    hide MacKey, IpText;
    k :| ClaimedBy(loaded, k, e.ip) && k != MacKey(e.mac) && !Touched(s.seen, k);
    if IsMacKey(k) {
      var n: Mac :| k == MacKey(n);
      assert MacMirrored(loaded, s, n, accepted[n]);
    }
    assert Untouched(loaded, s.records, k);
    assert WellKept(k, s.records[k]);
  }

  /**
   * From any valid loaded registry, every accepted event of a run is credited to the record of its own MAC alone if
   * and only if the run is uncontested.
   */
  lemma {:induction false} CreditsOwnExactly(loaded: Records, events: seq<Event>, tables: Tables)
    requires Valid(loaded) && Legal(loaded, events, tables)
    ensures AllCreditOwn(loaded, events, tables) <==> Uncontested(loaded, events)
  {
    hide CreditsOwn, AllCreditOwn, Uncontested, Valid, LegalStep, Run, Contested, TableAfter;
    if events == [] {
      NoneContested(loaded, tables);
    } else {
      var front := events[..|events| - 1];
      CreditsOwnExactly(loaded, front, tables);
      UncontestedFront(loaded, events);
      AllCreditFront(loaded, events, tables);
      if Uncontested(loaded, front) {
        LastCreditsOwn(loaded, events, tables);
      }
    }
  }

  lemma NoneContested(loaded: Records, tables: Tables)
    ensures Uncontested(loaded, []) && AllCreditOwn(loaded, [], tables)
  {
  }

  lemma LastCreditsOwn(loaded: Records, events: seq<Event>, tables: Tables)
    requires events != [] && Valid(loaded) && Legal(loaded, events, tables)
    requires Uncontested(loaded, events[..|events| - 1])
    ensures var front, last := events[..|events| - 1], events[|events| - 1];
            CreditsOwn(Run(loaded, front, tables), last, tables) <==> !Contested(loaded, TableAfter(front), last)
  {
    hide Uncontested, Valid, Contested, Step, Credits, Mirrors, Unclaimed, Reported, LegalStep;
    var front, last := events[..|events| - 1], events[|events| - 1];
    var s, accepted := Run(loaded, front, tables), Accepted(loaded, front, tables);
    ListenerMirrorsStore(loaded, front, tables);
    RunTable(loaded, front, tables);
    RunTable(loaded, events, tables);
    if Contested(loaded, s.seen, last) {
      var k := ContestedHeld(loaded, s, accepted, last);
      ContestedReported(loaded, s.seen, last, tables);
      MirroredValid(loaded, s, accepted);
      OtherHolderCredited(s, last, tables, k);
    } else if Reported(s.seen, last, tables).Some? {
      UncontestedUnclaimed(loaded, front);
      UnclaimedStep(loaded, s.seen, last);
      StepCredits(loaded, s, accepted, last, tables);
    }
  }

  lemma ContestedReported(loaded: Records, seen: map<Ipv4, Mac>, e: Event, tables: Tables)
    requires Contested(loaded, seen, e)
    ensures var reported := Reported(seen, e, tables);
            reported.Some? && reported.value.ip == e.ip && e.Entry? && reported.value.mac == Some(e.mac)
  {
  }

  /** The order decides: a loaded device that moves on first leaves its address free, one that is late loses it. */
  lemma OrderDecides(loaded: Records, a: Mac, b: Mac, p: Ipv4, q: Ipv4)
    requires a != b && p != q && p != UNSPECIFIED && q != UNSPECIFIED
    requires loaded.Keys == {MacKey(a)} && loaded[MacKey(a)].lastIp == IpText(p)
    ensures Uncontested(loaded, [Entry(q, a, 0, None), Entry(p, b, 0, None)])
    ensures !Uncontested(loaded, [Entry(p, b, 0, None), Entry(q, a, 0, None)])
  {
    hide MacKey, IpText;
    if MacKey(a) == MacKey(b) {
      MacKeyInjective(a, b);
    }
    if IpText(p) == IpText(q) {
      IpTextInjective(p, q);
    }
    var moves, takes := Entry(q, a, 0, None), Entry(p, b, 0, None);
    var first, second := [moves, takes], [takes, moves];
    assert TableAfter(first[..0]) == map[] && TableAfter(second[..0]) == map[];
    assert first[..1][..0] == [] && TableAfter(first[..1]) == map[q := a];
    assert Touched(map[q := a], MacKey(a)) by {
      assert map[q := a][q] == a;
    }
    assert ClaimedBy(loaded, MacKey(a), p) && !Touched(map[], MacKey(a));
    assert Contested(loaded, TableAfter(second[..0]), second[0]);
  }

  /**
   * From an empty registry: the keys are exactly those of the recorded MACs, each record lists exactly the
   * addresses recorded for its MAC, and each count is the number of accepted events of that MAC.
   */
  lemma EmptyStartMirrors(events: seq<Event>, tables: Tables)
    requires Legal(map[], events, tables)
    ensures var s, accepted := Run(map[], events, tables), Accepted(map[], events, tables);
            && s.records.Keys == (set ip | ip in s.seen :: MacKey(s.seen[ip]))
            && forall ip :: ip in s.seen ==>
                 var m := s.seen[ip];
                 && s.records[MacKey(m)].seenCount == accepted[m]
                 && (forall t :: t in s.records[MacKey(m)].ips <==> RecordedFor(s.seen, m, t))
  {
    hide MacKey, IpText, Valid, RecordedFor, Run, Accepted, Legal;
    var s, accepted := Run(map[], events, tables), Accepted(map[], events, tables);
    EmptyUncontested(events);
    ListenerMirrorsStore(map[], events, tables);
    forall ip | ip in s.seen
      ensures MacKey(s.seen[ip]) in s.records && MacMirrored(map[], s, s.seen[ip], accepted[s.seen[ip]])
    {
      var m := s.seen[ip];
      assert HasMac(s.seen, m) && MacMirrored(map[], s, m, accepted[m]);
    }
    forall k | k in s.records
      ensures exists ip :: ip in s.seen && k == MacKey(s.seen[ip])
    {
      assert IsMacKey(k);
      var m: Mac :| k == MacKey(m);
      assert MacMirrored(map[], s, m, accepted[m]);
    }
  }

  lemma EmptyUncontested(events: seq<Event>)
    ensures Valid(map[]) && Uncontested(map[], events)
  {
  }

  // ----- First MAC per address -----

  /** The recorded MAC of every address is the first one announced for it, and every announced address is recorded. */
  ghost predicate FirstAnnounced(events: seq<Event>, seen: map<Ipv4, Mac>)
  {
    && (forall ip :: ip in seen ==> exists i :: AnnouncesFirst(events, i, ip, seen[ip]))
    && (forall i :: 0 <= i < |events| && Announces(events[i]) ==> events[i].ip in seen)
  }

  predicate AnnouncesFirst(events: seq<Event>, i: int, ip: Ipv4, mac: Mac)
  {
    && 0 <= i < |events| && Announces(events[i]) && events[i].ip == ip && events[i].mac == mac
    && forall j :: 0 <= j < i && Announces(events[j]) ==> events[j].ip != ip
  }

  lemma {:induction false} FirstMacWins(loaded: Records, events: seq<Event>, tables: Tables)
    ensures FirstAnnounced(events, Run(loaded, events, tables).seen)
  {
    if events != [] {
      var n := |events| - 1;
      var front, last := events[..n], events[n];
      FirstMacWins(loaded, front, tables);
      var before, after := Run(loaded, front, tables).seen, Run(loaded, events, tables).seen;
      forall ip | ip in after
        ensures exists i :: AnnouncesFirst(events, i, ip, after[ip])
      {
        if ip in before {
          var i :| AnnouncesFirst(front, i, ip, before[ip]);
          assert forall j :: 0 <= j <= i ==> front[j] == events[j];
          assert AnnouncesFirst(events, i, ip, after[ip]);
        } else {
          assert forall j :: 0 <= j < n ==> front[j] == events[j];
          assert AnnouncesFirst(events, n, ip, after[ip]);
        }
      }
      forall i | 0 <= i < |events| && Announces(events[i])
        ensures events[i].ip in after
      {
        if i < n {
          assert front[i] == events[i];
        }
      }
    }
  }

  /**
   * Without raw capture and ARP table every sender is announced under the broadcast MAC; the whole network
   * then shares one record, which lists every address heard.
   */
  lemma BroadcastSharesOneRecord(events: seq<Event>, tables: Tables)
    requires Legal(map[], events, tables)
    requires forall i :: 0 <= i < |events| && events[i].Entry? ==> events[i].mac == BROADCAST
    ensures var s := Run(map[], events, tables);
            && (forall k :: k in s.records ==> k == MacKey(BROADCAST))
            && (forall ip :: ip in s.seen ==>
                  MacKey(BROADCAST) in s.records && IpText(ip) in s.records[MacKey(BROADCAST)].ips)
  {
    hide MacKey, IpText, Run, Legal, Accepted;
    EmptyStartMirrors(events, tables);
    FirstMacWins(map[], events, tables);
    var s := Run(map[], events, tables);
    forall ip | ip in s.seen
      ensures s.seen[ip] == BROADCAST && RecordedFor(s.seen, BROADCAST, IpText(ip))
    {
      var i :| AnnouncesFirst(events, i, ip, s.seen[ip]);
    }
  }
}
