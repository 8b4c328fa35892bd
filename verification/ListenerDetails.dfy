/** What the listener's events teach the registry, beyond addresses: services, vendors, times and counts. */
module ListenerDetails {
  import opened Prelude
  import opened Addresses
  import opened IdentityStore
  import opened StoreLaws
  import opened PassiveListener

  /**
   * Event `i` is about `m`: it is the first to announce its address, and with `m`, or it lists services of an address
   * recorded for `m`. The unspecified address is announced by the broadcast MAC only.
   */
  ghost predicate AboutMac(events: seq<Event>, i: int, m: Mac)
  {
    0 <= i < |events| &&
    var seen, e := TableAfter(events[..i]), events[i];
    if e.Entry? then e.mac == m && e.ip !in seen && (e.ip == 0 ==> e.mac == Mac(0xff, 0xff, 0xff, 0xff, 0xff, 0xff))
    else e.ip in seen && seen[e.ip] == m
  }

  ghost predicate Heard(events: seq<Event>, m: Mac, service: string)
  {
    exists i :: 0 <= i < |events| && AboutMac(events, i, m) && events[i].Service? && service in events[i].services
  }

  ghost predicate SomeAbout(events: seq<Event>, m: Mac)
  {
    exists i :: AboutMac(events, i, m)
  }

  ghost predicate FirstAbout(events: seq<Event>, i: int, m: Mac)
  {
    0 <= i < |events| && AboutMac(events, i, m) && forall j :: 0 <= j < i ==> !AboutMac(events, j, m)
  }

  ghost predicate LastAbout(events: seq<Event>, i: int, m: Mac)
  {
    0 <= i < |events| && AboutMac(events, i, m) && forall j :: i < j < |events| ==> !AboutMac(events, j, m)
  }

  ghost function AboutCount(events: seq<Event>, m: Mac): nat
  {
    if events == [] then 0 else
      AboutCount(events[..|events| - 1], m) + if AboutMac(events, |events| - 1, m) then 1 else 0
  }

  /** The services of `r` are the `earlier` ones, in front, and those heard of `m`. */
  ghost predicate ServicesLearned(r: Record, earlier: seq<string>, events: seq<Event>, m: Mac)
  {
    && earlier <= r.services
    && forall service :: service in r.services <==> service in earlier || Heard(events, m, service)
  }

  /** Everything else `r` says when it was loaded as `was`, or was not loaded at all. */
  ghost predicate DetailsLearned(r: Record, was: Option<Record>, events: seq<Event>, m: Mac, tables: Tables)
  {
    && r.mac == Some(MacText(m))
    && r.seenCount == AboutCount(events, m) + (if was.Some? then was.value.seenCount else 0)
    && (exists i :: LastAbout(events, i, m) && r.lastSeen == events[i].now && r.lastIp == IpText(events[i].ip))
    && r.vendor == (if tables.oui(m).Some? then tables.oui(m) else if was.Some? then was.value.vendor else None)
    && r.hostname == (if was.Some? then was.value.hostname else None)
    && r.osHint == (if was.Some? then was.value.osHint else None)
    && r.category == (if was.Some? then was.value.category else None)
    && r.tag == (if was.Some? then was.value.tag else Some(tables.tagGen(MacKey(m))))
    && (if was.Some? then r.firstSeen == was.value.firstSeen
        else exists i :: FirstAbout(events, i, m) && r.firstSeen == events[i].now)
  }

  function LoadedRecord(loaded: Records, m: Mac): Option<Record>
  {
    if MacKey(m) in loaded then Some(loaded[MacKey(m)]) else None
  }

  ghost predicate Learned(loaded: Records, r: Record, events: seq<Event>, m: Mac, tables: Tables)
  {
    && ServicesLearned(r, if MacKey(m) in loaded then loaded[MacKey(m)].services else [], events, m)
    && DetailsLearned(r, LoadedRecord(loaded, m), events, m, tables)
  }

  lemma AboutFront(events: seq<Event>, m: Mac)
    requires events != []
    ensures var front := events[..|events| - 1];
            forall i :: 0 <= i < |front| ==>
              (AboutMac(events, i, m) <==> AboutMac(front, i, m)) && front[i] == events[i]
  {
    var front := events[..|events| - 1];
    forall i | 0 <= i < |front|
      ensures AboutMac(events, i, m) <==> AboutMac(front, i, m)
    {
      assert front[..i] == events[..i];
    }
  }

  lemma AboutLast(events: seq<Event>, m: Mac, tables: Tables)
    requires events != []
    ensures var n := |events| - 1;
            var reported := Reported(TableAfter(events[..n]), events[n], tables);
            && (AboutMac(events, n, m) <==> reported.Some? && reported.value.mac == Some(m))
            && (AboutMac(events, n, m) ==>
                  reported == Some(Device(events[n].ip, Some(m), tables.oui(m), None, None,
                                          if events[n].Entry? then [] else events[n].services, None)))
  {
  }

  /** The table has a MAC exactly when some event was about it. */
  lemma {:induction false} TableHasAbout(events: seq<Event>, m: Mac)
    ensures HasMac(TableAfter(events), m) <==> SomeAbout(events, m)
  {
    if events != [] {
      var n := |events| - 1;
      var front, last := events[..n], events[n];
      TableHasAbout(front, m);
      AboutFront(events, m);
      var seen, after := TableAfter(front), TableAfter(events);
      if HasMac(seen, m) {
        var ip :| ip in seen && seen[ip] == m;
        assert after[ip] == m;
      }
      if last.Entry? && AboutMac(events, n, m) {
        assert after[last.ip] == m;
      }
      if HasMac(after, m) && !HasMac(seen, m) {
        assert AboutMac(events, n, m);
      }
    }
  }

  /** An event about `m` extends or begins the record of `m`; an event about nobody else changes it. */
  lemma AboutStep(loaded: Records, events: seq<Event>, tables: Tables, m: Mac)
    requires events != [] && Valid(loaded) && Legal(loaded, events, tables) && Uncontested(loaded, events)
    ensures var n := |events| - 1;
            var k, before := MacKey(m), Run(loaded, events[..n], tables).records;
            var after := Run(loaded, events, tables).records;
            if AboutMac(events, n, m) then
              var device := Device(events[n].ip, Some(m), tables.oui(m), None, None,
                                   if events[n].Entry? then [] else events[n].services, None);
              k in after && after[k].mac == Some(MacText(m)) &&
              if k in before then Extends(before[k], after[k], device, events[n].now)
              else Begins(after[k], device, tables.tagGen(k), events[n].now)
            else (k in after <==> k in before) && (k in before ==> after[k] == before[k])
  {
    hide MacKey, MacText, IpText, Uncontested, Valid, Extends, Begins, Sighted, Fresh, LegalStep, AboutMac, Reported,
         TableAfter, LandingOf;
    var n := |events| - 1;
    var front, last := events[..n], events[n];
    var s := Run(loaded, front, tables);
    AboutLast(events, m, tables);
    RunTable(loaded, front, tables);
    var reported := Reported(s.seen, last, tables);
    if reported.Some? {
      ReportsMac(s.seen, last, tables);
      var own := reported.value.mac.value;
      NeverCreditsAnotherMac(loaded, events, tables);
      if own == m {
        var r := if MacKey(m) in s.records then s.records[MacKey(m)]
                 else Fresh(MacKey(m), Some(MacText(m)), reported.value, tables.tagGen, last.now);
        SightedExtends(r, reported.value, last.now);
        FreshBegins(MacKey(m), Some(MacText(m)), reported.value, tables.tagGen, last.now);
        UncontestedFront(loaded, events);
        RecordShowsMac(loaded, front, tables, m);
      } else if MacKey(m) == MacKey(own) {
        MacKeyInjective(m, own);
      }
    } else {
      RefusedStep(s, last, tables);
    }
  }

  lemma ReportsMac(seen: map<Ipv4, Mac>, e: Event, tables: Tables)
    requires Reported(seen, e, tables).Some?
    ensures Reported(seen, e, tables).value.mac.Some?
  {
  }

  lemma RecordShowsMac(loaded: Records, events: seq<Event>, tables: Tables, m: Mac)
    requires Valid(loaded) && Legal(loaded, events, tables) && Uncontested(loaded, events)
    ensures var records := Run(loaded, events, tables).records;
            MacKey(m) in records ==> records[MacKey(m)].mac == Some(MacText(m))
  {
    hide MacKey, MacText, IpText, Uncontested, Valid, Mirrors, Legal, Run, Accepted;
    ListenerMirrorsStore(loaded, events, tables);
    MirroredValid(loaded, Run(loaded, events, tables), Accepted(loaded, events, tables));
    if MacKey(m) in Run(loaded, events, tables).records {
      MacKeyedHasMac(Run(loaded, events, tables).records, m);
    }
  }

  lemma HeardStep(events: seq<Event>, m: Mac)
    requires events != []
    ensures var n := |events| - 1;
            forall service :: Heard(events, m, service) <==>
              Heard(events[..n], m, service)
              || (AboutMac(events, n, m) && events[n].Service? && service in events[n].services)
  {
    hide AboutMac;
    AboutFront(events, m);
    var n := |events| - 1;
    var front := events[..n];
    forall service | Heard(front, m, service)
      ensures Heard(events, m, service)
    {
      var i :| 0 <= i < n && AboutMac(front, i, m) && front[i].Service? && service in front[i].services;
      assert AboutMac(events, i, m);
    }
    forall service | Heard(events, m, service)
      ensures Heard(front, m, service)
              || (AboutMac(events, n, m) && events[n].Service? && service in events[n].services)
    {
      var i :| 0 <= i <= n && AboutMac(events, i, m) && events[i].Service? && service in events[i].services;
      assert i < n ==> AboutMac(front, i, m);
    }
  }

  lemma AboutInside(events: seq<Event>, i: int, m: Mac)
    requires AboutMac(events, i, m)
    ensures 0 <= i < |events|
  {
  }

  lemma ServicesStep(r: Record, after: Record, earlier: seq<string>, events: seq<Event>, m: Mac,
                     device: Device, now: nat)
    requires events != [] && AboutMac(events, |events| - 1, m) && Extends(r, after, device, now)
    requires device.services == if events[|events| - 1].Entry? then [] else events[|events| - 1].services
    requires ServicesLearned(r, earlier, events[..|events| - 1], m)
    ensures ServicesLearned(after, earlier, events, m)
  {
    hide AboutMac, Heard, IpText;
    HeardStep(events, m);
  }

  lemma FirstAboutKept(events: seq<Event>, i: int, m: Mac)
    requires events != [] && FirstAbout(events[..|events| - 1], i, m)
    ensures FirstAbout(events, i, m) && events[i] == events[..|events| - 1][i]
  {
    hide AboutMac;
    AboutFront(events, m);
  }

  lemma LastAboutKept(events: seq<Event>, i: int, m: Mac)
    requires events != [] && !AboutMac(events, |events| - 1, m) && LastAbout(events[..|events| - 1], i, m)
    ensures LastAbout(events, i, m) && events[i] == events[..|events| - 1][i]
  {
    hide AboutMac;
    AboutFront(events, m);
  }

  lemma AboutBounded(events: seq<Event>, m: Mac)
    ensures forall i :: LastAbout(events, i, m) ==> 0 <= i < |events|
    ensures forall i :: FirstAbout(events, i, m) ==> 0 <= i < |events|
  {
  }

  lemma DetailsStep(r: Record, after: Record, was: Option<Record>, events: seq<Event>, m: Mac, tables: Tables,
                    device: Device, now: nat)
    requires events != [] && AboutMac(events, |events| - 1, m) && Extends(r, after, device, now)
    requires device == Device(events[|events| - 1].ip, Some(m), tables.oui(m), None, None, device.services, None)
    requires now == events[|events| - 1].now && after.mac == Some(MacText(m))
    requires DetailsLearned(r, was, events[..|events| - 1], m, tables)
    ensures DetailsLearned(after, was, events, m, tables)
  {
    hide AboutMac, MacKey, MacText, IpText, FirstAbout;
    var n := |events| - 1;
    assert LastAbout(events, n, m);
    if was.None? {
      AboutBounded(events[..n], m);
      var i :| 0 <= i < n && FirstAbout(events[..n], i, m) && r.firstSeen == events[..n][i].now;
      FirstAboutKept(events, i, m);
    }
  }

  /** The first event about `m` in a run. */
  lemma FirstLearned(loaded: Records, events: seq<Event>, m: Mac, tables: Tables, after: Record, device: Device)
    requires events != [] && AboutMac(events, |events| - 1, m) && events[|events| - 1].Entry?
    requires !SomeAbout(events[..|events| - 1], m)
    requires device == Device(events[|events| - 1].ip, Some(m), tables.oui(m), None, None, [], None)
    requires after.mac == Some(MacText(m))
    requires if MacKey(m) in loaded then Extends(loaded[MacKey(m)], after, device, events[|events| - 1].now)
             else Begins(after, device, tables.tagGen(MacKey(m)), events[|events| - 1].now)
    ensures Learned(loaded, after, events, m, tables)
  {
    hide AboutMac, MacKey, MacText, IpText;
    var n := |events| - 1;
    AboutFront(events, m);
    HeardStep(events, m);
    NoneCounted(events[..n], m);
    assert LastAbout(events, n, m) && FirstAbout(events, n, m);
    assert forall service :: !Heard(events[..n], m, service);
  }

  lemma {:induction false} NoneCounted(events: seq<Event>, m: Mac)
    requires !SomeAbout(events, m)
    ensures AboutCount(events, m) == 0
  {
    hide AboutMac;
    if events != [] {
      AboutBefore(events, m);
      NoneCounted(events[..|events| - 1], m);
    }
  }

  lemma UnchangedDetails(r: Record, was: Option<Record>, events: seq<Event>, m: Mac, tables: Tables)
    requires events != [] && !AboutMac(events, |events| - 1, m)
    requires DetailsLearned(r, was, events[..|events| - 1], m, tables)
    ensures DetailsLearned(r, was, events, m, tables)
  {
    hide AboutMac, MacKey, MacText, IpText, LastAbout, FirstAbout;
    var front := events[..|events| - 1];
    AboutBounded(front, m);
    var i :| 0 <= i < |front| && LastAbout(front, i, m)
             && r.lastSeen == front[i].now && r.lastIp == IpText(front[i].ip);
    LastAboutKept(events, i, m);
    if was.None? {
      var j :| 0 <= j < |front| && FirstAbout(front, j, m) && r.firstSeen == front[j].now;
      FirstAboutKept(events, j, m);
    }
  }

  lemma UnchangedLearned(loaded: Records, r: Record, events: seq<Event>, m: Mac, tables: Tables)
    requires events != [] && !AboutMac(events, |events| - 1, m)
    requires Learned(loaded, r, events[..|events| - 1], m, tables)
    ensures Learned(loaded, r, events, m, tables)
  {
    hide AboutMac, Heard, DetailsLearned, MacKey;
    HeardStep(events, m);
    UnchangedDetails(r, LoadedRecord(loaded, m), events, m, tables);
  }

  /**
   * In an uncontested run from any valid loaded registry, the record of every MAC some event was about says exactly
   * what was loaded and what those events told: their services behind the loaded ones, their number, the first and the
   * last of their times, and the vendor of the MAC where the table knows it. A record no event was about is as loaded.
   */
  lemma {:induction false} ListenerLearns(loaded: Records, events: seq<Event>, tables: Tables, m: Mac)
    requires Valid(loaded) && Legal(loaded, events, tables) && Uncontested(loaded, events)
    ensures var records := Run(loaded, events, tables).records;
            if SomeAbout(events, m)
            then MacKey(m) in records && Learned(loaded, records[MacKey(m)], events, m, tables)
            else Untouched(loaded, records, MacKey(m))
  {
    hide MacKey, MacText, IpText, Uncontested, Valid, Extends, Begins, LegalStep, Learned, ServicesLearned,
         DetailsLearned, Step, AboutMac, SomeAbout, TableAfter;
    if events == [] {
      NoneAbout(m);
    } else {
      var n := |events| - 1;
      UncontestedFront(loaded, events);
      ListenerLearns(loaded, events[..n], tables, m);
      AboutStep(loaded, events, tables, m);
      LearnsStep(loaded, events, tables, m);
    }
  }

  lemma NoneAbout(m: Mac)
    ensures !SomeAbout([], m)
  {
  }

  /** One more event, given what the run before it has taught. */
  lemma LearnsStep(loaded: Records, events: seq<Event>, tables: Tables, m: Mac)
    requires events != [] && Valid(loaded) && Legal(loaded, events, tables) && Uncontested(loaded, events)
    requires var front := events[..|events| - 1];
             var records := Run(loaded, front, tables).records;
             if SomeAbout(front, m)
             then MacKey(m) in records && Learned(loaded, records[MacKey(m)], front, m, tables)
             else Untouched(loaded, records, MacKey(m))
    ensures var records := Run(loaded, events, tables).records;
            if SomeAbout(events, m)
            then MacKey(m) in records && Learned(loaded, records[MacKey(m)], events, m, tables)
            else Untouched(loaded, records, MacKey(m))
  {
    hide MacKey, MacText, IpText, Uncontested, Valid, Extends, Begins, Legal, Run, ServicesLearned, DetailsLearned,
         AboutMac, TableAfter;
    var n, k := |events| - 1, MacKey(m);
    var front := events[..n];
    var before, after := Run(loaded, front, tables).records, Run(loaded, events, tables).records;
    AboutStep(loaded, events, tables, m);
    AboutBefore(events, m);
    if AboutMac(events, n, m) {
      var device := Device(events[n].ip, Some(m), tables.oui(m), None, None,
                           if events[n].Entry? then [] else events[n].services, None);
      if SomeAbout(front, m) {
        ServicesStep(before[k], after[k], if k in loaded then loaded[k].services else [], events, m,
                     device, events[n].now);
        DetailsStep(before[k], after[k], LoadedRecord(loaded, m), events, m, tables, device, events[n].now);
      } else {
        FirstIsEntry(events, m);
        FirstLearned(loaded, events, m, tables, after[k], device);
      }
    } else if SomeAbout(front, m) {
      UnchangedLearned(loaded, before[k], events, m, tables);
    }
  }

  lemma AboutBefore(events: seq<Event>, m: Mac)
    requires events != []
    ensures SomeAbout(events, m) <==>
            SomeAbout(events[..|events| - 1], m) || AboutMac(events, |events| - 1, m)
  {
    hide AboutMac;
    AboutFront(events, m);
    var front := events[..|events| - 1];
    if i :| AboutMac(front, i, m) {
      AboutInside(front, i, m);
      assert AboutMac(events, i, m);
    }
    if i :| AboutMac(events, i, m) {
      AboutInside(events, i, m);
      assert i < |front| ==> AboutMac(front, i, m);
    }
  }

  lemma FirstIsEntry(events: seq<Event>, m: Mac)
    requires events != [] && AboutMac(events, |events| - 1, m)
    requires !SomeAbout(events[..|events| - 1], m)
    ensures events[|events| - 1].Entry?
  {
    TableHasAbout(events[..|events| - 1], m);
  }
}
