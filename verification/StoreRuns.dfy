/** What the registry keeps over whole runs that start empty. */
module StoreRuns {
  import opened Prelude
  import opened Addresses
  import opened IdentityStore
  import opened StoreLaws

  /** One call on the registry; a sighting also records which holder the search happened to return. */
  datatype Op =
    | Sight(device: Device, now: nat, found: Option<string>)
    | Retag(mac: Option<Mac>, ip: Ipv4, tag: string)

  function Apply(records: Records, op: Op, tagGen: string -> string): Records
  {
    match op
    case Sight(device, now, found) => Upserted(records, device, tagGen, now, found)
    case Retag(mac, ip, tag) => Retagged(records, mac, ip, tag)
  }

  function Run(ops: seq<Op>, tagGen: string -> string): Records
  {
    if ops == [] then map[] else Apply(Run(ops[..|ops| - 1], tagGen), ops[|ops| - 1], tagGen)
  }

  /** Every search answer in the run was possible when it was given. */
  ghost predicate Legal(ops: seq<Op>, tagGen: string -> string)
  {
    ops == [] ||
    (var front, last := ops[..|ops| - 1], ops[|ops| - 1];
     Legal(front, tagGen) && (last.Sight? ==> Findable(Run(front, tagGen), last.device, last.found)))
  }

  /** Every reachable registry keeps the representation invariant. */
  lemma {:induction false} ReachableValid(ops: seq<Op>, tagGen: string -> string)
    requires Legal(ops, tagGen)
    ensures Valid(Run(ops, tagGen))
  {
    if ops != [] {
      var front, last := ops[..|ops| - 1], ops[|ops| - 1];
      ReachableValid(front, tagGen);
      match last {
        case Sight(device, now, found) => UpsertKeepsValid(Run(front, tagGen), device, tagGen, now, found);
        case Retag(mac, ip, tag) => RetagKeepsValid(Run(front, tagGen), mac, ip, tag);
      }
    }
  }

  // ----- Conservation of sightings -----

  ghost function Total(records: Records): nat
    decreases |records|
  {
    if records == map[] then 0 else
      var k :| k in records;
      assert |records - {k}| < |records| by { Shrinks(records, k); }
      records[k].seenCount + Total(records - {k})
  }

  lemma Shrinks(records: Records, k: string)
    requires k in records
    ensures |records - {k}| < |records|
  {
    assert (records - {k}).Keys == records.Keys - {k};
  }

  /** The total does not depend on the order in which records are counted. */
  lemma {:induction false} TotalWithout(records: Records, k: string)
    requires k in records
    ensures Total(records) == records[k].seenCount + Total(records - {k})
    decreases |records|
  {
    var c :| c in records && Total(records) == records[c].seenCount + Total(records - {c});
    if c != k {
      Shrinks(records, c);
      Shrinks(records, k);
      TotalWithout(records - {c}, k);
      TotalWithout(records - {k}, c);
      assert records - {c} - {k} == records - {k} - {c};
    }
  }

  lemma TotalWritten(records: Records, k: string, r: Record)
    ensures Total(records[k := r]) == r.seenCount + Total(records) - (if k in records then records[k].seenCount else 0)
  {
    var written := records[k := r];
    TotalWithout(written, k);
    if k in records {
      TotalWithout(records, k);
      assert written - {k} == records - {k};
    } else {
      assert written - {k} == records;
    }
  }

  /** Sightings forgotten by an operation: those of a record overwritten by a promotion onto its key. */
  function Forgotten(records: Records, op: Op): nat
  {
    if op.Sight? then
      var landing := LandingOf(records, op.device, op.found);
      if landing.Promote? && landing.to in records then records[landing.to].seenCount else 0
    else 0
  }

  function ForgottenIn(ops: seq<Op>, tagGen: string -> string): nat
  {
    if ops == [] then 0 else
      var front := ops[..|ops| - 1];
      ForgottenIn(front, tagGen) + Forgotten(Run(front, tagGen), ops[|ops| - 1])
  }

  function Sightings(ops: seq<Op>): nat
  {
    if ops == [] then 0 else Sightings(ops[..|ops| - 1]) + if ops[|ops| - 1].Sight? then 1 else 0
  }

  lemma SettleTotal(records: Records, device: Device, tagGen: string -> string, now: nat, found: Option<string>)
    requires Valid(records) && Findable(records, device, found)
    ensures Total(Upserted(records, device, tagGen, now, found)) + Forgotten(records, Sight(device, now, found))
         == Total(records) + 1
  {
    hide MacKey, IpText, MacText, Merge;
    LandingSound(records, device, found);
    match LandingOf(records, device, found) {
      case Own(key, mac) =>
        var r := if key in records then records[key] else Fresh(key, mac, device, tagGen, now);
        TotalWritten(records, key, Sighted(r, device, now));
      case Promote(from, to, macText) =>
        KeysDisjoint(device.mac.value, device.ip);
        TotalWithout(records, from);
        TotalWritten(records - {from}, to, Sighted(records[from], device, now).(mac := Some(macText), key := to));
      case Divert(holder) =>
        assert WellKept(holder, records[holder]);
        TotalWithout(records, holder);
        TotalWritten(records - {holder}, holder, Sighted(records[holder], device, now));
    }
  }

  lemma RetagTotal(records: Records, mac: Option<Mac>, ip: Ipv4, tag: string)
    ensures Total(Retagged(records, mac, ip, tag)) == Total(records)
  {
    hide Total, IpText, MacKey;
    var key := LookupKey(records, mac, ip);
    if key in records {
      TotalWritten(records, key, records[key].(tag := Some(tag)));
    }
  }

  /** One call: a sighting adds one to the total and takes away what it forgets, a retag changes nothing. */
  lemma CallTotal(records: Records, op: Op, tagGen: string -> string)
    requires Valid(records) && (op.Sight? ==> Findable(records, op.device, op.found))
    ensures Total(Apply(records, op, tagGen)) + Forgotten(records, op) == Total(records) + if op.Sight? then 1 else 0
  {
    hide Total, Upserted, Retagged, Valid, Findable;
    match op {
      case Sight(device, now, found) => SettleTotal(records, device, tagGen, now, found);
      case Retag(mac, ip, tag) => RetagTotal(records, mac, ip, tag);
    }
  }

  lemma EmptyTotal()
    ensures Total(map[]) == 0
  {
  }

  /**
   * Over any run, the counts of the live records plus the counts overwritten by promotions add up to
   * the number of sightings: none is counted twice and none is lost in any other way.
   */
  lemma {:induction false} SightingsConserved(ops: seq<Op>, tagGen: string -> string)
    requires Legal(ops, tagGen)
    ensures Total(Run(ops, tagGen)) + ForgottenIn(ops, tagGen) == Sightings(ops)
  {
    hide Total, Apply, Forgotten, Valid, Findable;
    if ops == [] {
      EmptyTotal();
    } else {
      var front, last := ops[..|ops| - 1], ops[|ops| - 1];
      SightingsConserved(front, tagGen);
      ReachableValid(front, tagGen);
      CallTotal(Run(front, tagGen), last, tagGen);
    }
  }

  /** No count exceeds the number of sightings, so 32-bit counters are exact for runs shorter than 2^32. */
  lemma CountersFit(ops: seq<Op>, tagGen: string -> string, k: string)
    requires Legal(ops, tagGen) && k in Run(ops, tagGen)
    ensures 1 <= Run(ops, tagGen)[k].seenCount <= Sightings(ops)
  {
    SightingsConserved(ops, tagGen);
    ReachableValid(ops, tagGen);
    assert WellKept(k, Run(ops, tagGen)[k]);
    TotalWithout(Run(ops, tagGen), k);
  }

  // ----- When a sighting is forgotten -----

  /** The device has a record of its own while its address still has a record without a MAC. */
  predicate TwiceRecorded(records: Records, device: Device)
  {
    device.mac.Some? && MacKey(device.mac.value) in records && IpText(device.ip) in records
  }

  /** The sighting of such a device is answered by the record without a MAC. */
  predicate Overwrites(records: Records, op: Op)
  {
    op.Sight? && TwiceRecorded(records, op.device) && op.found == Some(IpText(op.device.ip))
  }

  /**
   * A sighting forgets earlier ones exactly when it overwrites: the whole count of the device's own record goes,
   * and its tag gives way to that of the record without a MAC.
   */
  lemma ForgottenExactly(records: Records, device: Device, tagGen: string -> string, now: nat, found: Option<string>)
    requires Valid(records) && Findable(records, device, found)
    ensures var op := Sight(device, now, found);
            && (Forgotten(records, op) > 0 <==> Overwrites(records, op))
            && (Overwrites(records, op) ==>
                  var key, after := MacKey(device.mac.value), Upserted(records, device, tagGen, now, found);
                  && Forgotten(records, op) == records[key].seenCount
                  && key in after && after[key].tag == records[IpText(device.ip)].tag
                  && after[key].seenCount == records[IpText(device.ip)].seenCount + 1)
  {
    hide MacKey, IpText, MacText, Merge;
    LandingSound(records, device, found);
    if TwiceRecorded(records, device) {
      assert WellKept(MacKey(device.mac.value), records[MacKey(device.mac.value)]);
      IpKeyedHasNoMac(records, device.ip);
    }
  }

  /** No search order makes a sighting forget earlier ones if and only if the device is not recorded twice. */
  lemma NeverForgetsExactly(records: Records, device: Device)
    requires Valid(records)
    ensures (forall found :: Findable(records, device, found) ==> Forgotten(records, Sight(device, 0, found)) == 0)
            <==> !TwiceRecorded(records, device)
  {
    hide MacKey, IpText, MacText, Merge;
    if TwiceRecorded(records, device) {
      var ip := IpText(device.ip);
      IpKeyedHasNoMac(records, device.ip);
      KeysDisjoint(device.mac.value, device.ip);
      HolderFindable(records, device, ip);
      ForgottenExactly(records, device, s => s, 0, Some(ip));
    } else {
      forall found | Findable(records, device, found)
        ensures Forgotten(records, Sight(device, 0, found)) == 0
      {
        ForgottenExactly(records, device, s => s, 0, found);
      }
    }
  }

  /** The live counts of a run account for every sighting if and only if no sighting of it overwrites. */
  lemma {:induction false} AllCountedExactly(ops: seq<Op>, tagGen: string -> string)
    requires Legal(ops, tagGen)
    ensures Total(Run(ops, tagGen)) == Sightings(ops)
            <==> forall i :: 0 <= i < |ops| ==> !Overwrites(Run(ops[..i], tagGen), ops[i])
  {
    SightingsConserved(ops, tagGen);
    NothingForgottenExactly(ops, tagGen);
  }

  lemma {:induction false} NothingForgottenExactly(ops: seq<Op>, tagGen: string -> string)
    requires Legal(ops, tagGen)
    ensures ForgottenIn(ops, tagGen) == 0
            <==> forall i :: 0 <= i < |ops| ==> !Overwrites(Run(ops[..i], tagGen), ops[i])
  {
    hide Overwrites, Forgotten, Run, Findable;
    if ops != [] {
      var n := |ops| - 1;
      var front, last := ops[..n], ops[n];
      NothingForgottenExactly(front, tagGen);
      LastForgets(front, last, tagGen);
      assert forall i :: 0 <= i < n ==> front[..i] == ops[..i];
    }
  }

  lemma LastForgets(front: seq<Op>, last: Op, tagGen: string -> string)
    requires Legal(front, tagGen) && (last.Sight? ==> Findable(Run(front, tagGen), last.device, last.found))
    ensures Forgotten(Run(front, tagGen), last) == 0 <==> !Overwrites(Run(front, tagGen), last)
  {
    if last.Sight? {
      ReachableValid(front, tagGen);
      ForgottenExactly(Run(front, tagGen), last.device, tagGen, last.now, last.found);
    }
  }

  /** A device about which nothing but its addresses is known. */
  function Bare(ip: Ipv4, mac: Option<Mac>): Device
  {
    Device(ip, mac, None, None, None, [], None)
  }

  /** After the device has been seen by its address alone as well. */
  ghost predicate BothRecorded(records: Records, own: Record, m: Mac, ip: Ipv4, tag: string)
  {
    && records.Keys == {MacKey(m), IpText(ip)} && records[MacKey(m)] == own && own.seenCount == 1
    && records[IpText(ip)].key == IpText(ip) && records[IpText(ip)].lastIp == IpText(ip)
    && records[IpText(ip)].mac.None? && records[IpText(ip)].tag == Some(tag)
  }

  lemma AddressRegistered(records: Records, m: Mac, ip: Ipv4, tagGen: string -> string)
    requires OnlyHolder(records, m, ip, 1)
    ensures Findable(records, Bare(ip, None), None)
    ensures BothRecorded(Upserted(records, Bare(ip, None), tagGen, 0, None), records[MacKey(m)], m, ip,
                         tagGen(IpText(ip)))
  {
    hide MacKey, IpText, MacText, Merge;
    KeysDisjoint(m, ip);
  }

  lemma PromotedOver(records: Records, own: Record, m: Mac, ip: Ipv4, tag: string, tagGen: string -> string)
    requires BothRecorded(records, own, m, ip, tag)
    ensures Findable(records, Bare(ip, Some(m)), Some(IpText(ip)))
    ensures Forgotten(records, Sight(Bare(ip, Some(m)), 0, Some(IpText(ip)))) == 1
    ensures var after := Upserted(records, Bare(ip, Some(m)), tagGen, 0, Some(IpText(ip)));
            after.Keys == {MacKey(m)} && after[MacKey(m)].tag == Some(tag)
  {
    hide MacKey, IpText, MacText, Merge;
    KeysDisjoint(m, ip);
    assert HoldsIp(records, IpText(ip), IpText(ip), MacKey(m));
  }

  lemma NothingForgottenFirst(m: Mac, ip: Ipv4, records: Records)
    ensures Forgotten(map[], Sight(Bare(ip, Some(m)), 0, None)) == 0
    ensures Forgotten(records, Sight(Bare(ip, None), 0, None)) == 0
  {
    hide MacKey, IpText, MacText;
  }

  /** It does happen: a device first seen by MAC, then by address only, then by MAC again. */
  lemma PromotionForgets(m: Mac, ip: Ipv4, tagGen: string -> string) returns (ops: seq<Op>)
    ensures Legal(ops, tagGen) && Sightings(ops) == 3 && ForgottenIn(ops, tagGen) == 1
    ensures Run(ops, tagGen).Keys == {MacKey(m)} && Run(ops, tagGen)[MacKey(m)].tag == Some(tagGen(IpText(ip)))
    ensures Run(ops[..1], tagGen).Keys == {MacKey(m)} && Run(ops[..1], tagGen)[MacKey(m)].tag == Some(tagGen(MacKey(m)))
  {
    hide MacKey, IpText, Upserted, Findable, Forgotten;
    var d, bare := Bare(ip, Some(m)), Bare(ip, None);
    ops := [Sight(d, 0, None), Sight(bare, 0, None), Sight(d, 0, Some(IpText(ip)))];
    var o1, o2 := ops[..1], ops[..2];
    assert o1[..0] == [] && o2[..1] == o1;
    assert Run([], tagGen) == map[] && Legal([], tagGen) && ForgottenIn([], tagGen) == 0 && Sightings([]) == 0;
    FirstRegistered(m, ip, tagGen);
    var r1, r2 := Run(o1, tagGen), Run(o2, tagGen);
    NothingForgottenFirst(m, ip, r1);
    AddressRegistered(r1, m, ip, tagGen);
    assert Legal(o1, tagGen) && ForgottenIn(o1, tagGen) == 0 && Sightings(o1) == 1;
    assert Legal(o2, tagGen) && ForgottenIn(o2, tagGen) == 0 && Sightings(o2) == 2;
    PromotedOver(r2, r1[MacKey(m)], m, ip, tagGen(IpText(ip)), tagGen);
  }

  // ----- Runs in which every sighting carries a MAC -----

  predicate MacOnly(ops: seq<Op>)
  {
    forall i :: 0 <= i < |ops| && ops[i].Sight? ==> ops[i].device.mac.Some?
  }

  /** Every record has a MAC and no two claim the same current address. */
  ghost predicate OneOwnerPerIp(records: Records)
  {
    && (forall k :: k in records ==> records[k].mac.Some?)
    && (forall k, l :: k in records && l in records && records[k].lastIp == records[l].lastIp ==> k == l)
  }

  lemma MacSightKeepsOneOwner(records: Records, device: Device, tagGen: string -> string,
                              now: nat, found: Option<string>)
    requires Valid(records) && OneOwnerPerIp(records) && device.mac.Some? && Findable(records, device, found)
    ensures OneOwnerPerIp(Upserted(records, device, tagGen, now, found))
  {
    hide MacKey, IpText, MacText, Merge, Valid;
    LandingSound(records, device, found);
    var landing := LandingOf(records, device, found);
    SettleFrame(records, landing, device, tagGen, now);
    ResultHasMac(records, landing, device, tagGen, now);
    forall k | k in records && k != ResultKey(records, landing)
      ensures records[k].lastIp != IpText(device.ip)
    {
      NoThirdParty(records, landing, device, k);
    }
  }

  /** With one owner per address, nobody but the record credited has the device's address. */
  lemma NoThirdParty(records: Records, landing: Landing, device: Device, k: string)
    requires Valid(records) && OneOwnerPerIp(records) && device.mac.Some? && Sound(records, device, landing)
    requires Present(records, landing) && k in records && k != ResultKey(records, landing)
    ensures records[k].lastIp != IpText(device.ip)
  {
    hide MacKey, IpText, MacText;
    assert WellKept(k, records[k]);
    if landing.Own? {
      assert !HoldsIp(records, k, IpText(device.ip), landing.key);
    } else {
      assert landing.Divert? && WellKept(landing.holder, records[landing.holder]);
    }
  }

  lemma ResultHasMac(records: Records, landing: Landing, device: Device, tagGen: string -> string, now: nat)
    requires Valid(records) && OneOwnerPerIp(records) && device.mac.Some? && Sound(records, device, landing)
    requires Present(records, landing)
    ensures var after, key := Settled(records, landing, device, tagGen, now), ResultKey(records, landing);
            && !landing.Promote? && key in after && after[key].mac.Some? && after[key].lastIp == IpText(device.ip)
  {
    hide MacKey, IpText, MacText, Merge, Valid;
  }

  lemma MacSightKeepsRecords(records: Records, device: Device, tagGen: string -> string,
                             now: nat, found: Option<string>)
    requires Valid(records) && OneOwnerPerIp(records) && device.mac.Some? && Findable(records, device, found)
    ensures var after := Upserted(records, device, tagGen, now, found);
            forall k :: k in records ==> k in after && Continues(records[k], after[k])
  {
    hide MacKey, IpText, MacText, Merge, Valid, Continues;
    LandingSound(records, device, found);
    HistoryGrows(records, device, tagGen, now, LandingOf(records, device, found));
  }

  lemma {:induction false} MacOnlyOneOwner(ops: seq<Op>, tagGen: string -> string)
    requires Legal(ops, tagGen) && MacOnly(ops)
    ensures OneOwnerPerIp(Run(ops, tagGen))
  {
    if ops != [] {
      var front, last := ops[..|ops| - 1], ops[|ops| - 1];
      MacOnlyOneOwner(front, tagGen);
      if last.Sight? {
        ReachableValid(front, tagGen);
        MacSightKeepsOneOwner(Run(front, tagGen), last.device, tagGen, last.now, last.found);
      }
    }
  }

  /** With one owner per address the search has a single possible answer. */
  lemma SearchDetermined(records: Records, device: Device, a: Option<string>, b: Option<string>)
    requires Valid(records) && OneOwnerPerIp(records)
    requires Findable(records, device, a) && Findable(records, device, b)
    ensures a == b
  {
    if a.Some? {
      assert WellKept(a.value, records[a.value]);
    }
    if b.Some? {
      assert WellKept(b.value, records[b.value]);
    }
  }

  /** The same calls, whatever the searches returned. */
  predicate SameCalls(a: seq<Op>, b: seq<Op>)
  {
    |a| == |b| && forall i :: 0 <= i < |a| ==>
      a[i] == b[i] || (a[i].Sight? && b[i].Sight? && a[i].device == b[i].device && a[i].now == b[i].now)
  }

  lemma SameFront(a: seq<Op>, b: seq<Op>, n: nat)
    requires MacOnly(a) && SameCalls(a, b) && |a| == n + 1
    ensures MacOnly(a[..n]) && SameCalls(a[..n], b[..n])
    ensures a[n] == b[n] || (a[n].Sight? && b[n].Sight? && a[n].device == b[n].device && a[n].now == b[n].now)
    ensures a == a[..n] + [a[n]] && b == b[..n] + [b[n]]
  {
  }

  /** The same call on the same front is answered the same. */
  lemma LastDetermined(front: seq<Op>, a: Op, b: Op, tagGen: string -> string)
    requires Legal(front, tagGen) && MacOnly(front) && a.Sight? && b.Sight? && a.device == b.device && a.now == b.now
    requires Findable(Run(front, tagGen), a.device, a.found) && Findable(Run(front, tagGen), b.device, b.found)
    ensures a == b
  {
    hide Run, Legal, MacOnly, Findable, Valid, OneOwnerPerIp;
    ReachableValid(front, tagGen);
    MacOnlyOneOwner(front, tagGen);
    SearchDetermined(Run(front, tagGen), a.device, a.found, b.found);
  }

  /** The outcome of a MAC-only run does not depend on the order in which the map is searched. */
  lemma {:induction false} MacOnlyDeterministic(a: seq<Op>, b: seq<Op>, tagGen: string -> string)
    requires Legal(a, tagGen) && Legal(b, tagGen) && MacOnly(a) && SameCalls(a, b)
    ensures a == b && Run(a, tagGen) == Run(b, tagGen)
  {
    hide MacOnly, Findable, Apply, Run;
    if a != [] {
      var n := |a| - 1;
      SameFront(a, b, n);
      MacOnlyDeterministic(a[..n], b[..n], tagGen);
      if a[n].Sight? {
        LastDetermined(a[..n], a[n], b[n], tagGen);
      }
    }
  }

  /** No call in the run retags. */
  predicate SightsOnly(ops: seq<Op>)
  {
    forall i :: 0 <= i < |ops| ==> ops[i].Sight?
  }

  lemma SightsAppend(front: seq<Op>, last: Op)
    ensures SightsOnly(front + [last]) <==> SightsOnly(front) && last.Sight?
  {
    assert forall i :: 0 <= i < |front| ==> (front + [last])[i] == front[i];
    assert (front + [last])[|front|] == last;
  }

  /** `after` continues `before`, except that it may have been retagged. */
  predicate ContinuesButTag(before: Record, after: Record)
  {
    Continues(before.(tag := after.tag), after)
  }

  /** One call of a MAC-only run loses no record, and only a retag changes a tag. */
  lemma MacOnlyStepKeeps(front: seq<Op>, last: Op, tagGen: string -> string, k: string)
    requires Legal(front, tagGen) && MacOnly(front) && (last.Sight? ==> last.device.mac.Some?)
    requires last.Sight? ==> Findable(Run(front, tagGen), last.device, last.found)
    requires k in Run(front, tagGen)
    ensures var records := Run(front, tagGen);
            var after := Apply(records, last, tagGen);
            k in after && ContinuesButTag(records[k], after[k]) && (last.Sight? ==> Continues(records[k], after[k]))
  {
    hide MacKey, IpText, MacText, Merge, Run, Legal, MacOnly;
    if last.Sight? {
      ReachableValid(front, tagGen);
      MacOnlyOneOwner(front, tagGen);
      MacSightKeepsRecords(Run(front, tagGen), last.device, tagGen, last.now, last.found);
    }
  }

  /**
   * MAC-only runs are lossless: from any point on, every record stays under its key and only gains history,
   * its tag included unless a later call retags.
   */
  lemma {:induction false} MacOnlyLossless(ops: seq<Op>, n: nat, tagGen: string -> string, k: string)
    requires Legal(ops, tagGen) && MacOnly(ops) && n <= |ops|
    requires k in Run(ops[..n], tagGen)
    ensures var before, after := Run(ops[..n], tagGen), Run(ops, tagGen);
            && k in after && ContinuesButTag(before[k], after[k])
            && (SightsOnly(ops[n..]) ==> Continues(before[k], after[k]))
  {
    hide MacKey, IpText, MacText, Merge, Apply, SightsOnly, Findable;
    if n == |ops| {
      assert ops[..n] == ops;
    } else {
      var front, last := ops[..|ops| - 1], ops[|ops| - 1];
      assert front[..n] == ops[..n] && ops[n..] == front[n..] + [last];
      MacOnlyLossless(front, n, tagGen, k);
      MacOnlyStepKeeps(front, last, tagGen, k);
      SightsAppend(front[n..], last);
    }
  }

  /** Nothing is forgotten in a MAC-only run: the live counts account for every sighting. */
  lemma {:induction false} MacOnlyCountsEverything(ops: seq<Op>, tagGen: string -> string)
    requires Legal(ops, tagGen) && MacOnly(ops)
    ensures Total(Run(ops, tagGen)) == Sightings(ops)
  {
    SightingsConserved(ops, tagGen);
    NothingForgotten(ops, tagGen);
  }

  lemma {:induction false} NothingForgotten(ops: seq<Op>, tagGen: string -> string)
    requires Legal(ops, tagGen) && MacOnly(ops)
    ensures ForgottenIn(ops, tagGen) == 0
  {
    if ops != [] {
      var front, last := ops[..|ops| - 1], ops[|ops| - 1];
      NothingForgotten(front, tagGen);
      ReachableValid(front, tagGen);
      MacOnlyOneOwner(front, tagGen);
      if last.Sight? {
        LandingSound(Run(front, tagGen), last.device, last.found);
      }
    }
  }

  /** After a MAC-only run nothing can be tagged by address alone. */
  lemma MacOnlyCannotTagByAddress(ops: seq<Op>, tagGen: string -> string, ip: Ipv4, tag: string)
    requires Legal(ops, tagGen) && MacOnly(ops)
    ensures Retagged(Run(ops, tagGen), None, ip, tag) == Run(ops, tagGen)
    ensures LookupKey(Run(ops, tagGen), None, ip) !in Run(ops, tagGen)
  {
    ReachableValid(ops, tagGen);
    MacOnlyOneOwner(ops, tagGen);
    TagByAddressExactly(Run(ops, tagGen), ip);
  }

  // ----- Where MAC-only runs fall short -----

  /** Device `a` is seen at `ip`; then `n` times device `b` is, having taken the address over. */
  function TakenOver(a: Mac, b: Mac, ip: Ipv4, n: nat): seq<Op>
  {
    if n == 0 then [Sight(Bare(ip, Some(a)), 0, None)]
    else TakenOver(a, b, ip, n - 1) + [Sight(Bare(ip, Some(b)), 0, Some(MacKey(a)))]
  }

  /** The registry holds a single record, that of `a`, and it claims `ip`. */
  ghost predicate OnlyHolder(records: Records, a: Mac, ip: Ipv4, count: nat)
  {
    && records.Keys == {MacKey(a)} && records[MacKey(a)].seenCount == count
    && records[MacKey(a)].key == MacKey(a) && records[MacKey(a)].lastIp == IpText(ip) && records[MacKey(a)].mac.Some?
  }

  lemma TakeoverAbsorbed(records: Records, a: Mac, b: Mac, ip: Ipv4, count: nat, tagGen: string -> string)
    requires OnlyHolder(records, a, ip, count) && a != b
    ensures Findable(records, Bare(ip, Some(b)), Some(MacKey(a)))
    ensures OnlyHolder(Upserted(records, Bare(ip, Some(b)), tagGen, 0, Some(MacKey(a))), a, ip, count + 1)
  {
    hide MacKey, IpText, MacText, Merge;
    if MacKey(a) == MacKey(b) {
      MacKeyInjective(a, b);
    }
    assert HoldsIp(records, MacKey(a), IpText(ip), MacKey(b));
  }

  lemma FirstRegistered(a: Mac, ip: Ipv4, tagGen: string -> string)
    ensures OnlyHolder(Upserted(map[], Bare(ip, Some(a)), tagGen, 0, None), a, ip, 1)
    ensures Findable(map[], Bare(ip, Some(a)), None)
    ensures Upserted(map[], Bare(ip, Some(a)), tagGen, 0, None)[MacKey(a)].tag == Some(tagGen(MacKey(a)))
  {
    hide MacKey, IpText, MacText, Merge;
  }

  lemma NoCalls()
    ensures MacOnly([]) && Sightings([]) == 0
  {
  }

  lemma CallsAppend(front: seq<Op>, last: Op)
    requires MacOnly(front) && last.Sight? && last.device.mac.Some?
    ensures MacOnly(front + [last]) && Sightings(front + [last]) == Sightings(front) + 1
  {
    assert (front + [last])[..|front|] == front;
  }

  lemma {:induction false} TakenOverCalls(a: Mac, b: Mac, ip: Ipv4, n: nat)
    ensures var ops := TakenOver(a, b, ip, n);
            MacOnly(ops) && Sightings(ops) == n + 1
  {
    hide MacKey, IpText, MacOnly;
    var ops := TakenOver(a, b, ip, n);
    if n == 0 {
      assert [] + [ops[0]] == ops;
      NoCalls();
      CallsAppend([], ops[0]);
    } else {
      var front, last := TakenOver(a, b, ip, n - 1), Sight(Bare(ip, Some(b)), 0, Some(MacKey(a)));
      TakenOverCalls(a, b, ip, n - 1);
      CallsAppend(front, last);
    }
  }

  lemma {:induction false} TakenOverRun(a: Mac, b: Mac, ip: Ipv4, n: nat, tagGen: string -> string)
    requires a != b
    ensures Legal(TakenOver(a, b, ip, n), tagGen) && OnlyHolder(Run(TakenOver(a, b, ip, n), tagGen), a, ip, n + 1)
  {
    hide MacKey, IpText, MacText, Merge, Upserted, Findable, OnlyHolder;
    var ops := TakenOver(a, b, ip, n);
    if n == 0 {
      FirstRegistered(a, ip, tagGen);
      assert ops[..0] == [] && Run([], tagGen) == map[] && Legal([], tagGen);
    } else {
      var front := TakenOver(a, b, ip, n - 1);
      assert ops[..|ops| - 1] == front;
      TakenOverRun(a, b, ip, n - 1, tagGen);
      TakeoverAbsorbed(Run(front, tagGen), a, b, ip, n, tagGen);
    }
  }

  /** A device that takes over another's address is never registered: all its sightings count for the other one. */
  lemma TakenOverCredited(a: Mac, b: Mac, ip: Ipv4, n: nat, tagGen: string -> string)
    requires a != b
    ensures var ops := TakenOver(a, b, ip, n);
            && Legal(ops, tagGen) && MacOnly(ops) && Sightings(ops) == n + 1
            && Run(ops, tagGen).Keys == {MacKey(a)} && Run(ops, tagGen)[MacKey(a)].seenCount == n + 1
            && LookupKey(Run(ops, tagGen), Some(b), ip) !in Run(ops, tagGen)
  {
    hide MacKey, IpText, Run, Legal, MacOnly, Sightings, TakenOver;
    TakenOverCalls(a, b, ip, n);
    TakenOverRun(a, b, ip, n, tagGen);
    KeysDisjoint(a, ip);
    if MacKey(a) == MacKey(b) {
      MacKeyInjective(a, b);
    }
  }

  /** Device `a` is seen at `p` and `b` at `q`; then `a` is seen at `q`. */
  function MovedOnto(a: Mac, b: Mac, p: Ipv4, q: Ipv4): seq<Op>
  {
    [Sight(Bare(p, Some(a)), 0, None), Sight(Bare(q, Some(b)), 0, None), Sight(Bare(q, Some(a)), 0, Some(MacKey(b)))]
  }

  /** The registry holds the record `own` of `a`, and a record of `b`, seen `count` times and claiming `q`. */
  ghost predicate TwoHolders(records: Records, own: Record, a: Mac, b: Mac, q: Ipv4, count: nat)
  {
    && records.Keys == {MacKey(a), MacKey(b)} && records[MacKey(a)] == own
    && records[MacKey(b)].key == MacKey(b) && records[MacKey(b)].lastIp == IpText(q)
    && records[MacKey(b)].mac.Some? && records[MacKey(b)].seenCount == count
  }

  lemma SecondRegistered(records: Records, a: Mac, b: Mac, p: Ipv4, q: Ipv4, tagGen: string -> string)
    requires OnlyHolder(records, a, p, 1) && a != b && p != q
    ensures Findable(records, Bare(q, Some(b)), None)
    ensures TwoHolders(Upserted(records, Bare(q, Some(b)), tagGen, 0, None), records[MacKey(a)], a, b, q, 1)
  {
    hide MacKey, IpText, MacText, Merge;
    if MacKey(a) == MacKey(b) {
      MacKeyInjective(a, b);
    }
    if IpText(p) == IpText(q) {
      IpTextInjective(p, q);
    }
    KeysDisjoint(a, q);
    KeysDisjoint(b, q);
  }

  lemma MoveAbsorbed(records: Records, own: Record, a: Mac, b: Mac, q: Ipv4, tagGen: string -> string)
    requires TwoHolders(records, own, a, b, q, 1) && a != b
    ensures Findable(records, Bare(q, Some(a)), Some(MacKey(b)))
    ensures TwoHolders(Upserted(records, Bare(q, Some(a)), tagGen, 0, Some(MacKey(b))), own, a, b, q, 2)
  {
    hide MacKey, IpText, MacText, Merge;
    if MacKey(a) == MacKey(b) {
      MacKeyInjective(a, b);
    }
    assert HoldsIp(records, MacKey(b), IpText(q), MacKey(a));
  }

  /** A known device that moves to an address another one holds is not followed: its record still shows the old one. */
  lemma MovedOntoNotFollowed(a: Mac, b: Mac, p: Ipv4, q: Ipv4, tagGen: string -> string)
    requires a != b && p != q
    ensures var ops := MovedOnto(a, b, p, q);
            var before, after := Run(ops[..2], tagGen), Run(ops, tagGen);
            && Legal(ops, tagGen) && MacOnly(ops)
            && MacKey(a) in before && before[MacKey(a)].lastIp == IpText(p)
            && MacKey(a) in after && after[MacKey(a)] == before[MacKey(a)]
            && MacKey(b) in after && after[MacKey(b)].seenCount == 2
  {
    hide MacKey, IpText, Upserted, Findable;
    var ops := MovedOnto(a, b, p, q);
    var o1, o2 := ops[..1], ops[..2];
    assert o1[..0] == [] && o2[..1] == o1;
    assert Legal([], tagGen) && Run([], tagGen) == map[];
    FirstRegistered(a, p, tagGen);
    var r1, r2 := Run(o1, tagGen), Run(o2, tagGen);
    SecondRegistered(r1, a, b, p, q, tagGen);
    assert Legal(o1, tagGen) && Legal(o2, tagGen);
    MoveAbsorbed(r2, r1[MacKey(a)], a, b, q, tagGen);
  }

  /** An address a device was just seen at, by MAC, cannot be used to tag it. */
  lemma HeldAddressCannotTag(m: Mac, ip: Ipv4, tagGen: string -> string, tag: string)
    ensures var ops := [Sight(Bare(ip, Some(m)), 0, None)];
            && Legal(ops, tagGen) && MacOnly(ops)
            && MacKey(m) in Run(ops, tagGen) && Run(ops, tagGen)[MacKey(m)].lastIp == IpText(ip)
            && LookupKey(Run(ops, tagGen), None, ip) !in Run(ops, tagGen)
            && Retagged(Run(ops, tagGen), None, ip, tag) == Run(ops, tagGen)
  {
    hide MacKey, IpText, MacText, Merge;
    var ops := [Sight(Bare(ip, Some(m)), 0, None)];
    assert ops[..0] == [] && Legal([], tagGen);
    assert Legal(ops, tagGen);
    MacOnlyCannotTagByAddress(ops, tagGen, ip, tag);
  }
}
