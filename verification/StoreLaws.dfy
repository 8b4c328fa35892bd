/** What the registry keeps over every single update. */
module StoreLaws {
  import opened Prelude
  import opened Addresses
  import opened IdentityStore

  // ----- Representation invariant -----

  /** How a record stored under `k` looks in every reachable registry. */
  ghost predicate WellKept(k: string, r: Record)
  {
    && r.key == k && r.tag.Some? && 1 <= r.seenCount
    && Distinct(r.ips) && r.lastIp in r.ips
    && (exists ip: Ipv4 :: r.lastIp == IpText(ip))
    && KeyFitsMac(k, r)
  }

  ghost predicate KeyFitsMac(k: string, r: Record)
  {
    match r.mac
    case None => k == r.lastIp && r.ips == [r.lastIp]
    case Some(text) => exists m: Mac :: text == MacText(m) && k == MacKey(m)
  }

  ghost predicate Valid(records: Records)
  {
    forall k :: k in records ==> WellKept(k, records[k])
  }

  /** What the landing of a sighting means in a registry that keeps the invariant. */
  ghost predicate Sound(records: Records, device: Device, landing: Landing)
  {
    var ip := IpText(device.ip);
    match landing
    case Own(key, macText) =>
      (match device.mac
       case None => key == ip && macText == None
       case Some(m) => key == MacKey(m) && macText == Some(MacText(m)) && forall k :: !HoldsIp(records, k, ip, key))
    case Promote(from, to, macText) =>
      && device.mac.Some? && to == MacKey(device.mac.value) && macText == MacText(device.mac.value)
      && from == ip && HoldsIp(records, from, ip, to) && records[from].mac.None?
    case Divert(holder) =>
      && device.mac.Some? && HoldsIp(records, holder, ip, MacKey(device.mac.value)) && records[holder].mac.Some?
  }

  /** The fallback on the address text never decides: whoever is stored there has been found already. */
  lemma FallbackUnreachable(records: Records, device: Device, found: Option<string>)
    requires Valid(records) && Findable(records, device, found) && device.mac.Some?
    ensures OrIpKeyed(records, IpText(device.ip), found) == found
  {
    var ip := IpText(device.ip);
    if found.None? && ip in records {
      IpKeyedHasNoMac(records, device.ip);
      KeysDisjoint(device.mac.value, device.ip);
      assert HoldsIp(records, ip, ip, MacKey(device.mac.value));
      assert false;
    }
  }

  lemma IpKeyedHasNoMac(records: Records, ip: Ipv4)
    requires Valid(records) && IpText(ip) in records
    ensures var r := records[IpText(ip)]; r.mac.None? && r.key == r.lastIp == IpText(ip)
  {
    var k := IpText(ip);
    assert WellKept(k, records[k]);
    if records[k].mac.Some? {
      var m: Mac :| records[k].mac.value == MacText(m) && k == MacKey(m);
      KeysDisjoint(m, ip);
    }
  }

  lemma MacKeyedHasMac(records: Records, m: Mac)
    requires Valid(records) && MacKey(m) in records
    ensures records[MacKey(m)].mac == Some(MacText(m))
  {
    var k := MacKey(m);
    var r := records[k];
    assert WellKept(k, r);
    if r.mac.None? {
      var ip: Ipv4 :| r.lastIp == IpText(ip);
      KeysDisjoint(m, ip);
    } else {
      var m': Mac :| r.mac.value == MacText(m') && k == MacKey(m');
      MacKeyInjective(m, m');
    }
  }

  /** A displayed MAC belongs to one record only. */
  lemma MacShownOnce(records: Records, k: string, l: string)
    requires Valid(records) && k in records && l in records
    requires records[k].mac.Some? && records[k].mac == records[l].mac
    ensures k == l
  {
    hide MacKey, MacText, IpText;
    assert WellKept(k, records[k]) && WellKept(l, records[l]);
    var m: Mac :| records[k].mac.value == MacText(m) && k == MacKey(m);
    var n: Mac :| records[l].mac.value == MacText(n) && l == MacKey(n);
    MacTextInjective(m, n);
  }

  /** Every answer of the search leads to a landing with its intended meaning. */
  lemma LandingSound(records: Records, device: Device, found: Option<string>)
    requires Valid(records) && Findable(records, device, found)
    ensures Sound(records, device, LandingOf(records, device, found))
    ensures device.mac.Some? ==>
              found == match LandingOf(records, device, found)
                       case Own(_, _) => None
                       case Promote(from, _, _) => Some(from)
                       case Divert(holder) => Some(holder)
  {
    if device.mac.Some? {
      FallbackUnreachable(records, device, found);
      if found.Some? {
        assert WellKept(found.value, records[found.value]);
      }
    }
  }

  /** Conversely, a landing that means something can be reached by some answer of the search. */
  lemma HolderFindable(records: Records, device: Device, k: string)
    requires Valid(records) && device.mac.Some?
    requires HoldsIp(records, k, IpText(device.ip), MacKey(device.mac.value))
    ensures Findable(records, device, Some(k))
    ensures ResultKey(records, LandingOf(records, device, Some(k)))
         == if records[k].mac.None? then MacKey(device.mac.value) else k
  {
    assert WellKept(k, records[k]);
  }

  lemma SightedWellKept(k: string, r: Record, device: Device, now: nat)
    requires r.key == k && r.tag.Some? && Distinct(r.ips)
    requires r.mac.None? ==> k == IpText(device.ip) && r.ips == [k]
    requires r.mac.Some? ==> exists m: Mac :: r.mac.value == MacText(m) && k == MacKey(m)
    ensures WellKept(k, Sighted(r, device, now))
  {
    var s := Sighted(r, device, now);
    assert s.lastIp == IpText(device.ip);
    assert s.lastIp in s.ips;
    assert KeyFitsMac(k, s);
  }

  lemma SettleKeepsValid(records: Records, landing: Landing, device: Device, tagGen: string -> string, now: nat)
    requires Valid(records) && Sound(records, device, landing)
    ensures Present(records, landing) && Valid(Settled(records, landing, device, tagGen, now))
  {
    hide MacKey, IpText, MacText, Merge;
    match landing {
      case Own(key, macText) =>
        var r := if key in records then records[key] else Fresh(key, macText, device, tagGen, now);
        if key in records {
          assert WellKept(key, r);
          if device.mac.None? {
            IpKeyedHasNoMac(records, device.ip);
          } else {
            MacKeyedHasMac(records, device.mac.value);
          }
        }
        SightedWellKept(key, r, device, now);
      case Promote(from, to, macText) =>
        var r := records[from].(mac := Some(macText), key := to);
        assert WellKept(from, records[from]);
        SightedWellKept(to, r, device, now);
        assert Sighted(records[from], device, now).(mac := Some(macText), key := to) == Sighted(r, device, now);
      case Divert(holder) =>
        assert WellKept(holder, records[holder]);
        SightedWellKept(holder, records[holder], device, now);
    }
  }

  /** One upsert keeps the invariant, whichever record it lands on. */
  lemma UpsertKeepsValid(records: Records, device: Device, tagGen: string -> string, now: nat, found: Option<string>)
    requires Valid(records) && Findable(records, device, found)
    ensures Valid(Upserted(records, device, tagGen, now, found))
  {
    LandingSound(records, device, found);
    SettleKeepsValid(records, LandingOf(records, device, found), device, tagGen, now);
  }

  lemma RetagKeepsValid(records: Records, mac: Option<Mac>, ip: Ipv4, tag: string)
    requires Valid(records)
    ensures Valid(Retagged(records, mac, ip, tag))
  {
    var key := LookupKey(records, mac, ip);
    if key in records {
      assert WellKept(key, records[key]);
    }
  }

  // ----- Which device a sighting is credited to -----

  /** Somebody else, whose MAC is known, holds `ip` as the last address. */
  ghost predicate HeldByOtherMac(records: Records, ip: Ipv4, m: Mac)
  {
    exists k :: HoldsIp(records, k, IpText(ip), MacKey(m)) && records[k].mac.Some?
  }

  /**
   * A sighting of a device with a MAC is certain to be credited to that MAC exactly when no other MAC
   * holds the address. Otherwise some search order hands it to the other device.
   */
  lemma CreditedToOwnMacExactly(records: Records, device: Device)
    requires Valid(records) && device.mac.Some?
    ensures (forall found :: Findable(records, device, found) ==>
               ResultKey(records, LandingOf(records, device, found)) == MacKey(device.mac.value))
            <==> !HeldByOtherMac(records, device.ip, device.mac.value)
  {
    var m := device.mac.value;
    if HeldByOtherMac(records, device.ip, m) {
      var k :| HoldsIp(records, k, IpText(device.ip), MacKey(m)) && records[k].mac.Some?;
      HolderFindable(records, device, k);
      assert WellKept(k, records[k]);
    } else {
      forall found | Findable(records, device, found)
        ensures ResultKey(records, LandingOf(records, device, found)) == MacKey(m)
      {
        LandingSound(records, device, found);
      }
    }
  }

  /** A value reported by the device is stored; one it is silent about comes from the record it landed on. */
  predicate Learns<T(==)>(stored: Option<T>, reported: Option<T>, before: Option<T>)
  {
    if reported.Some? then stored == reported else stored == before
  }

  /** The record a sighting builds on, if there is one. */
  function Predecessor(records: Records, landing: Landing): Option<Record>
    requires Present(records, landing)
  {
    match landing
    case Own(key, _) => if key in records then Some(records[key]) else None
    case Promote(from, _, _) => Some(records[from])
    case Divert(holder) => Some(records[holder])
  }

  /** The category after a report: a stored one gives way only when it is unknown and the reported one is not. */
  predicate Classifies(stored: Option<Category>, reported: Option<Category>, before: Option<Category>)
  {
    if reported.None? || (before.Some? && (before != Some(Unknown) || reported == Some(Unknown)))
    then stored == before else stored == reported
  }

  /** `after` is `before` with one more sighting of `device`, detail by detail. */
  ghost predicate Extends(before: Record, after: Record, device: Device, now: nat)
  {
    && after.lastIp == IpText(device.ip) && after.lastSeen == now && after.seenCount == before.seenCount + 1
    && after.ips == before.ips + (if IpText(device.ip) in before.ips then [] else [IpText(device.ip)])
    && after.tag == before.tag && after.firstSeen == before.firstSeen
    && Learns(after.vendor, device.vendor, before.vendor)
    && Learns(after.hostname, device.hostname, before.hostname)
    && Learns(after.osHint, device.osHint, before.osHint)
    && Classifies(after.category, device.category, before.category)
    && (forall service :: service in after.services <==> service in before.services || service in device.services)
    && after.services == before.services + Dedup(Missing(before.services, device.services))
  }

  /** `r` is the record of a device never recorded before, detail by detail. */
  predicate Begins(r: Record, device: Device, tag: string, now: nat)
  {
    && r.lastIp == IpText(device.ip) && r.ips == [IpText(device.ip)] && r.tag == Some(tag)
    && r.firstSeen == now && r.lastSeen == now && r.seenCount == 1
    && r.vendor == device.vendor && r.hostname == device.hostname && r.osHint == device.osHint
    && r.category == device.category && r.services == device.services
  }

  lemma SightedExtends(r: Record, device: Device, now: nat)
    ensures Extends(r, Sighted(r, device, now), device, now)
    ensures Sighted(r, device, now).mac == r.mac && Sighted(r, device, now).key == r.key
  {
    hide IpText, Merge;
    MergeMeaning(r.services, device.services);
    MergeAppendsMissing(r.services, device.services);
  }

  lemma FreshBegins(key: string, mac: Option<string>, device: Device, tagGen: string -> string, now: nat)
    ensures Begins(Sighted(Fresh(key, mac, device, tagGen, now), device, now), device, tagGen(key), now)
    ensures Sighted(Fresh(key, mac, device, tagGen, now), device, now).mac == mac
  {
    hide IpText, Merge;
    MergeAbsorbs(device.services, device.services);
  }

  /**
   * Wherever a sighting lands, the resulting record is stored under its key. It extends the record it builds on by
   * the report, detail by detail, or begins a new one; it shows the device's MAC unless another device's record
   * absorbed the sighting.
   */
  lemma ResultReflectsSighting(records: Records, device: Device, tagGen: string -> string, now: nat, landing: Landing)
    requires Valid(records) && Sound(records, device, landing) && Present(records, landing)
    ensures var key, after := ResultKey(records, landing), Settled(records, landing, device, tagGen, now);
            key in after &&
            var r, before := after[key], Predecessor(records, landing);
            && r.key == key
            && (if before.Some? then Extends(before.value, r, device, now) else Begins(r, device, tagGen(key), now))
            && (landing.Divert? ==> r.mac == before.value.mac)
            && (!landing.Divert? ==> r.mac == if device.mac.Some? then Some(MacText(device.mac.value)) else None)
  {
    hide IpText, MacKey, MacText, Merge, Sighted, Fresh, Extends, Begins;
    match landing {
      case Own(key, mac) =>
        if key in records {
          assert WellKept(key, records[key]);
          SightedExtends(records[key], device, now);
          OwnShowsMac(records, device, landing);
        } else {
          FreshBegins(key, mac, device, tagGen, now);
          FreshKey(key, mac, device, tagGen, now);
        }
      case Promote(from, to, macText) =>
        SightedExtends(records[from], device, now);
        RekeyedExtends(records[from], Sighted(records[from], device, now), device, now, to, macText);
      case Divert(holder) =>
        assert WellKept(holder, records[holder]);
        SightedExtends(records[holder], device, now);
    }
  }

  lemma OwnShowsMac(records: Records, device: Device, landing: Landing)
    requires Valid(records) && Sound(records, device, landing) && landing.Own? && landing.key in records
    ensures records[landing.key].mac == if device.mac.Some? then Some(MacText(device.mac.value)) else None
  {
    hide IpText, MacKey, MacText, Valid;
    if device.mac.Some? {
      MacKeyedHasMac(records, device.mac.value);
    } else {
      IpKeyedHasNoMac(records, device.ip);
    }
  }

  lemma FreshKey(key: string, mac: Option<string>, device: Device, tagGen: string -> string, now: nat)
    ensures Sighted(Fresh(key, mac, device, tagGen, now), device, now).key == key
  {
    hide IpText, Merge;
  }

  lemma RekeyedExtends(before: Record, after: Record, device: Device, now: nat, key: string, macText: string)
    requires Extends(before, after, device, now)
    ensures Extends(before, after.(mac := Some(macText), key := key), device, now)
  {
    hide IpText;
  }

  /** Looking the device up afterwards finds the record just returned, unless another device absorbed the sighting. */
  lemma LookupFindsResultExactly(records: Records, device: Device, tagGen: string -> string, now: nat, landing: Landing)
    requires Valid(records) && Sound(records, device, landing) && Present(records, landing)
    ensures LookupKey(Settled(records, landing, device, tagGen, now), device.mac, device.ip)
            == ResultKey(records, landing)
            <==> !landing.Divert?
  {
    hide IpText, MacKey, MacText, Sighted;
    if landing.Divert? {
      var r := records[landing.holder];
      assert WellKept(landing.holder, r);
      var m: Mac :| r.mac.value == MacText(m) && landing.holder == MacKey(m);
      KeysDisjoint(m, device.ip);
    }
  }

  /** Beforehand: the lookup is certain to find the record returned exactly when no other MAC holds the address. */
  lemma LookupCertainExactly(records: Records, device: Device, tagGen: string -> string, now: nat)
    requires Valid(records)
    ensures (forall found :: Findable(records, device, found) ==>
               LookupKey(Upserted(records, device, tagGen, now, found), device.mac, device.ip)
               == ResultKey(records, LandingOf(records, device, found)))
            <==> !(device.mac.Some? && HeldByOtherMac(records, device.ip, device.mac.value))
  {
    hide IpText, MacKey, MacText, Sighted, Valid, LookupKey;
    if device.mac.Some? && HeldByOtherMac(records, device.ip, device.mac.value) {
      var k :| HoldsIp(records, k, IpText(device.ip), MacKey(device.mac.value)) && records[k].mac.Some?;
      HolderFindable(records, device, k);
      LandingSound(records, device, Some(k));
      LookupFindsResultExactly(records, device, tagGen, now, LandingOf(records, device, Some(k)));
    } else {
      forall found | Findable(records, device, found)
        ensures LookupKey(Upserted(records, device, tagGen, now, found), device.mac, device.ip)
             == ResultKey(records, LandingOf(records, device, found))
      {
        LandingSound(records, device, found);
        LookupFindsResultExactly(records, device, tagGen, now, LandingOf(records, device, found));
      }
    }
  }

  // ----- History -----

  /** Absent, then unknown, then concrete; once concrete, fixed. */
  predicate CategoryOnward(before: Option<Category>, after: Option<Category>)
  {
    after == before || before.None? || (before == Some(Unknown) && after.Some?)
  }

  /** `after` is `before` with more history and nothing forgotten. */
  predicate Continues(before: Record, after: Record)
  {
    && after.tag == before.tag && after.mac == before.mac && after.firstSeen == before.firstSeen
    && before.ips <= after.ips && before.services <= after.services
    && CategoryOnward(before.category, after.category) && before.seenCount <= after.seenCount
  }

  lemma SightedContinues(r: Record, device: Device, now: nat)
    ensures Continues(r, Sighted(r, device, now))
  {
    MergeMeaning(r.services, device.services);
  }

  /** A settled sighting writes one record, and removes one only by promotion. */
  lemma SettleFrame(records: Records, landing: Landing, device: Device, tagGen: string -> string, now: nat)
    requires Valid(records) && Sound(records, device, landing) && Present(records, landing)
    ensures var after := Settled(records, landing, device, tagGen, now);
            var key := ResultKey(records, landing);
            && after.Keys == records.Keys + {key} - (if landing.Promote? then {landing.from} else {})
            && (forall k :: k in after && k != key ==> after[k] == records[k])
            && (!landing.Promote? && key in records ==> after[key] == Sighted(records[key], device, now))
  {
    hide MacKey, IpText, MacText, Merge;
    if landing.Promote? {
      KeysDisjoint(device.mac.value, device.ip);
    }
    if landing.Divert? {
      assert WellKept(landing.holder, records[landing.holder]);
    }
  }

  /**
   * An upsert forgets nothing it keeps: every record that stays under its key continues, only the record
   * it lands on changes, and a key disappears only by promotion.
   */
  lemma HistoryGrows(records: Records, device: Device, tagGen: string -> string, now: nat, landing: Landing)
    requires Valid(records) && Sound(records, device, landing) && Present(records, landing)
    ensures var after := Settled(records, landing, device, tagGen, now);
            && (forall k :: k in records && k !in after ==> landing.Promote? && k == landing.from)
            && (forall k :: k in records && k in after && !(landing.Promote? && k == landing.to) ==>
                  Continues(records[k], after[k]))
            && (forall k :: k in records && k in after && k != ResultKey(records, landing) ==> after[k] == records[k])
  {
    hide MacKey, IpText, MacText, Merge;
    var after := Settled(records, landing, device, tagGen, now);
    SettleFrame(records, landing, device, tagGen, now);
    forall k | k in records && k in after && !(landing.Promote? && k == landing.to)
      ensures Continues(records[k], after[k])
    {
      if k == ResultKey(records, landing) {
        SightedContinues(records[k], device, now);
      }
    }
  }

  /** A promoted record carries its whole history to the MAC key and only gains the MAC. */
  lemma PromotionCarriesHistory(records: Records, device: Device, tagGen: string -> string, now: nat, landing: Landing)
    requires Valid(records) && Sound(records, device, landing) && landing.Promote?
    ensures var after := Settled(records, landing, device, tagGen, now);
            && landing.from !in after && landing.to in after
            && after[landing.to].key == landing.to && after[landing.to].ips == records[landing.from].ips
            && Continues(records[landing.from].(mac := Some(landing.macText)), after[landing.to])
  {
    assert WellKept(landing.from, records[landing.from]);
    SightedContinues(records[landing.from], device, now);
  }

  /** `after` is the record `before` moved on to address `ip`, with nothing forgotten and one more sighting. */
  predicate Follows(before: Record, after: Record, ip: Ipv4)
  {
    after.lastIp == IpText(ip) && Continues(before, after) && after.seenCount == before.seenCount + 1
  }

  /**
   * A known device that turns up at a new address is followed there by its own record exactly when nobody else
   * holds the address. Otherwise the holder decides: one with a MAC takes the sighting and the device's own record
   * does not notice it, one without a MAC replaces the device's own record by its own history.
   */
  lemma FollowedToNewAddress(records: Records, device: Device, tagGen: string -> string,
                             now: nat, found: Option<string>)
    requires Valid(records) && Findable(records, device, found)
    requires device.mac.Some? && MacKey(device.mac.value) in records
    requires records[MacKey(device.mac.value)].lastIp != IpText(device.ip)
    ensures var key := MacKey(device.mac.value);
            var after := Upserted(records, device, tagGen, now, found);
            && key in after
            && (Follows(records[key], after[key], device.ip) <==>
                  forall k :: !HoldsIp(records, k, IpText(device.ip), key))
            && (found.Some? ==>
                  && found.value in records
                  && (records[found.value].mac.Some? ==> after[key] == records[key])
                  && (records[found.value].mac.None? ==>
                        && found.value !in after && after[key].ips == [IpText(device.ip)]
                        && Continues(records[found.value].(mac := Some(MacText(device.mac.value))), after[key])))
  {
    hide MacKey, IpText, MacText, Merge;
    var key := MacKey(device.mac.value);
    var landing := LandingOf(records, device, found);
    LandingSound(records, device, found);
    SettleFrame(records, landing, device, tagGen, now);
    assert WellKept(key, records[key]);
    match landing {
      case Own(_, _) =>
        SightedContinues(records[key], device, now);
      case Promote(from, _, _) =>
        PromotionCarriesHistory(records, device, tagGen, now, landing);
        assert WellKept(from, records[from]);
      case Divert(holder) =>
        assert WellKept(holder, records[holder]);
    }
  }

  // ----- Seeing the same thing again -----

  predicate SameButCount(before: Record, after: Record)
  {
    after == before.(lastSeen := after.lastSeen, seenCount := after.seenCount)
  }

  /** Only the last-seen time and the count of records differ. */
  ghost predicate Quiet(before: Records, after: Records)
  {
    before.Keys == after.Keys && forall k :: k in before ==> SameButCount(before[k], after[k])
  }

  ghost predicate AtMostOneHolder(records: Records, ip: Ipv4, m: Mac)
  {
    forall k, l :: HoldsIp(records, k, IpText(ip), MacKey(m)) && HoldsIp(records, l, IpText(ip), MacKey(m)) ==> k == l
  }

  lemma SightedTwice(r: Record, device: Device, now: nat, later: nat)
    ensures SameButCount(Sighted(r, device, now), Sighted(Sighted(r, device, now), device, later))
  {
    MergeMeaning(r.services, device.services);
    MergeAbsorbs(Merge(r.services, device.services), device.services);
  }

  /** Where the same sighting lands when it is repeated: on the record it has just written. */
  function LandingAgain(landing: Landing): Landing
  {
    match landing
    case Promote(_, to, macText) => Own(to, Some(macText))
    case _ => landing
  }

  lemma SettleTwiceQuiet(records: Records, landing: Landing, device: Device, tagGen: string -> string,
                         now: nat, later: nat)
    requires Valid(records) && Sound(records, device, landing) && Present(records, landing)
    ensures var once := Settled(records, landing, device, tagGen, now);
            Present(once, LandingAgain(landing))
            && Quiet(once, Settled(once, LandingAgain(landing), device, tagGen, later))
  {
    hide MacKey, IpText, MacText, Merge;
    match landing {
      case Own(key, mac) =>
        SightedTwice(if key in records then records[key] else Fresh(key, mac, device, tagGen, now), device, now, later);
      case Promote(from, to, macText) =>
        SightedTwice(records[from], device, now, later);
      case Divert(holder) =>
        assert WellKept(holder, records[holder]);
        SightedTwice(records[holder], device, now, later);
    }
  }

  /** After the first sighting the only possible other holder is the record just credited. */
  lemma RepeatLandsAgain(records: Records, landing: Landing, device: Device, tagGen: string -> string,
                         now: nat, again: Landing)
    requires Valid(records) && Sound(records, device, landing) && Present(records, landing)
    requires device.mac.Some? ==> AtMostOneHolder(records, device.ip, device.mac.value)
    requires Sound(Settled(records, landing, device, tagGen, now), device, again)
    ensures again == LandingAgain(landing)
  {
    hide MacKey, IpText, MacText, Merge;
    var once := Settled(records, landing, device, tagGen, now);
    if device.mac.Some? {
      var ip, own := IpText(device.ip), MacKey(device.mac.value);
      match landing {
        case Own(_, _) =>
          assert forall k :: HoldsIp(once, k, ip, own) ==> HoldsIp(records, k, ip, own);
        case Promote(from, _, _) =>
          assert forall k :: HoldsIp(once, k, ip, own) ==> HoldsIp(records, k, ip, own) && k != from;
        case Divert(holder) =>
          assert WellKept(holder, records[holder]);
          assert HoldsIp(once, holder, ip, own) && once[holder].mac.Some?;
          assert forall k :: HoldsIp(once, k, ip, own) ==> HoldsIp(records, k, ip, own);
      }
    }
  }

  /** Seeing the same device again is quiet when at most one other record holds its address. */
  lemma ReobservationQuiet(records: Records, device: Device, tagGen: string -> string,
                           now: nat, found: Option<string>, later: nat, foundLater: Option<string>)
    requires Valid(records) && Findable(records, device, found)
    requires Findable(Upserted(records, device, tagGen, now, found), device, foundLater)
    requires device.mac.Some? ==> AtMostOneHolder(records, device.ip, device.mac.value)
    ensures var once := Upserted(records, device, tagGen, now, found);
            Quiet(once, Upserted(once, device, tagGen, later, foundLater))
  {
    var once := Upserted(records, device, tagGen, now, found);
    var landing := LandingOf(records, device, found);
    var again := LandingOf(once, device, foundLater);
    LandingSound(records, device, found);
    SettleKeepsValid(records, landing, device, tagGen, now);
    LandingSound(once, device, foundLater);
    RepeatLandsAgain(records, landing, device, tagGen, now, again);
    SettleTwiceQuiet(records, landing, device, tagGen, now, later);
  }

  /** With two other holders, some report and some pair of search orders change a second record. */
  lemma ReobservationLoud(records: Records, ip: Ipv4, m: Mac, first: string, second: string, tagGen: string -> string)
    returns (device: Device)
    requires Valid(records) && first != second
    requires HoldsIp(records, first, IpText(ip), MacKey(m)) && HoldsIp(records, second, IpText(ip), MacKey(m))
    ensures device.ip == ip && device.mac == Some(m)
    ensures Findable(records, device, Some(first))
    ensures var once := Upserted(records, device, tagGen, 0, Some(first));
            Findable(once, device, Some(second)) && !Quiet(once, Upserted(once, device, tagGen, 0, Some(second)))
  {
    var name := if records[second].hostname == Some("a") then "b" else "a";
    device := Device(ip, Some(m), None, Some(name), None, [], None);
    HolderFindable(records, device, first);
    var landing := LandingOf(records, device, Some(first));
    LandingSound(records, device, Some(first));
    SettleKeepsValid(records, landing, device, tagGen, 0);
    HistoryGrows(records, device, tagGen, 0, landing);
    var once := Upserted(records, device, tagGen, 0, Some(first));
    assert WellKept(second, records[second]);
    assert once[second] == records[second];
    HolderFindable(once, device, second);
    LoudStep(once, device, tagGen, second);
  }

  lemma LoudStep(once: Records, device: Device, tagGen: string -> string, second: string)
    requires Valid(once) && device.mac.Some? && HoldsIp(once, second, IpText(device.ip), MacKey(device.mac.value))
    requires device.hostname.Some? && once[second].hostname != device.hostname
    ensures !Quiet(once, Upserted(once, device, tagGen, 0, Some(second)))
  {
    assert WellKept(second, once[second]);
    var twice := Upserted(once, device, tagGen, 0, Some(second));
    if once[second].mac.Some? {
      assert !SameButCount(once[second], twice[second]);
    } else {
      assert second in once && second !in twice;
    }
  }

  /** Repeating any report about (`ip`, `m`), whatever the search orders, is quiet. */
  ghost predicate AlwaysQuiet(records: Records, ip: Ipv4, m: Mac, tagGen: string -> string)
  {
    forall device: Device, now: nat, found, later: nat, foundLater ::
      device.ip == ip && device.mac == Some(m) && Findable(records, device, found)
      && Findable(Upserted(records, device, tagGen, now, found), device, foundLater) ==>
        Quiet(Upserted(records, device, tagGen, now, found),
              Upserted(Upserted(records, device, tagGen, now, found), device, tagGen, later, foundLater))
  }

  /** Re-observation is idempotent, up to time and count, exactly when at most one other record holds the address. */
  lemma ReobservationQuietExactly(records: Records, ip: Ipv4, m: Mac, tagGen: string -> string)
    requires Valid(records)
    ensures AlwaysQuiet(records, ip, m, tagGen) <==> AtMostOneHolder(records, ip, m)
  {
    if AtMostOneHolder(records, ip, m) {
      forall device: Device, now: nat, found, later: nat, foundLater
        | device.ip == ip && device.mac == Some(m) && Findable(records, device, found)
          && Findable(Upserted(records, device, tagGen, now, found), device, foundLater)
        ensures Quiet(Upserted(records, device, tagGen, now, found),
                      Upserted(Upserted(records, device, tagGen, now, found), device, tagGen, later, foundLater))
      {
        ReobservationQuiet(records, device, tagGen, now, found, later, foundLater);
      }
    } else {
      var k, l :| HoldsIp(records, k, IpText(ip), MacKey(m)) && HoldsIp(records, l, IpText(ip), MacKey(m)) && k != l;
      var device := ReobservationLoud(records, ip, m, k, l, tagGen);
    }
  }

  // ----- Looking up and tagging -----

  /** The record under `k` shows the MAC `m`. */
  predicate Shows(records: Records, k: string, m: Mac)
  {
    k in records && records[k].mac == Some(MacText(m))
  }

  /** The record under `k` has no MAC and claims `ip`. */
  predicate BareHolder(records: Records, k: string, ip: Ipv4)
  {
    k in records && records[k].mac.None? && records[k].lastIp == IpText(ip)
  }

  lemma ShownUnderKey(records: Records, k: string, m: Mac)
    requires Valid(records) && Shows(records, k, m)
    ensures k == MacKey(m)
  {
    hide IpText, MacKey, MacText;
    assert WellKept(k, records[k]);
    var n: Mac :| MacText(m) == MacText(n) && k == MacKey(n);
    MacTextInjective(m, n);
  }

  lemma MacShownExactly(records: Records, m: Mac)
    requires Valid(records)
    ensures (exists k :: Shows(records, k, m)) <==> MacKey(m) in records
    ensures MacKey(m) in records ==> Shows(records, MacKey(m), m)
  {
    hide IpText, MacKey, MacText, Valid;
    if MacKey(m) in records {
      MacKeyedHasMac(records, m);
      assert Shows(records, MacKey(m), m);
    }
    if k :| Shows(records, k, m) {
      ShownUnderKey(records, k, m);
    }
  }

  lemma BareHeldExactly(records: Records, ip: Ipv4)
    requires Valid(records)
    ensures (exists k :: BareHolder(records, k, ip)) <==> IpText(ip) in records
    ensures IpText(ip) in records ==> BareHolder(records, IpText(ip), ip)
  {
    hide IpText, MacKey, MacText;
    if IpText(ip) in records {
      IpKeyedHasNoMac(records, ip);
      assert BareHolder(records, IpText(ip), ip);
    }
    if k :| BareHolder(records, k, ip) {
      assert WellKept(k, records[k]);
    }
  }

  /**
   * A lookup reaches the record that shows the MAC when there is one; otherwise, whether or not a MAC was given, the
   * record without a MAC that claims the address; and nothing exactly when there is neither.
   */
  lemma LookupMeaning(records: Records, mac: Option<Mac>, ip: Ipv4)
    requires Valid(records)
    ensures var key := LookupKey(records, mac, ip);
            if mac.Some? && exists k :: Shows(records, k, mac.value) then Shows(records, key, mac.value)
            else if exists k :: BareHolder(records, k, ip) then BareHolder(records, key, ip)
            else key !in records
  {
    hide IpText, MacKey, Valid, Shows, BareHolder;
    if mac.Some? {
      MacShownExactly(records, mac.value);
    }
    BareHeldExactly(records, ip);
  }

  /** Tagging stores the tag where the same lookup finds it, and changes nothing else. */
  lemma TagThenLookup(records: Records, mac: Option<Mac>, ip: Ipv4, tag: string)
    ensures var key, after := LookupKey(records, mac, ip), Retagged(records, mac, ip, tag);
            && after.Keys == records.Keys && LookupKey(after, mac, ip) == key
            && (key in records ==> after[key].tag == Some(tag) && after[key].(tag := records[key].tag) == records[key])
            && (forall k :: k in records && k != key ==> after[k] == records[k])
  {
    hide IpText, MacKey;
  }

  /** Tagging by address alone reaches a record exactly when a device without a MAC holds that address. */
  lemma TagByAddressExactly(records: Records, ip: Ipv4)
    requires Valid(records)
    ensures LookupKey(records, None, ip) in records
            <==> exists k :: k in records && records[k].mac.None? && records[k].lastIp == IpText(ip)
  {
    hide IpText, MacKey, Valid;
    BareHeldExactly(records, ip);
    if k :| k in records && records[k].mac.None? && records[k].lastIp == IpText(ip) {
      assert BareHolder(records, k, ip);
    }
  }
}
