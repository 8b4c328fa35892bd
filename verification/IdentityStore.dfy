/** The device registry: records keyed by MAC when it is known and by IP otherwise. */
module IdentityStore {
  import opened Prelude
  import opened Addresses

  datatype Category = Phone | Laptop | Desktop | Router | IoT | Printer | TvStreaming | Unknown

  datatype Record = Record(
    key: string,
    mac: Option<string>,
    lastIp: string,
    ips: seq<string>,
    tag: Option<string>,
    vendor: Option<string>,
    hostname: Option<string>,
    osHint: Option<string>,
    services: seq<string>,
    category: Option<Category>,
    firstSeen: nat,
    lastSeen: nat,
    seenCount: nat)

  /** The part of a discovered device that the registry reads. */
  datatype Device = Device(
    ip: Ipv4,
    mac: Option<Mac>,
    vendor: Option<string>,
    hostname: Option<string>,
    osHint: Option<string>,
    services: seq<string>,
    category: Option<Category>)

  type Records = map<string, Record>

  // ----- Merging what a sighting says into a record -----

  /** A category is learned once: only an absent or unknown one gives way. */
  function MergeCategory(existing: Option<Category>, incoming: Option<Category>): Option<Category>
  {
    match (existing, incoming)
    case (Some(e), Some(i)) => if e == Unknown && i != Unknown then Some(i) else Some(e)
    case (None, Some(i)) => Some(i)
    case (Some(e), None) => Some(e)
    case (None, None) => None
  }

  /** A reported value replaces the stored one; silence leaves it alone. */
  function Prefer<T>(reported: Option<T>, stored: Option<T>): Option<T>
  {
    if reported.Some? then reported else stored
  }

  /** The record after one more sighting of `device`. */
  function Sighted(record: Record, device: Device, now: nat): Record
  {
    record.(
      lastIp := IpText(device.ip),
      lastSeen := now,
      seenCount := record.seenCount + 1,
      ips := AddOnce(record.ips, IpText(device.ip)),
      vendor := Prefer(device.vendor, record.vendor),
      hostname := Prefer(device.hostname, record.hostname),
      osHint := Prefer(device.osHint, record.osHint),
      services := Merge(record.services, device.services),
      category := MergeCategory(record.category, device.category))
  }

  /** A record for a device never seen before, not yet counting its first sighting. */
  function Fresh(key: string, mac: Option<string>, device: Device, tagGen: string -> string, now: nat): Record
  {
    Record(key, mac, IpText(device.ip), [IpText(device.ip)], Some(tagGen(key)),
           device.vendor, device.hostname, device.osHint, device.services, device.category, now, now, 0)
  }

  // ----- Which record a sighting lands on -----

  /** The record under `k` claims `ip` as its current address and is not the one keyed `own`. */
  predicate HoldsIp(records: Records, k: string, ip: string, own: string)
  {
    k in records && records[k].lastIp == ip && records[k].key != own
  }

  /** `found` is a possible answer of searching the unordered records for another holder of `ip`. */
  ghost predicate Findable(records: Records, device: Device, found: Option<string>)
  {
    match device.mac
    case None => found.None?
    case Some(mac) =>
      match found
      case None => forall k :: !HoldsIp(records, k, IpText(device.ip), MacKey(mac))
      case Some(key) => exists k :: HoldsIp(records, k, IpText(device.ip), MacKey(mac)) && records[k].key == key
  }

  /** When nobody was found, a record stored under the address text itself is taken. */
  function OrIpKeyed(records: Records, ip: string, found: Option<string>): Option<string>
  {
    if found.None? && ip in records then Some(ip) else found
  }

  datatype Landing =
    | Own(key: string, mac: Option<string>)           // the device's own record, created if missing
    | Promote(from: string, to: string, macText: string)  // an IP-keyed record moves under the MAC key
    | Divert(holder: string)                          // another device's record absorbs the sighting

  function LandingOf(records: Records, device: Device, found: Option<string>): (landing: Landing)
    ensures Present(records, landing)
  {
    match device.mac
    case None => Own(IpText(device.ip), None)
    case Some(mac) =>
      var other := OrIpKeyed(records, IpText(device.ip), found);
      if other.Some? && other.value in records then
        if records[other.value].mac.None? then Promote(other.value, MacKey(mac), MacText(mac))
        else Divert(other.value)
      else Own(MacKey(mac), Some(MacText(mac)))
  }

  predicate Present(records: Records, landing: Landing)
  {
    match landing
    case Own(_, _) => true
    case Promote(from, _, _) => from in records
    case Divert(holder) => holder in records
  }

  /** The records after the sighting has been written where it landed. */
  function Settled(records: Records, landing: Landing, device: Device, tagGen: string -> string, now: nat): Records
    requires Present(records, landing)
  {
    match landing
    case Own(key, mac) =>
      var record := if key in records then records[key] else Fresh(key, mac, device, tagGen, now);
      records[key := Sighted(record, device, now)]
    case Promote(from, to, macText) =>
      (records - {from})[to := Sighted(records[from], device, now).(mac := Some(macText), key := to)]
    case Divert(holder) =>
      (records - {holder})[records[holder].key := Sighted(records[holder], device, now)]
  }

  function Upserted(records: Records, device: Device, tagGen: string -> string, now: nat, found: Option<string>)
    : Records
  {
    Settled(records, LandingOf(records, device, found), device, tagGen, now)
  }

  /** The key of the record an upsert returns. */
  function ResultKey(records: Records, landing: Landing): string
    requires Present(records, landing)
  {
    match landing
    case Own(key, _) => key
    case Promote(_, to, _) => to
    case Divert(holder) => records[holder].key
  }

  // ----- Lookup and tagging -----

  /** The key under which a device is looked up: its MAC when recorded, otherwise its IP. */
  function LookupKey(records: Records, mac: Option<Mac>, ip: Ipv4): string
  {
    if mac.Some? && MacKey(mac.value) in records then MacKey(mac.value) else IpText(ip)
  }

  function Retagged(records: Records, mac: Option<Mac>, ip: Ipv4, tag: string): Records
  {
    var key := LookupKey(records, mac, ip);
    if key in records then records[key := records[key].(tag := Some(tag))] else records
  }

  class Store {
    var records: Records

    constructor ()
      ensures records == map[]
    {
      records := map[];
    }

    method Upsert(device: Device, tagGen: string -> string, now: nat)
      returns (record: Record, ghost found: Option<string>)
      modifies this
      ensures Findable(old(records), device, found)
      ensures records == Upserted(old(records), device, tagGen, now, found)
      ensures var key := ResultKey(old(records), LandingOf(old(records), device, found));
              key in records && record == records[key]
    {
      hide IpText, MacKey, MacText, Merge;
      var ip := IpText(device.ip);
      found := None;
      match device.mac {
        case Some(mac) =>
          var mkey := MacKey(mac);
          var other := None;
          var holders := set k | k in records && HoldsIp(records, k, ip, mkey);
          if holders != {} {
            var k :| k in holders;
            other := Some(records[k].key);
          } else {
            assert forall k :: HoldsIp(records, k, ip, mkey) ==> k in holders;
          }
          found := other;
          if other.None? && ip in records {
            other := Some(ip);
          }
          if other.Some? && other.value in records {
            var held := records[other.value];
            records := records - {other.value};
            record := Touch(held, device, now);
            if held.mac.None? {
              record := record.(mac := Some(MacText(mac)), key := mkey);
            }
            records := records[record.key := record];
            return;
          }
          record := OwnRecord(mkey, Some(MacText(mac)), device, tagGen, now);
          record := Touch(record, device, now);
          records := records[mkey := record];
        case None =>
          record := OwnRecord(ip, None, device, tagGen, now);
          record := Touch(record, device, now);
          records := records[ip := record];
      }
    }

    /** The record under `key`, or the one to be created there. */
    method OwnRecord(key: string, mac: Option<string>, device: Device, tagGen: string -> string, now: nat)
      returns (record: Record)
      ensures record == if key in records then records[key] else Fresh(key, mac, device, tagGen, now)
    {
      if key in records {
        record := records[key];
      } else {
        var ip := IpText(device.ip);
        record := Record(key, mac, ip, [ip], Some(tagGen(key)), device.vendor, device.hostname, device.osHint,
                         device.services, device.category, now, now, 0);
      }
    }

    method Get(mac: Option<Mac>, ip: Ipv4) returns (record: Option<Record>)
      ensures var key := LookupKey(records, mac, ip);
              record == if key in records then Some(records[key]) else None
    {
      if mac.Some? {
        var key := MacKey(mac.value);
        if key in records {
          return Some(records[key]);
        }
      }
      var key := IpText(ip);
      record := if key in records then Some(records[key]) else None;
    }

    method SetTag(mac: Option<Mac>, ip: Ipv4, tag: string) returns (ok: bool)
      modifies this
      ensures ok == (LookupKey(old(records), mac, ip) in old(records))
      ensures records == Retagged(old(records), mac, ip, tag)
    {
      if mac.Some? {
        var key := MacKey(mac.value);
        if key in records {
          records := records[key := records[key].(tag := Some(tag))];
          return true;
        }
      }
      var key := IpText(ip);
      ok := key in records;
      if ok {
        records := records[key := records[key].(tag := Some(tag))];
      }
    }
  }

  /** Items of `incoming` not yet present are appended in order. */
  method MergeStringVec(existing: seq<string>, incoming: seq<string>) returns (merged: seq<string>)
    ensures merged == Merge(existing, incoming)
  {
    merged := existing;
    var i := 0;
    while i < |incoming|
      invariant 0 <= i <= |incoming|
      invariant Merge(merged, incoming[i..]) == Merge(existing, incoming)
    {
      assert incoming[i..][1..] == incoming[i + 1..];
      if incoming[i] !in merged {
        merged := merged + [incoming[i]];
      }
      i := i + 1;
    }
  }

  /** The field updates every kind of sighting makes. */
  method Touch(held: Record, device: Device, now: nat) returns (record: Record)
    ensures record == Sighted(held, device, now)
  {
    var ip := IpText(device.ip);
    record := held;
    if ip !in record.ips {
      record := record.(ips := record.ips + [ip]);
    }
    record := record.(lastIp := ip, lastSeen := now, seenCount := record.seenCount + 1);
    if device.vendor.Some? {
      record := record.(vendor := device.vendor);
    }
    if device.hostname.Some? {
      record := record.(hostname := device.hostname);
    }
    if device.osHint.Some? {
      record := record.(osHint := device.osHint);
    }
    var services := MergeStringVec(record.services, device.services);
    record := record.(services := services, category := MergeCategory(record.category, device.category));
  }
}
