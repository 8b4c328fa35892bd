/** The raw-capture thread: which address/MAC pairs it queues for the listener. */
module RawCapture {
  import opened Prelude
  import opened Addresses
  import opened Subnets
  import opened IdentityStore
  import PassiveListener

  datatype Pair = Pair(ip: Ipv4, mac: Mac)

  /** A captured frame, reduced to what the capture thread reads; `None` marks an undecodable payload. */
  datatype Frame =
    | Arp(source: Mac, arp: Option<ArpBody>)
    | Ip4(source: Mac, sourceIp: Option<Ipv4>)
    | OtherType(source: Mac)
    | Undecodable

  datatype ArpBody = ArpBody(sender: Pair, target: Pair)

  datatype Network = Network(base: Ipv4, prefix: Prefix)

  predicate Allowed(ip: Ipv4, local: Option<Network>)
  {
    local.Some? ==> InSubnet(ip, local.value.base, local.value.prefix)
  }

  /** An ARP party is kept when it has a usable address and a MAC. */
  function ArpParty(party: Pair, local: Option<Network>): seq<Pair>
  {
    if party.ip != UNSPECIFIED && !IsLoopback(party.ip) && party.mac != NIL && Allowed(party.ip, local)
    then [party] else []
  }

  /** The pairs a frame offers, in order, before repetitions are dropped. */
  function Offers(frame: Frame, local: Option<Network>): seq<Pair>
  {
    if frame.Undecodable? || frame.source == NIL || frame.source == BROADCAST then [] else
    match frame
    case Arp(_, arp) =>
      if arp.None? then [] else ArpParty(arp.value.sender, local) + ArpParty(arp.value.target, local)
    case Ip4(source, ip) =>
      if ip.Some? && ip.value != UNSPECIFIED && !IsLoopback(ip.value) && !IsMulticast(ip.value)
         && Allowed(ip.value, local)
      then [Pair(ip.value, source)] else []
    case OtherType(source) => [Pair(UNSPECIFIED, source)]
  }

  function AllOffers(frames: seq<Frame>, local: Option<Network>): seq<Pair>
  {
    if frames == [] then [] else AllOffers(frames[..|frames| - 1], local) + Offers(frames[|frames| - 1], local)
  }

  class Sniffer {
    const local: Option<Network>
    var seen: set<Pair>
    var queued: seq<Pair>

    ghost predicate Valid()
      reads this
    {
      forall p :: p in seen <==> p in queued
    }

    constructor (local: Option<Network>)
      ensures Valid() && queued == [] && this.local == local
    {
      this.local := local;
      seen := {};
      queued := [];
    }

    /** Queue a pair unless it was queued before. */
    method Send(pair: Pair)
      requires Valid()
      modifies this
      ensures Valid() && queued == AddOnce(old(queued), pair)
    {
      if pair !in seen {
        seen := seen + {pair};
        queued := queued + [pair];
      }
    }

    method OnArpParty(party: Pair)
      requires Valid()
      modifies this
      ensures Valid() && queued == Merge(old(queued), ArpParty(party, local))
    {
      if party.ip != UNSPECIFIED && !IsLoopback(party.ip) && party.mac != NIL {
        if Allowed(party.ip, local) {
          Send(party);
        }
      }
    }

    method OnFrame(frame: Frame)
      requires Valid()
      modifies this
      ensures Valid() && queued == Merge(old(queued), Offers(frame, local))
    {
      if frame.Undecodable? || frame.source == NIL || frame.source == BROADCAST {
        return;
      }
      match frame {
        case Arp(_, arp) =>
          if arp.Some? {
            MergeAppend(queued, ArpParty(arp.value.sender, local), ArpParty(arp.value.target, local));
            OnArpParty(arp.value.sender);
            OnArpParty(arp.value.target);
          }
        case Ip4(source, ip) =>
          if ip.Some? && ip.value != UNSPECIFIED && !IsLoopback(ip.value) && !IsMulticast(ip.value) {
            if Allowed(ip.value, local) {
              Send(Pair(ip.value, source));
            }
          }
        case OtherType(source) =>
          Send(Pair(UNSPECIFIED, source));
      }
    }

    /** The whole capture of a fresh sniffer. */
    method Capture(frames: seq<Frame>)
      requires Valid() && queued == []
      modifies this
      ensures Valid() && queued == Dedup(AllOffers(frames, local))
    {
      var i := 0;
      while i < |frames|
        invariant 0 <= i <= |frames|
        invariant Valid() && queued == Dedup(AllOffers(frames[..i], local))
      {
        assert frames[..i + 1][..i] == frames[..i] && frames[..i + 1][i] == frames[i];
        MergeAppend([], AllOffers(frames[..i], local), Offers(frames[i], local));
        OnFrame(frames[i]);
        i := i + 1;
      }
      assert frames[..|frames|] == frames;
    }
  }

  // ----- What the queue can contain -----

  /** A queued pair has a MAC, and its address is the placeholder or inside the local subnet. */
  predicate Wellformed(pair: Pair, local: Option<Network>)
  {
    && pair.mac != NIL
    && (pair.ip == UNSPECIFIED ==> pair.mac != BROADCAST)
    && (pair.ip != UNSPECIFIED ==> Allowed(pair.ip, local) && !IsLoopback(pair.ip))
  }

  lemma {:induction false} OffersWellformed(frames: seq<Frame>, local: Option<Network>)
    ensures forall p :: p in AllOffers(frames, local) ==> Wellformed(p, local)
  {
    if frames != [] {
      OffersWellformed(frames[..|frames| - 1], local);
    }
  }

  /** The queue never repeats a pair and holds only well-formed ones. */
  lemma QueueWellformed(frames: seq<Frame>, local: Option<Network>)
    ensures Distinct(Dedup(AllOffers(frames, local)))
    ensures forall p :: p in Dedup(AllOffers(frames, local)) ==> Wellformed(p, local)
  {
    OffersWellformed(frames, local);
    MergeMeaning([], AllOffers(frames, local));
  }

  // ----- Where every queued pair comes from, in terms of the frames -----

  /** An address worth recording: not 0.0.0.0, not in 127.0.0.0/8, and in the local subnet when that is known. */
  predicate Usable(ip: Ipv4, local: Option<Network>)
  {
    && ip != 0 && !(0x7f00_0000 <= ip < 0x8000_0000)
    && (local.Some? ==> InSubnet(ip, local.value.base, local.value.prefix))
  }

  /** The MAC field of a frame's header or of an ARP party carries something. */
  predicate NotNil(mac: Mac)
  {
    mac != Mac(0, 0, 0, 0, 0, 0)
  }

  predicate FromSender(frame: Frame, p: Pair, local: Option<Network>)
  {
    frame.Arp? && frame.arp.Some? && p == frame.arp.value.sender && Usable(p.ip, local) && NotNil(p.mac)
  }

  predicate FromTarget(frame: Frame, p: Pair, local: Option<Network>)
  {
    frame.Arp? && frame.arp.Some? && p == frame.arp.value.target && Usable(p.ip, local) && NotNil(p.mac)
  }

  /** The frame shows the pair: as ARP sender or target, as IPv4 source, or as the bare source of any other frame. */
  predicate Shows(frame: Frame, p: Pair, local: Option<Network>)
  {
    && !frame.Undecodable? && NotNil(frame.source) && frame.source != Mac(0xff, 0xff, 0xff, 0xff, 0xff, 0xff)
    && (|| FromSender(frame, p, local) || FromTarget(frame, p, local)
        || (frame.Ip4? && frame.sourceIp == Some(p.ip) && p.mac == frame.source && Usable(p.ip, local)
            && !(0xe000_0000 <= p.ip < 0xf000_0000))
        || (frame.OtherType? && p == Pair(0, frame.source)))
  }

  lemma FirstOctet(ip: Ipv4)
    ensures IsLoopback(ip) <==> 0x7f00_0000 <= ip < 0x8000_0000
    ensures IsMulticast(ip) <==> 0xe000_0000 <= ip < 0xf000_0000
  {
    var upper24 := ip / 0x100;
    var upper16 := upper24 / 0x100;
    assert upper24 * 0x100 <= ip < upper24 * 0x100 + 0x100;
    assert upper16 * 0x100 <= upper24 < upper16 * 0x100 + 0x100;
    assert Octets(ip).0 * 0x100 <= upper16 < Octets(ip).0 * 0x100 + 0x100;
  }

  lemma PartyUsable(party: Pair, local: Option<Network>)
    ensures ArpParty(party, local) == if Usable(party.ip, local) && NotNil(party.mac) then [party] else []
  {
    hide InSubnet, IsLoopback;
    FirstOctet(party.ip);
  }

  /** The pairs a frame offers are those it shows, an ARP sender before its target. */
  lemma OffersShown(frame: Frame, local: Option<Network>)
    ensures forall p :: p in Offers(frame, local) <==> Shows(frame, p, local)
    ensures |Offers(frame, local)| <= 2
    ensures |Offers(frame, local)| == 2 ==>
              FromSender(frame, Offers(frame, local)[0], local) && FromTarget(frame, Offers(frame, local)[1], local)
    ensures forall p :: p in Offers(frame, local) && FromSender(frame, p, local) ==> Offers(frame, local)[0] == p
  {
    hide InSubnet, IsLoopback, IsMulticast, Usable, ArpParty;
    match frame {
      case Arp(_, arp) =>
        if arp.Some? {
          PartyUsable(arp.value.sender, local);
          PartyUsable(arp.value.target, local);
        }
      case Ip4(_, ip) =>
        if ip.Some? {
          FirstOctet(ip.value);
          SourceUsable(ip.value, local);
        }
      case _ =>
    }
  }

  lemma SourceUsable(ip: Ipv4, local: Option<Network>)
    ensures Usable(ip, local) <==> ip != UNSPECIFIED && !IsLoopback(ip) && Allowed(ip, local)
  {
    hide InSubnet, IsLoopback;
    FirstOctet(ip);
  }

  /** Frame `f` is the first to show the pair. */
  ghost predicate FirstShown(frames: seq<Frame>, f: int, p: Pair, local: Option<Network>)
  {
    0 <= f < |frames| && Shows(frames[f], p, local) && forall g :: 0 <= g < f ==> !Shows(frames[g], p, local)
  }

  /** A pair is queued before another: it was first shown by an earlier frame, or as the sender of the same one. */
  ghost predicate QueuedBefore(frames: seq<Frame>, p: Pair, q: Pair, local: Option<Network>)
  {
    exists f, g :: 0 <= f < |frames| && FirstShown(frames, f, p, local) && FirstShown(frames, g, q, local)
                   && (f < g || (f == g && FromSender(frames[f], p, local) && FromTarget(frames[f], q, local)))
  }

  lemma QueueStep(frames: seq<Frame>, local: Option<Network>)
    requires frames != []
    ensures var front, last := frames[..|frames| - 1], frames[|frames| - 1];
            Dedup(AllOffers(frames, local)) == Merge(Dedup(AllOffers(front, local)), Offers(last, local))
  {
    hide Offers;
    MergeAppend([], AllOffers(frames[..|frames| - 1], local), Offers(frames[|frames| - 1], local));
  }

  /** A pair is queued if and only if some frame of the capture shows it. */
  lemma {:induction false} QueueExactly(frames: seq<Frame>, local: Option<Network>, p: Pair)
    ensures p in Dedup(AllOffers(frames, local))
            <==> exists f :: 0 <= f < |frames| && Shows(frames[f], p, local)
  {
    hide Offers, Shows, AllOffers, Dedup;
    if frames == [] {
      NothingQueued(local);
    } else {
      var front, last := frames[..|frames| - 1], frames[|frames| - 1];
      QueueExactly(front, local, p);
      QueueStep(frames, local);
      MergeMeaning(Dedup(AllOffers(front, local)), Offers(last, local));
      OffersShown(last, local);
      assert forall f :: 0 <= f < |front| ==> front[f] == frames[f];
    }
  }

  lemma NothingQueued(local: Option<Network>)
    ensures Dedup(AllOffers([], local)) == []
  {
  }

  lemma FirstShownKept(frames: seq<Frame>, f: int, p: Pair, local: Option<Network>)
    requires frames != [] && FirstShown(frames[..|frames| - 1], f, p, local)
    ensures FirstShown(frames, f, p, local) && frames[f] == frames[..|frames| - 1][f]
  {
    hide Shows;
    assert forall g :: 0 <= g <= f ==> frames[..|frames| - 1][g] == frames[g];
  }

  lemma BeforeKept(frames: seq<Frame>, p: Pair, q: Pair, local: Option<Network>)
    requires frames != [] && QueuedBefore(frames[..|frames| - 1], p, q, local)
    ensures QueuedBefore(frames, p, q, local)
  {
    hide Shows, FirstShown, FromSender, FromTarget;
    var front := frames[..|frames| - 1];
    var f, g :| 0 <= f < |front| && FirstShown(front, f, p, local) && FirstShown(front, g, q, local)
                && (f < g || (f == g && FromSender(front[f], p, local) && FromTarget(front[f], q, local)));
    FirstShownKept(frames, f, p, local);
    FirstShownKept(frames, g, q, local);
  }

  lemma {:induction false} LeastShown(frames: seq<Frame>, f: nat, p: Pair, local: Option<Network>) returns (g: nat)
    requires f < |frames| && Shows(frames[f], p, local)
    ensures FirstShown(frames, g, p, local) && g < |frames|
    decreases f
  {
    hide Shows;
    if h :| 0 <= h < f && Shows(frames[h], p, local) {
      g := LeastShown(frames, h, p, local);
    } else {
      g := f;
    }
  }

  lemma QueuedFirstShown(frames: seq<Frame>, p: Pair, local: Option<Network>) returns (f: nat)
    requires p in Dedup(AllOffers(frames, local))
    ensures FirstShown(frames, f, p, local) && f < |frames|
  {
    hide Shows, AllOffers, Dedup;
    QueueExactly(frames, local, p);
    var g: nat :| g < |frames| && Shows(frames[g], p, local);
    f := LeastShown(frames, g, p, local);
  }

  /** A pair that the last frame adds to the queue is first shown by it. */
  lemma AddedShown(frames: seq<Frame>, p: Pair, local: Option<Network>)
    requires frames != []
    requires p in Offers(frames[|frames| - 1], local) && p !in Dedup(AllOffers(frames[..|frames| - 1], local))
    ensures FirstShown(frames, |frames| - 1, p, local)
  {
    hide Shows, Offers, AllOffers, Dedup;
    var front := frames[..|frames| - 1];
    QueueExactly(front, local, p);
    OffersShown(frames[|frames| - 1], local);
    assert forall f :: 0 <= f < |front| ==> front[f] == frames[f];
  }

  /** The items a merge of at most two adds, and where it puts them. */
  lemma MergeTwo(queue: seq<Pair>, offers: seq<Pair>, i: int, j: int)
    requires |offers| <= 2 && 0 <= i < j < |Merge(queue, offers)|
    ensures var merged := Merge(queue, offers);
            && (j < |queue| ==> merged[j] == queue[j])
            && (i < |queue| ==> merged[i] == queue[i])
            && (j >= |queue| ==> merged[j] in offers && merged[j] !in queue)
            && (i >= |queue| ==>
                  |offers| == 2 && merged[i] == offers[0] && merged[j] == offers[1] && merged[i] !in queue)
  {
    var merged := Merge(queue, offers);
    if |offers| > 0 {
      var one, rest := AddOnce(queue, offers[0]), offers[1..];
      assert merged == Merge(one, rest);
      if |offers| == 1 {
        assert rest == [] && merged == one;
      } else {
        assert rest[0] == offers[1] && rest[1..] == [];
        assert merged == AddOnce(one, offers[1]);
      }
    }
  }

  /** The queue is ordered by first showing: frame by frame, and an ARP sender before its target. */
  lemma {:induction false} QueueOrdered(frames: seq<Frame>, local: Option<Network>, i: int, j: int)
    requires 0 <= i < j < |Dedup(AllOffers(frames, local))|
    ensures var queue := Dedup(AllOffers(frames, local));
            QueuedBefore(frames, queue[i], queue[j], local)
    decreases |frames|
  {
    hide Shows, Offers, AllOffers, Dedup, FirstShown, FromSender, FromTarget;
    if frames == [] {
      NothingQueued(local);
    } else {
      var n := |frames| - 1;
      var queue, offers := Dedup(AllOffers(frames[..n], local)), Offers(frames[n], local);
      QueueStep(frames, local);
      OffersShown(frames[n], local);
      MergeTwo(queue, offers, i, j);
      var merged := Merge(queue, offers);
      if j < |queue| {
        QueueOrdered(frames[..n], local, i, j);
        BeforeKept(frames, queue[i], queue[j], local);
      } else {
        AddedShown(frames, merged[j], local);
        if i < |queue| {
          var f := QueuedFirstShown(frames[..n], queue[i], local);
          FirstShownKept(frames, f, queue[i], local);
        } else {
          AddedShown(frames, merged[i], local);
        }
      }
    }
  }

  /** Frame `f` is the first to show the address, and shows it with this MAC; an ARP sender goes before its target. */
  ghost predicate FirstCaptured(frames: seq<Frame>, f: int, ip: Ipv4, mac: Mac, local: Option<Network>)
  {
    && 0 <= f < |frames| && Shows(frames[f], Pair(ip, mac), local)
    && (forall g, p: Pair :: 0 <= g < f && p.ip == ip ==> !Shows(frames[g], p, local))
    && (forall p :: FromSender(frames[f], p, local) && p.ip == ip ==> p.mac == mac)
  }

  // ----- From the queue to the listener's table -----

  /** The address/MAC pairs a listener run takes from the queue, in order. */
  function Announced(events: seq<PassiveListener.Event>): seq<Pair>
  {
    if events == [] then [] else
      var last := events[|events| - 1];
      Announced(events[..|events| - 1]) + if last.Entry? then [Pair(last.ip, last.mac)] else []
  }

  /** The capture thread is the only sender: a listener run has taken the queue's entries from the front. */
  predicate FedBy(events: seq<PassiveListener.Event>, queue: seq<Pair>)
  {
    Announced(events) <= queue
  }

  /** The MAC of the first pair with address `ip`. */
  function FirstMac(pairs: seq<Pair>, ip: Ipv4): Option<Mac>
  {
    if pairs == [] then None else
      var earlier, last := FirstMac(pairs[..|pairs| - 1], ip), pairs[|pairs| - 1];
      if earlier.None? && last.ip == ip then Some(last.mac) else earlier
  }

  predicate ComesFirst(pairs: seq<Pair>, i: int, ip: Ipv4, mac: Mac)
  {
    0 <= i < |pairs| && pairs[i] == Pair(ip, mac) && forall j :: 0 <= j < i ==> pairs[j].ip != ip
  }

  /** There is a first MAC exactly for the addresses that occur, and no earlier pair has the address. */
  lemma {:induction false} FirstMacMeaning(pairs: seq<Pair>, ip: Ipv4)
    ensures FirstMac(pairs, ip).Some? <==> exists p :: p in pairs && p.ip == ip
    ensures FirstMac(pairs, ip).Some? ==> exists i :: ComesFirst(pairs, i, ip, FirstMac(pairs, ip).value)
  {
    if pairs != [] {
      var n := |pairs| - 1;
      var front, last := pairs[..n], pairs[n];
      FirstMacMeaning(front, ip);
      assert pairs == front + [last];
      assert forall j :: 0 <= j < n ==> front[j] == pairs[j];
      if FirstMac(front, ip).Some? {
        var i :| ComesFirst(front, i, ip, FirstMac(front, ip).value);
        assert ComesFirst(pairs, i, ip, FirstMac(pairs, ip).value);
      } else if last.ip == ip {
        assert forall j :: 0 <= j < n ==> front[j] in front;
        assert ComesFirst(pairs, n, ip, last.mac);
      }
    }
  }

  lemma {:induction false} FirstMacAppend(a: seq<Pair>, b: seq<Pair>, ip: Ipv4)
    ensures FirstMac(a + b, ip) == if FirstMac(a, ip).Some? then FirstMac(a, ip) else FirstMac(b, ip)
    decreases |b|
  {
    if b == [] {
      assert a + b == a;
    } else {
      var n := |b| - 1;
      assert (a + b)[..|a + b| - 1] == a + b[..n];
      FirstMacAppend(a, b[..n], ip);
    }
  }

  /** Dropping repeated pairs keeps the first MAC of every address. */
  lemma {:induction false} FirstMacDedup(pairs: seq<Pair>, ip: Ipv4)
    ensures FirstMac(Dedup(pairs), ip) == FirstMac(pairs, ip)
  {
    hide FirstMac;
    if pairs == [] {
    } else {
      var n := |pairs| - 1;
      var front, last := pairs[..n], pairs[n];
      FirstMacDedup(front, ip);
      assert pairs == front + [last];
      MergeAppend([], front, [last]);
      assert Dedup(pairs) == AddOnce(Dedup(front), last);
      FirstMacAppend(front, [last], ip);
      FirstMacAppend(Dedup(front), [last], ip);
      if last in Dedup(front) && last.ip == ip {
        FirstMacMeaning(Dedup(front), ip);
      }
      if last.ip != ip {
        FirstMacMeaning([last], ip);
      }
    }
  }

  lemma FrameFirstMac(frame: Frame, ip: Ipv4, local: Option<Network>)
    ensures var first := FirstMac(Offers(frame, local), ip);
            && (first.None? ==> forall p: Pair :: p.ip == ip ==> !Shows(frame, p, local))
            && (first.Some? ==> Shows(frame, Pair(ip, first.value), local)
                                && forall p :: FromSender(frame, p, local) && p.ip == ip ==> p.mac == first.value)
  {
    hide FirstMac, Offers, Usable;
    var offers := Offers(frame, local);
    OffersShown(frame, local);
    FirstMacMeaning(offers, ip);
    if FirstMac(offers, ip).Some? {
      var i :| ComesFirst(offers, i, ip, FirstMac(offers, ip).value);
      assert offers[i] in offers;
      forall p | FromSender(frame, p, local) && p.ip == ip
        ensures p.mac == FirstMac(offers, ip).value
      {
        assert Shows(frame, p, local);
        assert p in offers && offers[0] == p;
      }
    }
  }

  /** The first MAC among everything offered is the first captured one. */
  lemma {:induction false} FirstMacCaptured(frames: seq<Frame>, ip: Ipv4, local: Option<Network>)
    ensures var first := FirstMac(AllOffers(frames, local), ip);
            && (first.None? ==> forall f, p: Pair :: 0 <= f < |frames| && p.ip == ip ==> !Shows(frames[f], p, local))
            && (first.Some? ==> exists f :: FirstCaptured(frames, f, ip, first.value, local))
  {
    hide FirstMac, Offers, Shows, FromSender;
    if frames == [] {
      NothingOffered(ip, local);
    } else {
      var n := |frames| - 1;
      var front, last := frames[..n], frames[n];
      FirstMacCaptured(front, ip, local);
      FirstMacAppend(AllOffers(front, local), Offers(last, local), ip);
      FrameFirstMac(last, ip, local);
      assert forall f :: 0 <= f < n ==> front[f] == frames[f];
      var earlier, first := FirstMac(AllOffers(front, local), ip), FirstMac(AllOffers(frames, local), ip);
      if earlier.Some? {
        var f :| FirstCaptured(front, f, ip, earlier.value, local);
        assert FirstCaptured(frames, f, ip, earlier.value, local);
      } else if first.Some? {
        assert FirstCaptured(frames, n, ip, first.value, local);
      }
    }
  }

  lemma NothingOffered(ip: Ipv4, local: Option<Network>)
    ensures FirstMac(AllOffers([], local), ip) == None
  {
  }

  function Recorded(seen: map<Ipv4, Mac>, ip: Ipv4): Option<Mac>
  {
    if ip in seen then Some(seen[ip]) else None
  }

  lemma TableStep(s: PassiveListener.State, e: PassiveListener.Event, tables: PassiveListener.Tables)
    requires e.Entry?
    ensures PassiveListener.Step(s, e, tables).seen
         == if PassiveListener.Placeholder(e.ip, e.mac) || e.ip in s.seen then s.seen else s.seen[e.ip := e.mac]
  {
  }

  /** Fed well-formed pairs, the table holds for every real address the first MAC taken from the queue. */
  lemma {:induction false} TableHoldsFirstMacs(loaded: Records, events: seq<PassiveListener.Event>,
                                               tables: PassiveListener.Tables, local: Option<Network>, ip: Ipv4)
    requires forall p :: p in Announced(events) ==> Wellformed(p, local)
    ensures Recorded(PassiveListener.Run(loaded, events, tables).seen, ip)
         == if ip == UNSPECIFIED then None else FirstMac(Announced(events), ip)
  {
    if events != [] {
      var front, last := events[..|events| - 1], events[|events| - 1];
      TableHoldsFirstMacs(loaded, front, tables, local, ip);
      if last.Entry? {
        var pair := Pair(last.ip, last.mac);
        assert Announced(events)[|Announced(front)|] == pair;
        assert Wellformed(pair, local);
        assert Announced(events)[..|Announced(front)|] == Announced(front);
        TableStep(PassiveListener.Run(loaded, front, tables), last, tables);
      } else {
        assert Announced(events) == Announced(front);
      }
    }
  }

  /**
   * Fed by raw capture, the listener never records the unspecified address, and every address it records is
   * usable and has the MAC of the first frame to show it; every real address taken from the queue is recorded.
   */
  lemma CaptureToTable(frames: seq<Frame>, local: Option<Network>, loaded: Records,
                       events: seq<PassiveListener.Event>, tables: PassiveListener.Tables, ip: Ipv4)
    requires FedBy(events, Dedup(AllOffers(frames, local)))
    ensures var seen := PassiveListener.Run(loaded, events, tables).seen;
            && (ip in seen <==> ip != UNSPECIFIED && exists p :: p in Announced(events) && p.ip == ip)
            && (ip in seen ==> Usable(ip, local) && NotNil(seen[ip])
                               && exists f :: FirstCaptured(frames, f, ip, seen[ip], local))
  {
    hide FirstMac, Announced, AllOffers, PassiveListener.Run, Dedup, InSubnet, IsLoopback, FirstCaptured;
    var offers, taken := AllOffers(frames, local), Announced(events);
    var seen := PassiveListener.Run(loaded, events, tables).seen;
    QueueWellformed(frames, local);
    assert Dedup(offers) == taken + Dedup(offers)[|taken|..];
    TableHoldsFirstMacs(loaded, events, tables, local, ip);
    FirstMacMeaning(taken, ip);
    if ip in seen {
      FirstMacAppend(taken, Dedup(offers)[|taken|..], ip);
      FirstMacDedup(offers, ip);
      FirstMacCaptured(frames, ip, local);
      var i :| ComesFirst(taken, i, ip, seen[ip]);
      assert Wellformed(taken[i], local);
      FirstOctet(ip);
    }
  }
}
