/** Reading a possibly compressed domain name (sections 3.1 and 4.1.4 of RFC 1035, as the code reads them). */
module DnsName {
  import opened Prelude

  type Bytes = seq<byte>

  /** Conversion of label bytes to text; the loops work for whatever conversion is used. */
  type ToText = Bytes -> Bytes

  const DOT: byte := 46
  const UNDERSCORE: byte := 95

  /** The reader takes any length byte below 0xC0 at face value and anything else as a pointer. */
  const COMPRESSED: byte := 0xC0

  /** The offset in the low fourteen bits of a pointer. */
  function PointerTarget(high: byte, low: byte): nat
    requires high >= COMPRESSED
  {
    var page: nat, offset: nat := high - COMPRESSED, low;
    page * 0x100 + offset
  }

  // ----- The reference walk -----

  /** What is found at one position of the walk. */
  datatype Hop =
    | Stop                               // the zero byte
    | Label(text: Bytes, next: nat)      // a label; the walk goes on behind it
    | Jump(target: nat, after: nat)      // a pointer; the walk goes on at its target
    | Broken                             // past the end of the packet

  function HopAt(data: Bytes, pos: nat): Hop
  {
    if pos >= |data| then Broken
    else if data[pos] == 0 then Stop
    else if data[pos] >= COMPRESSED then
      if pos + 1 >= |data| then Broken else Jump(PointerTarget(data[pos], data[pos + 1]), pos + 2)
    else if pos + 1 + data[pos] > |data| then Broken
    else Label(data[pos + 1..pos + 1 + data[pos]], pos + 1 + data[pos])
  }

  predicate LeadsTo(data: Bytes, pos: nat, next: nat)
  {
    match HopAt(data, pos)
    case Label(_, after) => next == after
    case Jump(target, _) => next == target
    case _ => false
  }

  /** The walk from `pos` reaches a zero byte after exactly `n` hops. */
  predicate StopsIn(data: Bytes, pos: nat, n: nat)
    decreases n
  {
    match HopAt(data, pos)
    case Stop => n == 0
    case Label(_, next) => n > 0 && StopsIn(data, next, n - 1)
    case Jump(target, _) => n > 0 && StopsIn(data, target, n - 1)
    case Broken => false
  }

  function LabelsOf(data: Bytes, pos: nat, n: nat): seq<Bytes>
    requires StopsIn(data, pos, n)
    decreases n
  {
    match HopAt(data, pos)
    case Stop => []
    case Label(text, next) => [text] + LabelsOf(data, next, n - 1)
    case Jump(target, _) => LabelsOf(data, target, n - 1)
  }

  /** Where reading resumes: behind the first pointer, or behind the zero byte when there is none. */
  function EndOf(data: Bytes, pos: nat, n: nat): nat
    requires StopsIn(data, pos, n)
    decreases n
  {
    match HopAt(data, pos)
    case Stop => pos + 1
    case Label(_, next) => EndOf(data, next, n - 1)
    case Jump(_, after) => after
  }

  datatype Name = Name(labels: seq<Bytes>, next: nat)

  ghost predicate Stops(data: Bytes, pos: nat)
  {
    exists n: nat :: StopsIn(data, pos, n)
  }

  /** The name at `pos`, defined exactly when the walk reaches a zero byte. */
  ghost function Decode(data: Bytes, pos: nat): Option<Name>
  {
    if Stops(data, pos) then
      var n: nat :| StopsIn(data, pos, n);
      Some(Name(LabelsOf(data, pos, n), EndOf(data, pos, n)))
    else None
  }

  lemma {:induction false} StopsOnce(data: Bytes, pos: nat, m: nat, n: nat)
    requires StopsIn(data, pos, m) && StopsIn(data, pos, n)
    ensures m == n
    decreases m
  {
    match HopAt(data, pos) {
      case Stop =>
      case Label(_, next) => StopsOnce(data, next, m - 1, n - 1);
      case Jump(target, _) => StopsOnce(data, target, m - 1, n - 1);
    }
  }

  lemma DecodeIs(data: Bytes, pos: nat, n: nat)
    requires StopsIn(data, pos, n)
    ensures Decode(data, pos) == Some(Name(LabelsOf(data, pos, n), EndOf(data, pos, n)))
  {
    forall m: nat | StopsIn(data, pos, m)
      ensures m == n
    {
      StopsOnce(data, pos, m, n);
    }
  }

  /** One hop of a decoded name. */
  lemma DecodeHop(data: Bytes, pos: nat)
    ensures Decode(data, pos) ==
            match HopAt(data, pos)
            case Stop => Some(Name([], pos + 1))
            case Label(text, next) =>
              (match Decode(data, next)
               case None => None
               case Some(rest) => Some(Name([text] + rest.labels, rest.next)))
            case Jump(target, after) =>
              (match Decode(data, target)
               case None => None
               case Some(rest) => Some(Name(rest.labels, after)))
            case Broken => None
  {
    match HopAt(data, pos) {
      case Stop =>
        DecodeIs(data, pos, 0);
      case Label(_, next) =>
        HopDecodes(data, pos, next);
      case Jump(target, _) =>
        HopDecodes(data, pos, target);
      case Broken =>
    }
  }

  lemma HopDecodes(data: Bytes, pos: nat, next: nat)
    requires LeadsTo(data, pos, next)
    ensures Stops(data, pos) <==> Stops(data, next)
    ensures Stops(data, next) ==>
              Decode(data, pos) == Some(Name(
                if HopAt(data, pos).Label? then [HopAt(data, pos).text] + Decode(data, next).value.labels
                else Decode(data, next).value.labels,
                if HopAt(data, pos).Label? then Decode(data, next).value.next else HopAt(data, pos).after))
  {
    if Stops(data, pos) {
      var n: nat :| StopsIn(data, pos, n);
      assert StopsIn(data, next, n - 1);
    }
    if Stops(data, next) {
      var n: nat :| StopsIn(data, next, n);
      assert StopsIn(data, pos, n + 1);
      DecodeIs(data, next, n);
      DecodeIs(data, pos, n + 1);
    }
  }

  /**
   * What is read at one position, byte by byte: the end of the name at a zero byte, a label behind a length byte below
   * 192, and whatever the fourteen-bit offset leads to otherwise; nothing where the packet is too short for it.
   */
  lemma DecodeRules(data: Bytes, pos: nat)
    ensures pos >= |data| ==> Decode(data, pos) == None
    ensures pos < |data| && data[pos] == 0 ==> Decode(data, pos) == Some(Name([], pos + 1))
    ensures pos < |data| && 1 <= data[pos] <= 191 ==>
              var next := pos + 1 + data[pos];
              if next > |data| || Decode(data, next).None? then Decode(data, pos) == None
              else Decode(data, pos)
                   == Some(Name([data[pos + 1..next]] + Decode(data, next).value.labels, Decode(data, next).value.next))
    ensures pos < |data| && data[pos] >= 192 ==>
              if pos + 1 >= |data| then Decode(data, pos) == None
              else var page: nat, offset: nat := data[pos] - 192, data[pos + 1];
                   var target := 256 * page + offset;
                   if Decode(data, target).None? then Decode(data, pos) == None
                   else Decode(data, pos) == Some(Name(Decode(data, target).value.labels, pos + 2))
  {
    hide Decode;
    DecodeHop(data, pos);
  }

  // ----- The loop with its set of visited positions -----

  function Positions(n: nat): (all: set<nat>)
    ensures forall i: nat :: i in all <==> i < n
  {
    if n == 0 then {} else Positions(n - 1) + {n - 1}
  }

  /** The positions a stopping walk passes through. */
  ghost function Trail(data: Bytes, pos: nat, n: nat): set<nat>
    requires StopsIn(data, pos, n)
    decreases n
  {
    {pos} +
    match HopAt(data, pos)
    case Stop => {}
    case Label(_, next) => Trail(data, next, n - 1)
    case Jump(target, _) => Trail(data, target, n - 1)
  }

  /** From any position of a stopping walk the walk stops, no later than from its start. */
  lemma {:induction false} TrailStops(data: Bytes, pos: nat, n: nat, q: nat) returns (m: nat)
    requires StopsIn(data, pos, n) && q in Trail(data, pos, n)
    ensures m <= n && StopsIn(data, q, m)
    decreases n
  {
    if q == pos {
      m := n;
    } else {
      match HopAt(data, pos) {
        case Label(_, next) => m := TrailStops(data, next, n - 1, q);
        case Jump(target, _) => m := TrailStops(data, target, n - 1, q);
      }
    }
  }

  /** A stopping walk never comes back to its start. */
  lemma NeverReturns(data: Bytes, pos: nat, n: nat, next: nat)
    requires StopsIn(data, pos, n) && n > 0 && StopsIn(data, next, n - 1)
    ensures pos !in Trail(data, next, n - 1)
  {
    if pos in Trail(data, next, n - 1) {
      var m := TrailStops(data, next, n - 1, pos);
      StopsOnce(data, pos, m, n);
    }
  }

  /** No stopping walk from `pos` passes through a visited position. */
  ghost predicate Unvisited(data: Bytes, pos: nat, visited: set<nat>)
  {
    forall n: nat :: StopsIn(data, pos, n) ==> Trail(data, pos, n) !! visited
  }

  /** The set of visited positions only ever rejects walks that never stop. */
  lemma RepeatNeverStops(data: Bytes, pos: nat, visited: set<nat>)
    requires Unvisited(data, pos, visited) && pos in visited
    ensures Decode(data, pos) == None
  {
    forall n: nat | StopsIn(data, pos, n)
      ensures pos in Trail(data, pos, n)
    {
    }
  }

  lemma StaysUnvisited(data: Bytes, pos: nat, next: nat, visited: set<nat>)
    requires Unvisited(data, pos, visited) && LeadsTo(data, pos, next)
    ensures Unvisited(data, next, visited + {pos})
  {
    forall n: nat | StopsIn(data, next, n)
      ensures Trail(data, next, n) !! visited + {pos}
    {
      assert StopsIn(data, pos, n + 1);
      assert Trail(data, pos, n + 1) == {pos} + Trail(data, next, n);
      NeverReturns(data, pos, n + 1, next);
    }
  }

  // ----- Text of a name -----

  function Join(parts: seq<Bytes>): Bytes
  {
    if parts == [] then [] else if |parts| == 1 then parts[0] else parts[0] + [DOT] + Join(parts[1..])
  }

  function Texts(labels: seq<Bytes>, toText: ToText): seq<Bytes>
  {
    if labels == [] then [] else [toText(labels[0])] + Texts(labels[1..], toText)
  }

  function TextOf(labels: seq<Bytes>, toText: ToText): Bytes
  {
    Join(Texts(labels, toText))
  }

  /** A faithful conversion leaves the labels as they are. */
  lemma {:induction false} FaithfulTexts(labels: seq<Bytes>, toText: ToText)
    requires forall l :: l in labels ==> toText(l) == l
    ensures Texts(labels, toText) == labels
  {
    if labels != [] {
      FaithfulTexts(labels[1..], toText);
      assert labels == [labels[0]] + labels[1..];
    }
  }

  /** What the reader returns for a decoded name. */
  function Read(name: Option<Name>, toText: ToText): Option<(Bytes, nat)>
  {
    if name.None? then None else Some((TextOf(name.value.labels, toText), name.value.next))
  }

  /** What the loop will return, given what it has gathered and what is still to be walked. */
  ghost function Outcome(parts: seq<Bytes>, endPos: Option<nat>, rest: Option<Name>, toText: ToText)
    : Option<(Bytes, nat)>
  {
    if rest.None? then None
    else Some((Join(parts + Texts(rest.value.labels, toText)), if endPos.Some? then endPos.value else rest.value.next))
  }

  lemma OutcomeStart(rest: Option<Name>, toText: ToText)
    ensures Outcome([], None, rest, toText) == Read(rest, toText)
  {
    if rest.Some? {
      assert [] + Texts(rest.value.labels, toText) == Texts(rest.value.labels, toText);
    }
  }

  /** One turn of the loop keeps the outcome. */
  lemma OutcomeStep(data: Bytes, pos: nat, parts: seq<Bytes>, endPos: Option<nat>, toText: ToText)
    ensures HopAt(data, pos).Stop? ==>
              Outcome(parts, endPos, Decode(data, pos), toText)
              == Some((Join(parts), if endPos.Some? then endPos.value else pos + 1))
    ensures HopAt(data, pos).Label? ==>
              Outcome(parts, endPos, Decode(data, pos), toText)
              == Outcome(parts + [toText(HopAt(data, pos).text)], endPos, Decode(data, HopAt(data, pos).next), toText)
    ensures HopAt(data, pos).Jump? ==>
              Outcome(parts, endPos, Decode(data, pos), toText)
              == Outcome(parts, if endPos.None? then Some(HopAt(data, pos).after) else endPos,
                         Decode(data, HopAt(data, pos).target), toText)
    ensures HopAt(data, pos).Broken? ==> Outcome(parts, endPos, Decode(data, pos), toText) == None
  {
    DecodeHop(data, pos);
    var hop := HopAt(data, pos);
    if hop.Stop? {
      assert parts + [] == parts;
    } else if hop.Label? && Decode(data, hop.next).Some? {
      var labels := Decode(data, hop.next).value.labels;
      assert ([hop.text] + labels)[1..] == labels;
      assert parts + [toText(hop.text)] + Texts(labels, toText) == parts + ([toText(hop.text)] + Texts(labels, toText));
    }
  }

  /** Follow labels and pointers from `start` to the end of the name. */
  method DecodeLabel(data: Bytes, start: nat, toText: ToText) returns (result: Option<(Bytes, nat)>)
    ensures result == Read(Decode(data, start), toText)
  {
    OutcomeStart(Decode(data, start), toText);
    var pos: nat := start;
    var parts: seq<Bytes> := [];
    var visited: set<nat> := {};
    var endPos: Option<nat> := None;
    while true
      invariant Unvisited(data, pos, visited)
      invariant Outcome(parts, endPos, Decode(data, pos), toText) == Read(Decode(data, start), toText)
      decreases Positions(|data|) - visited
    {
      OutcomeStep(data, pos, parts, endPos, toText);
      if pos >= |data| {
        return None;
      }
      if pos in visited {
        RepeatNeverStops(data, pos, visited);
        return None;
      }
      ghost var at, before := pos, visited;
      visited := visited + {pos};
      var b := data[pos];
      if b == 0 {
        if endPos.None? {
          endPos := Some(pos + 1);
        }
        break;
      }
      if b >= COMPRESSED {
        if pos + 1 >= |data| {
          return None;
        }
        if endPos.None? {
          endPos := Some(pos + 2);
        }
        pos := PointerTarget(b, data[pos + 1]);
        StaysUnvisited(data, at, pos, before);
        continue;
      }
      var len := b;
      pos := pos + 1;
      var end := pos + len;
      if end > |data| {
        return None;
      }
      parts := parts + [toText(data[pos..end])];
      pos := end;
      StaysUnvisited(data, at, pos, before);
    }
    result := Some((Join(parts), if endPos.Some? then endPos.value else pos + 1));
  }

  // ----- Range and stability -----

  lemma {:induction false} EndInRange(data: Bytes, pos: nat, n: nat)
    requires StopsIn(data, pos, n)
    ensures pos < EndOf(data, pos, n) <= |data|
    decreases n
  {
    match HopAt(data, pos) {
      case Stop =>
      case Label(_, next) => EndInRange(data, next, n - 1);
      case Jump(_, _) =>
    }
  }

  /** Reading a name always moves forward and stays inside the packet. */
  lemma DecodeInRange(data: Bytes, pos: nat)
    requires Decode(data, pos).Some?
    ensures pos < Decode(data, pos).value.next <= |data|
  {
    var n: nat :| StopsIn(data, pos, n);
    DecodeIs(data, pos, n);
    EndInRange(data, pos, n);
  }

  lemma {:induction false} AppendKeepsWalk(data: Bytes, more: Bytes, pos: nat, n: nat)
    requires StopsIn(data, pos, n)
    ensures StopsIn(data + more, pos, n)
    ensures LabelsOf(data + more, pos, n) == LabelsOf(data, pos, n) && EndOf(data + more, pos, n) == EndOf(data, pos, n)
    decreases n
  {
    assert HopAt(data + more, pos) == HopAt(data, pos);
    match HopAt(data, pos) {
      case Stop =>
      case Label(_, next) => AppendKeepsWalk(data, more, next, n - 1);
      case Jump(target, _) => AppendKeepsWalk(data, more, target, n - 1);
    }
  }

  /** Bytes appended to a packet never change a name that was already readable. */
  lemma AppendKeepsName(data: Bytes, more: Bytes, pos: nat)
    requires Decode(data, pos).Some?
    ensures Decode(data + more, pos) == Decode(data, pos)
  {
    var n: nat :| StopsIn(data, pos, n);
    AppendKeepsWalk(data, more, pos, n);
    DecodeIs(data, pos, n);
    DecodeIs(data + more, pos, n);
  }

  // ----- When a name is refused -----

  /** At least `n` hops can be made from `pos`. */
  predicate GoesOn(data: Bytes, pos: nat, n: nat)
    decreases n
  {
    n == 0 ||
    match HopAt(data, pos)
    case Label(_, next) => GoesOn(data, next, n - 1)
    case Jump(target, _) => GoesOn(data, target, n - 1)
    case _ => false
  }

  /** After exactly `n` hops the walk runs past the end of the packet. */
  predicate BreaksIn(data: Bytes, pos: nat, n: nat)
    decreases n
  {
    match HopAt(data, pos)
    case Broken => n == 0
    case Label(_, next) => n > 0 && BreaksIn(data, next, n - 1)
    case Jump(target, _) => n > 0 && BreaksIn(data, target, n - 1)
    case Stop => false
  }

  lemma {:induction false} EndsSomehow(data: Bytes, pos: nat, n: nat)
    requires !GoesOn(data, pos, n)
    ensures exists m: nat :: m < n && (StopsIn(data, pos, m) || BreaksIn(data, pos, m))
    decreases n
  {
    match HopAt(data, pos) {
      case Stop =>
        assert StopsIn(data, pos, 0);
      case Broken =>
        assert BreaksIn(data, pos, 0);
      case Label(_, next) =>
        EndsSomehow(data, next, n - 1);
        var m: nat :| m < n - 1 && (StopsIn(data, next, m) || BreaksIn(data, next, m));
        assert StopsIn(data, pos, m + 1) || BreaksIn(data, pos, m + 1);
      case Jump(target, _) =>
        EndsSomehow(data, target, n - 1);
        var m: nat :| m < n - 1 && (StopsIn(data, target, m) || BreaksIn(data, target, m));
        assert StopsIn(data, pos, m + 1) || BreaksIn(data, pos, m + 1);
    }
  }

  lemma {:induction false} StoppingIsFinite(data: Bytes, pos: nat, n: nat, m: nat)
    requires StopsIn(data, pos, n)
    ensures !GoesOn(data, pos, n + 1) && !BreaksIn(data, pos, m)
    decreases n
  {
    match HopAt(data, pos) {
      case Stop =>
      case Label(_, next) => StoppingIsFinite(data, next, n - 1, if m == 0 then 0 else m - 1);
      case Jump(target, _) => StoppingIsFinite(data, target, n - 1, if m == 0 then 0 else m - 1);
    }
  }

  /** A name is refused exactly when its walk leaves the packet or goes on for ever. */
  lemma RefusedExactly(data: Bytes, pos: nat)
    ensures Decode(data, pos).None?
            <==> (exists n: nat :: BreaksIn(data, pos, n)) || (forall n: nat :: GoesOn(data, pos, n))
  {
    if Stops(data, pos) {
      var n: nat :| StopsIn(data, pos, n);
      StoppingIsFinite(data, pos, n, 0);
      forall m: nat
        ensures !GoesOn(data, pos, n + 1) && !BreaksIn(data, pos, m)
      {
        StoppingIsFinite(data, pos, n, m);
      }
    } else if exists n: nat :: !GoesOn(data, pos, n) {
      var n: nat :| !GoesOn(data, pos, n);
      EndsSomehow(data, pos, n);
    }
  }
}
