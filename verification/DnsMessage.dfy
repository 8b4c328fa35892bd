/** Messages laid out per sections 4.1.1 to 4.1.4 of RFC 1035, and what the two walks make of them. */
module DnsMessage {
  import opened Prelude
  import opened DnsName
  import opened DnsQuery
  import opened DnsRecords
  import opened HostNames

  type Labels = seq<Bytes>

  /** Record data: of pointer records, of service records (six bytes, then a host), of text records, of others. */
  datatype Payload =
    | Target(name: Labels)
    | Service(info: Bytes, host: Labels)
    | Text(strings: seq<Bytes>)
    | Raw(bytes: Bytes)

  datatype Rr = Rr(owner: Labels, rtype: u16, payload: Payload)

  /** Question names and records; the records of all three sections in order. */
  datatype Message = Message(questions: seq<Labels>, answers: seq<Rr>, authority: seq<Rr>, additional: seq<Rr>)
  {
    function Records(): seq<Rr>
    {
      answers + authority + additional
    }
  }

  /** The payload is of the kind its record type calls for. */
  predicate PayloadFits(rr: Rr)
  {
    match rr.payload
    case Target(_) => rr.rtype == PTR
    case Service(info, _) => rr.rtype == SERVICE && |info| == 6
    case Text(strings) => rr.rtype == TEXT && forall s :: s in strings ==> |s| < 0x100
    case Raw(_) => rr.rtype != PTR && rr.rtype != SERVICE && rr.rtype != TEXT
  }

  /** Length-prefixed character strings. */
  function TextBytes(strings: seq<Bytes>): Bytes
    requires forall s :: s in strings ==> |s| < 0x100
  {
    if strings == [] then [] else [|strings[0]|] + strings[0] + TextBytes(strings[1..])
  }

  // ----- Layout -----

  /** A name is laid out at `pos`: labels ended by a zero byte, or by a pointer to an earlier name. */
  ghost predicate NameLaid(data: Bytes, pos: nat, labels: Labels, next: nat)
    decreases |labels|, pos
  {
    pos < |data| &&
    ((labels == [] && data[pos] == 0 && next == pos + 1)
     || (labels != [] && 1 <= |labels[0]| <= 63 && data[pos] == |labels[0]|
         && pos + 1 + |labels[0]| <= |data| && data[pos + 1..pos + 1 + |labels[0]|] == labels[0]
         && NameLaid(data, pos + 1 + |labels[0]|, labels[1..], next))
     || (pos + 1 < |data| && data[pos] >= COMPRESSED && next == pos + 2
         && var target := PointerTarget(data[pos], data[pos + 1]);
            target < pos && exists end: nat :: NameLaid(data, target, labels, end)))
  }

  ghost predicate QuestionsLaid(data: Bytes, pos: nat, questions: seq<Labels>, next: nat)
    decreases |questions|
  {
    if questions == [] then next == pos else
      exists end: nat :: NameLaid(data, pos, questions[0], end) && end + 4 <= |data|
                         && QuestionsLaid(data, end + 4, questions[1..], next)
  }

  /** Owner, then ten bytes of type, class, time to live and data length, then the data. */
  ghost predicate RrLaid(data: Bytes, pos: nat, rr: Rr, end: nat, next: nat)
  {
    && NameLaid(data, pos, rr.owner, end)
    && end + 10 <= |data| && Word(data, end) == rr.rtype && next == end + 10 + Word(data, end + 8) <= |data|
    && PayloadFits(rr) && PayloadLaid(data, end + 10, rr.payload, next)
  }

  ghost predicate PayloadLaid(data: Bytes, pos: nat, payload: Payload, next: nat)
    requires pos <= next <= |data|
    requires payload.Text? ==> forall s :: s in payload.strings ==> |s| < 0x100
  {
    match payload
    case Target(name) => NameLaid(data, pos, name, next)
    case Service(info, host) =>
      pos + |info| <= next && data[pos..pos + |info|] == info && NameLaid(data, pos + |info|, host, next)
    case Text(strings) => data[pos..next] == TextBytes(strings)
    case Raw(bytes) => data[pos..next] == bytes
  }

  ghost predicate RrsLaid(data: Bytes, pos: nat, rrs: seq<Rr>, next: nat)
    decreases |rrs|
  {
    if rrs == [] then next == pos else
      exists end: nat, after: nat :: RrLaid(data, pos, rrs[0], end, after) && RrsLaid(data, after, rrs[1..], next)
  }

  /** Header counts, question section and record sections of the message are found in `data`. */
  ghost predicate MessageLaid(data: Bytes, msg: Message)
  {
    && |data| >= 12 && QuestionCount(data) == |msg.questions| && RecordCount(data) == |msg.Records()|
    && exists p: nat, end: nat :: QuestionsLaid(data, 12, msg.questions, p) && RrsLaid(data, p, msg.Records(), end)
  }

  // ----- The walks recover a laid-out message -----

  lemma {:induction false} LaidNameDecodes(data: Bytes, pos: nat, labels: Labels, next: nat)
    requires NameLaid(data, pos, labels, next)
    ensures Decode(data, pos) == Some(Name(labels, next))
    decreases |labels|, pos
  {
    hide Decode;
    DecodeHop(data, pos);
    if data[pos] == 0 {
    } else if data[pos] < COMPRESSED {
      LaidNameDecodes(data, pos + 1 + |labels[0]|, labels[1..], next);
      assert labels == [labels[0]] + labels[1..];
    } else {
      var target := PointerTarget(data[pos], data[pos + 1]);
      var end: nat :| NameLaid(data, target, labels, end);
      LaidNameDecodes(data, target, labels, end);
    }
  }

  lemma {:induction false} LaidQuestionsRead(data: Bytes, pos: nat, questions: seq<Labels>, next: nat)
    requires QuestionsLaid(data, pos, questions, next)
    ensures ReadQuestions(data, pos, |questions|) == Questions(questions, next, true)
    decreases |questions|
  {
    hide Decode;
    if questions != [] {
      var end: nat :| NameLaid(data, pos, questions[0], end) && end + 4 <= |data|
                      && QuestionsLaid(data, end + 4, questions[1..], next);
      LaidNameDecodes(data, pos, questions[0], end);
      LaidQuestionsRead(data, end + 4, questions[1..], next);
      assert questions == [questions[0]] + questions[1..];
    }
  }

  /** A visit that saw exactly this record. */
  ghost predicate Saw(data: Bytes, visit: Visit, rr: Rr)
  {
    && visit.Whole? && visit.owner == rr.owner && visit.rtype == rr.rtype
    && visit.rdata + visit.rdlen <= |data|
    && PayloadFits(rr)
    && match rr.payload
       case Target(name) => NameAt(data, visit.rdata) == [name]
       case Service(info, host) => 6 <= visit.rdlen && NameAt(data, visit.rdata + 6) == [host]
       case Text(strings) => data[visit.rdata..visit.rdata + visit.rdlen] == TextBytes(strings)
       case Raw(bytes) => data[visit.rdata..visit.rdata + visit.rdlen] == bytes
  }

  lemma LaidRecordSeen(data: Bytes, pos: nat, rr: Rr, end: nat, after: nat) returns (visit: Visit)
    requires RrLaid(data, pos, rr, end, after)
    ensures Saw(data, visit, rr)
    ensures forall left: nat :: left > 0 ==>
              ReadRecords(data, pos, left) == [visit] + ReadRecords(data, after, left - 1)
  {
    hide Decode, NameLaid, TextBytes, Word;
    LaidNameDecodes(data, pos, rr.owner, end);
    match rr.payload {
      case Target(name) => LaidNameDecodes(data, end + 10, name, after);
      case Service(info, host) => LaidNameDecodes(data, end + 16, host, after);
      case _ =>
    }
    visit := Whole(rr.owner, rr.rtype, end + 10, Word(data, end + 8));
  }

  ghost predicate AllSeen(data: Bytes, visits: seq<Visit>, rrs: seq<Rr>)
  {
    |visits| == |rrs| && forall i :: 0 <= i < |rrs| ==> Saw(data, visits[i], rrs[i])
  }

  /** The record loop visits exactly the laid-out records, in order. */
  lemma {:induction false} LaidRecordsVisited(data: Bytes, pos: nat, rrs: seq<Rr>, next: nat)
    requires RrsLaid(data, pos, rrs, next)
    ensures AllSeen(data, ReadRecords(data, pos, |rrs|), rrs)
    decreases |rrs|
  {
    hide RrLaid, Saw, ReadRecords;
    if rrs == [] {
      NoRecords(data, pos);
    } else {
      var end: nat, after: nat :| RrLaid(data, pos, rrs[0], end, after) && RrsLaid(data, after, rrs[1..], next);
      var visit := LaidRecordSeen(data, pos, rrs[0], end, after);
      LaidRecordsVisited(data, after, rrs[1..], next);
      assert rrs == [rrs[0]] + rrs[1..];
    }
  }

  lemma NoRecords(data: Bytes, pos: nat)
    ensures ReadRecords(data, pos, 0) == []
  {
  }

  function RrNames(rr: Rr): seq<Labels>
  {
    [rr.owner] + if rr.payload.Target? then [rr.payload.name] else []
  }

  function AllRrNames(rrs: seq<Rr>): seq<Labels>
  {
    if rrs == [] then [] else RrNames(rrs[0]) + AllRrNames(rrs[1..])
  }

  /** Question names, then every record's owner followed by its pointer target. */
  function MessageNames(msg: Message): seq<Labels>
  {
    msg.questions + AllRrNames(msg.Records())
  }

  lemma {:induction false} SeenNames(data: Bytes, visits: seq<Visit>, rrs: seq<Rr>)
    requires AllSeen(data, visits, rrs)
    ensures RecordNames(data, visits) == AllRrNames(rrs)
    decreases |rrs|
  {
    hide NameAt;
    if rrs != [] {
      assert Saw(data, visits[0], rrs[0]);
      assert VisitNames(data, visits[0]) == RrNames(rrs[0]);
      SeenNames(data, visits[1..], rrs[1..]);
    }
  }

  /** From any layout of a message both walks report the first occurrences of the service types of all its names. */
  lemma LaidMessageServices(data: Bytes, msg: Message, toText: ToText)
    requires MessageLaid(data, msg)
    ensures ListenerServices(data, toText) == Dedup(NameServices(MessageNames(msg), toText))
    ensures msg.Records() != [] ==> ResolverServices(data, toText) == Dedup(NameServices(MessageNames(msg), toText))
  {
    hide NameServices, Decode, NameLaid, Dedup;
    var p: nat, end: nat :| QuestionsLaid(data, 12, msg.questions, p) && RrsLaid(data, p, msg.Records(), end);
    LaidQuestionsRead(data, 12, msg.questions, p);
    LaidRecordsVisited(data, p, msg.Records(), end);
    SeenNames(data, ReadRecords(data, p, |msg.Records()|), msg.Records());
  }

  /** The message carries the name: as a question, as an owner, or as the target of a pointer record. */
  ghost predicate Carries(msg: Message, name: Labels)
  {
    name in msg.questions
    || exists rr :: rr in msg.Records() && (name == rr.owner || (rr.payload.Target? && name == rr.payload.name))
  }

  lemma {:induction false} RrNamesExactly(rrs: seq<Rr>, name: Labels)
    ensures name in AllRrNames(rrs)
            <==> exists rr :: rr in rrs && (name == rr.owner || (rr.payload.Target? && name == rr.payload.name))
  {
    if rrs != [] {
      RrNamesExactly(rrs[1..], name);
      assert rrs == [rrs[0]] + rrs[1..];
    }
  }

  /** From any layout of a message a walk reports a service if and only if the message carries a service name for it. */
  lemma ServicesReportedExactly(data: Bytes, msg: Message, toText: ToText, x: Bytes)
    requires MessageLaid(data, msg)
    ensures x in ListenerServices(data, toText)
            <==> exists name :: Carries(msg, name) && ServiceText(TextOf(name, toText), x)
    ensures msg.Records() != [] ==>
              (x in ResolverServices(data, toText)
               <==> exists name :: Carries(msg, name) && ServiceText(TextOf(name, toText), x))
  {
    hide MessageLaid, NameServices, ServiceText, TextOf, ListenerServices, ResolverServices, AllRrNames, Dedup;
    LaidMessageServices(data, msg, toText);
    DedupMembers(NameServices(MessageNames(msg), toText));
    NameServicesExactly(MessageNames(msg), toText, x);
    forall name
      ensures name in MessageNames(msg) <==> Carries(msg, name)
    {
      RrNamesExactly(msg.Records(), name);
    }
  }

  // ----- Hostname candidates -----

  function AllTextNames(strings: seq<Bytes>, rules: TextRules): seq<Bytes>
  {
    if strings == [] then [] else TextName(strings[0], rules) + AllTextNames(strings[1..], rules)
  }

  /** The candidates a record carries, independently of where and how it is laid out. */
  function RrHosts(rr: Rr, rules: TextRules): seq<Bytes>
  {
    match rr.payload
    case Target(name) => InstanceName(TextOf(name, rules.toText), rules)
    case Service(_, host) => Candidate(CleanHost(TextOf(host, rules.toText)), rules)
    case Text(strings) => AllTextNames(strings, rules)
    case Raw(_) => if rr.rtype == ADDRESS then Candidate(CleanHost(TextOf(rr.owner, rules.toText)), rules) else []
  }

  function AllRrHosts(rrs: seq<Rr>, rules: TextRules): seq<Bytes>
  {
    if rrs == [] then [] else RrHosts(rrs[0], rules) + AllRrHosts(rrs[1..], rules)
  }

  /** Nothing more can be read from `rest`: it is empty or a string cut short. */
  predicate CutShort(rest: Bytes)
  {
    rest != [] ==> |rest| <= rest[0]
  }

  lemma NothingRead(data: Bytes, pos: nat, end: nat, rules: TextRules)
    requires pos <= end <= |data| && CutShort(data[pos..end])
    ensures TextNames(data, pos, end, rules) == []
  {
  }

  /** Reading text data inverts laying its strings out, whatever is cut off behind them. */
  lemma {:induction false} TextNamesRead(data: Bytes, pos: nat, end: nat, strings: seq<Bytes>, cut: Bytes,
                                         rules: TextRules)
    requires pos <= end <= |data| && (forall s :: s in strings ==> |s| < 0x100)
    requires data[pos..end] == TextBytes(strings) + cut && CutShort(cut)
    ensures TextNames(data, pos, end, rules) == AllTextNames(strings, rules)
    decreases |strings|
  {
    hide TextName, CutShort;
    if strings == [] {
      assert data[pos..end] == cut;
      NothingRead(data, pos, end, rules);
    } else {
      var len := |strings[0]|;
      var rest := TextBytes(strings[1..]) + cut;
      assert TextBytes(strings) + cut == [len] + strings[0] + rest;
      HeadString(data, pos, end, strings[0], rest);
      TextNamesRead(data, pos + 1 + len, end, strings[1..], cut, rules);
    }
  }

  lemma HeadString(data: Bytes, pos: nat, end: nat, text: Bytes, rest: Bytes)
    requires pos <= end <= |data| && |text| < 0x100 && data[pos..end] == [|text|] + text + rest
    ensures pos < end && data[pos] == |text| && pos + 1 + |text| <= end
    ensures data[pos + 1..pos + 1 + |text|] == text && data[pos + 1 + |text|..end] == rest
  {
    var bytes := data[pos..end];
    assert |bytes| == end - pos == 1 + |text| + |rest|;
    var spelled: Bytes := [|text|] + text + rest;
    assert spelled[0] == |text| && spelled[1..1 + |text|] == text && spelled[1 + |text|..] == rest;
    assert forall i :: 0 <= i < |bytes| ==> bytes[i] == data[pos + i];
    assert bytes == spelled;
    assert bytes[0] == data[pos + 0];
    assert data[pos + 1..pos + 1 + |text|] == bytes[1..1 + |text|];
    assert data[pos + 1 + |text|..end] == bytes[1 + |text|..];
  }

  lemma SeenHostsOne(data: Bytes, visit: Visit, rr: Rr, rules: TextRules)
    requires Saw(data, visit, rr)
    ensures VisitHosts(data, visit, rules) == RrHosts(rr, rules)
  {
    hide Decode, TextOf, Candidate, InstanceName, CleanHost, TextNames, TextName;
    match rr.payload {
      case Text(strings) =>
        assert TextBytes(strings) + [] == TextBytes(strings);
        TextNamesRead(data, visit.rdata, visit.rdata + visit.rdlen, strings, [], rules);
      case _ =>
    }
  }

  lemma {:induction false} SeenHosts(data: Bytes, visits: seq<Visit>, rrs: seq<Rr>, rules: TextRules)
    requires AllSeen(data, visits, rrs)
    ensures AllHosts(data, visits, rules) == AllRrHosts(rrs, rules)
    decreases |rrs|
  {
    hide Saw, VisitHosts, RrHosts;
    if rrs != [] {
      assert Saw(data, visits[0], rrs[0]);
      SeenHostsOne(data, visits[0], rrs[0], rules);
      SeenHosts(data, visits[1..], rrs[1..], rules);
    }
  }

  /** From any layout of a message the resolver gathers exactly the candidates its records carry, in order. */
  lemma LaidMessageHosts(data: Bytes, msg: Message, rules: TextRules)
    requires MessageLaid(data, msg)
    ensures ResolverHosts(data, rules) == AllRrHosts(msg.Records(), rules)
  {
    hide Decode, NameLaid, AllRrHosts, AllHosts, ReadRecords;
    var p: nat, end: nat :| QuestionsLaid(data, 12, msg.questions, p) && RrsLaid(data, p, msg.Records(), end);
    LaidQuestionsRead(data, 12, msg.questions, p);
    LaidRecordsVisited(data, p, msg.Records(), end);
    SeenHosts(data, ReadRecords(data, p, |msg.Records()|), msg.Records(), rules);
    NoRrHosts(rules);
  }

  lemma NoRrHosts(rules: TextRules)
    ensures AllRrHosts([], rules) == []
  {
  }

  // ----- What each kind of record contributes -----

  /** A pointer record (type 12) gives the instance in front of its target's first dot. */
  lemma PointerHosts(owner: Labels, target: Labels, labels: Labels, x: Bytes, rules: TextRules)
    requires TextOf(target, rules.toText) == Join(labels) && labels != [] && (forall l :: l in labels ==> 46 !in l)
    requires Underscored(labels[0], x)
    ensures PayloadFits(Rr(owner, 12, Target(target)))
    ensures RrHosts(Rr(owner, 12, Target(target)), rules) == if x == [] || rules.isServiceLabel(x) then [] else [x]
  {
    hide InstanceName, Join, TextOf;
    InstanceNameOf(labels, x, rules);
  }

  /** A service record (type 33) gives its host, and an address record (type 1) its owner, undressed. */
  lemma HostHosts(name: Labels, other: Labels, info: Bytes, bytes: Bytes, h: Bytes, dots: nat, locals: nat,
                  rules: TextRules)
    requires |info| == 6 && DressedHost(TextOf(name, rules.toText), h, dots, locals)
    ensures var hosts := if h == [] || rules.isServiceLabel(h) then [] else [h];
            && PayloadFits(Rr(other, 33, Service(info, name))) && PayloadFits(Rr(name, 1, Raw(bytes)))
            && RrHosts(Rr(other, 33, Service(info, name)), rules) == hosts
            && RrHosts(Rr(name, 1, Raw(bytes)), rules) == hosts
  {
    hide CleanHost, TextOf, DressedHost;
    CleanHostExactly(TextOf(name, rules.toText), h);
  }

  /** A text record (type 16) gives what follows `fn=` or `n=` in its strings; records of other types give nothing. */
  lemma {:induction false} TextHosts(owner: Labels, strings: seq<Bytes>, v: Bytes, rules: TextRules)
    requires forall s :: s in strings ==> |s| < 0x100
    ensures PayloadFits(Rr(owner, 16, Text(strings)))
    ensures v in RrHosts(Rr(owner, 16, Text(strings)), rules)
            <==> exists s :: s in strings && rules.isUtf8(s) && (s == [102, 110, 61] + v || s == [110, 61] + v)
  {
    hide TextName;
    if strings != [] {
      TextHosts(owner, strings[1..], v, rules);
      TextNameExactly(strings[0], v, rules);
      assert strings == [strings[0]] + strings[1..];
    }
  }

  lemma OtherHosts(owner: Labels, rtype: u16, bytes: Bytes, rules: TextRules)
    requires rtype != 1 && rtype != 12 && rtype != 16 && rtype != 33
    ensures PayloadFits(Rr(owner, rtype, Raw(bytes))) && RrHosts(Rr(owner, rtype, Raw(bytes)), rules) == []
  {
  }
}
