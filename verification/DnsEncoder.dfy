/** A reference encoder that compresses every repeated name suffix, and its inversion by the two walks. */
module DnsEncoder {
  import opened Prelude
  import opened DnsName
  import opened DnsQuery
  import opened DnsRecords
  import opened DnsMessage
  import opened HostNames

  /** Offsets, reachable by a pointer, of names already laid out. */
  type Known = map<Labels, nat>

  datatype Coded = Coded(bytes: Bytes, known: Known)

  predicate ValidName(labels: Labels)
  {
    |labels| <= 127 && forall l :: l in labels ==> 1 <= |l| <= 63
  }

  predicate Addressable(known: Known)
  {
    forall l :: l in known ==> known[l] < 0x4000
  }

  /** The bytes of a name placed at offset `at`, and the offsets it makes known. */
  function EncodeName(at: nat, known: Known, labels: Labels): (coded: Coded)
    requires Addressable(known) && forall l :: l in labels ==> |l| <= 63
    ensures Addressable(coded.known) && |coded.bytes| <= 64 * |labels| + 2
    decreases |labels|
  {
    if labels in known then
      Coded([COMPRESSED + known[labels] / 0x100, known[labels] % 0x100], known)
    else if labels == [] then Coded([0], known)
    else
      var rest := EncodeName(at + 1 + |labels[0]|, known, labels[1..]);
      Coded([|labels[0]|] + labels[0] + rest.bytes,
            if at < 0x4000 then rest.known[labels := at] else rest.known)
  }

  datatype Output = Output(data: Bytes, known: Known)

  function AddName(out: Output, labels: Labels): (after: Output)
    requires Addressable(out.known) && ValidName(labels)
    ensures Addressable(after.known) && out.data <= after.data
  {
    var coded := EncodeName(|out.data|, out.known, labels);
    Output(out.data + coded.bytes, coded.known)
  }

  function AddBytes(out: Output, bytes: Bytes): Output
  {
    Output(out.data + bytes, out.known)
  }

  function AddQuestions(out: Output, questions: seq<Labels>): (after: Output)
    requires Addressable(out.known) && forall q :: q in questions ==> ValidName(q)
    ensures Addressable(after.known) && out.data <= after.data
    decreases |questions|
  {
    if questions == [] then out else
      AddQuestions(AddBytes(AddName(out, questions[0]), [0, 12, 0, 1]), questions[1..])
  }

  /** The name that ends the record data, if the data has one, and the bytes in front of it. */
  function PayloadName(payload: Payload): Option<Labels>
  {
    match payload
    case Target(name) => Some(name)
    case Service(_, host) => Some(host)
    case _ => None
  }

  function PayloadLead(rr: Rr): Bytes
    requires PayloadFits(rr)
  {
    match rr.payload
    case Target(_) => []
    case Service(info, _) => info
    case Text(strings) => TextBytes(strings)
    case Raw(bytes) => bytes
  }

  predicate ValidRr(rr: Rr)
  {
    && ValidName(rr.owner) && PayloadFits(rr)
    && match PayloadName(rr.payload)
       case Some(name) => ValidName(name)
       case None => |PayloadLead(rr)| < 0x1_0000
  }

  /** Type, class IN, a time to live and the data length. */
  function Fixed(rtype: u16, length: u16): Bytes
  {
    BigEndian(rtype) + [0, 1, 0, 0, 0, 120] + BigEndian(length)
  }

  function AddRr(out: Output, rr: Rr): (after: Output)
    requires Addressable(out.known) && ValidRr(rr)
    ensures Addressable(after.known) && out.data <= after.data
  {
    var owned, lead := AddName(out, rr.owner), PayloadLead(rr);
    match PayloadName(rr.payload)
    case Some(name) =>
      var coded := EncodeName(|owned.data| + 10 + |lead|, owned.known, name);
      AddName(AddBytes(owned, Fixed(rr.rtype, |lead| + |coded.bytes|) + lead), name)
    case None => AddBytes(owned, Fixed(rr.rtype, |lead|) + lead)
  }

  function AddRrs(out: Output, rrs: seq<Rr>): (after: Output)
    requires Addressable(out.known) && forall rr :: rr in rrs ==> ValidRr(rr)
    ensures Addressable(after.known) && out.data <= after.data
    decreases |rrs|
  {
    if rrs == [] then out else AddRrs(AddRr(out, rrs[0]), rrs[1..])
  }

  predicate ValidMessage(msg: Message)
  {
    && |msg.questions| < 0x1_0000 && |msg.answers| < 0x1_0000
    && |msg.authority| < 0x1_0000 && |msg.additional| < 0x1_0000
    && (forall q :: q in msg.questions ==> ValidName(q))
    && (forall rr :: rr in msg.Records() ==> ValidRr(rr))
  }

  function Header(id: u16, msg: Message): Bytes
    requires ValidMessage(msg)
  {
    BigEndian(id) + [0x84, 0] + BigEndian(|msg.questions|) + BigEndian(|msg.answers|)
    + BigEndian(|msg.authority|) + BigEndian(|msg.additional|)
  }

  function EncodeMessage(id: u16, msg: Message): Bytes
    requires ValidMessage(msg)
  {
    AddRrs(AddQuestions(Output(Header(id, msg), map[]), msg.questions), msg.Records()).data
  }

  // ----- Layouts survive appending -----

  lemma {:induction false} AppendKeepsNameLaid(data: Bytes, more: Bytes, pos: nat, labels: Labels, next: nat)
    requires NameLaid(data, pos, labels, next)
    ensures NameLaid(data + more, pos, labels, next)
    decreases |labels|, pos
  {
    if data[pos] == 0 {
    } else if data[pos] < COMPRESSED {
      AppendKeepsNameLaid(data, more, pos + 1 + |labels[0]|, labels[1..], next);
      assert (data + more)[pos + 1..pos + 1 + |labels[0]|] == labels[0];
    } else {
      var target := PointerTarget(data[pos], data[pos + 1]);
      var end: nat :| NameLaid(data, target, labels, end);
      AppendKeepsNameLaid(data, more, target, labels, end);
    }
  }

  lemma AppendKeepsRrLaid(data: Bytes, more: Bytes, pos: nat, rr: Rr, end: nat, next: nat)
    requires RrLaid(data, pos, rr, end, next)
    ensures RrLaid(data + more, pos, rr, end, next)
  {
    hide NameLaid, TextBytes, Word;
    AppendKeepsNameLaid(data, more, pos, rr.owner, end);
    AppendKeepsWord(data, more, end);
    AppendKeepsWord(data, more, end + 8);
    assert forall a: nat, b: nat :: a <= b <= |data| ==> (data + more)[a..b] == data[a..b];
    match rr.payload {
      case Target(name) => AppendKeepsNameLaid(data, more, end + 10, name, next);
      case Service(info, host) => AppendKeepsNameLaid(data, more, end + 16, host, next);
      case _ =>
    }
  }

  lemma AppendKeepsWord(data: Bytes, more: Bytes, at: nat)
    requires at + 1 < |data|
    ensures Word(data + more, at) == Word(data, at)
  {
  }

  // ----- The encoder lays out what it is given -----

  /** Every known offset really holds its name. */
  ghost predicate Holds(data: Bytes, known: Known)
  {
    Addressable(known) && forall l :: l in known ==> exists end: nat :: NameLaid(data, known[l], l, end)
  }

  lemma AppendKeepsHolds(data: Bytes, more: Bytes, known: Known)
    requires Holds(data, known)
    ensures Holds(data + more, known)
  {
    hide NameLaid;
    forall l | l in known
      ensures exists end: nat :: NameLaid(data + more, known[l], l, end)
    {
      var end: nat :| NameLaid(data, known[l], l, end);
      AppendKeepsNameLaid(data, more, known[l], l, end);
    }
  }

  lemma HoldsOneMore(data: Bytes, known: Known, labels: Labels, at: nat, end: nat)
    requires Holds(data, known) && at < 0x4000 && NameLaid(data, at, labels, end)
    ensures Holds(data, known[labels := at])
  {
    hide NameLaid;
  }

  lemma PointerLaid(front: Bytes, known: Known, labels: Labels)
    requires Holds(front, known) && labels in known
    ensures var bytes := [COMPRESSED + known[labels] / 0x100, known[labels] % 0x100];
            NameLaid(front + bytes, |front|, labels, |front| + 2)
  {
    var bytes := [COMPRESSED + known[labels] / 0x100, known[labels] % 0x100];
    var data := front + bytes;
    var target := known[labels];
    var end: nat :| NameLaid(front, target, labels, end);
    assert target < |front|;
    AppendKeepsNameLaid(front, bytes, target, labels, end);
    assert data[|front|] == bytes[0] && data[|front| + 1] == bytes[1];
    assert PointerTarget(bytes[0], bytes[1]) == target;
  }

  lemma LabelLaid(front: Bytes, labels: Labels, rest: Bytes, next: nat)
    requires labels != [] && 1 <= |labels[0]| <= 63
    requires var more := front + ([|labels[0]|] + labels[0]);
             NameLaid(more + rest, |more|, labels[1..], next)
    ensures NameLaid(front + ([|labels[0]|] + labels[0] + rest), |front|, labels, next)
  {
    hide NameLaid;
    var l := labels[0];
    var data, more := front + ([|l|] + l + rest), front + ([|l|] + l);
    assert data == more + rest && |more| == |front| + 1 + |l|;
    HeadOfMore(front, l, rest);
    FirstLabelLaid(data, |front|, labels, next);
  }

  lemma HeadOfMore(front: Bytes, l: Bytes, rest: Bytes)
    requires |l| < 0x100
    ensures var data := front + ([|l|] + l + rest);
            data[|front|] == |l| && data[|front| + 1..|front| + 1 + |l|] == l
  {
  }

  lemma FirstLabelLaid(data: Bytes, pos: nat, labels: Labels, next: nat)
    requires labels != [] && 1 <= |labels[0]| <= 63 && pos + 1 + |labels[0]| <= |data|
    requires data[pos] == |labels[0]| && data[pos + 1..pos + 1 + |labels[0]|] == labels[0]
    requires NameLaid(data, pos + 1 + |labels[0]|, labels[1..], next)
    ensures NameLaid(data, pos, labels, next)
  {
  }

  /** An encoded name is laid out where it was placed, and everything known stays true. */
  lemma {:induction false} EncodedNameLaid(front: Bytes, known: Known, labels: Labels)
    requires Holds(front, known) && forall l :: l in labels ==> 1 <= |l| <= 63
    ensures var coded := EncodeName(|front|, known, labels);
            && NameLaid(front + coded.bytes, |front|, labels, |front| + |coded.bytes|)
            && Holds(front + coded.bytes, coded.known)
    decreases |labels|
  {
    hide Holds, NameLaid;
    HoldsAddressable(front, known);
    var coded := EncodeName(|front|, known, labels);
    if labels in known {
      AppendKeepsHolds(front, coded.bytes, known);
      PointerLaid(front, known, labels);
    } else if labels == [] {
      AppendKeepsHolds(front, coded.bytes, known);
      RootLaid(front);
    } else {
      var head := [|labels[0]|] + labels[0];
      AppendKeepsHolds(front, head, known);
      EncodedNameLaid(front + head, known, labels[1..]);
      assert |front + head| == |front| + 1 + |labels[0]|;
      RestLaid(front, labels, EncodeName(|front + head|, known, labels[1..]));
    }
  }

  /** A label in front of a laid-out rest makes a laid-out name, known from now on when a pointer can reach it. */
  lemma RestLaid(front: Bytes, labels: Labels, rest: Coded)
    requires labels != [] && 1 <= |labels[0]| <= 63
    requires var more := front + ([|labels[0]|] + labels[0]);
             && NameLaid(more + rest.bytes, |more|, labels[1..], |more| + |rest.bytes|)
             && Holds(more + rest.bytes, rest.known)
    ensures var data := front + ([|labels[0]|] + labels[0] + rest.bytes);
            && NameLaid(data, |front|, labels, |data|)
            && Holds(data, if |front| < 0x4000 then rest.known[labels := |front|] else rest.known)
  {
    hide Holds, NameLaid;
    var head := [|labels[0]|] + labels[0];
    var data := front + (head + rest.bytes);
    assert front + head + rest.bytes == data;
    LabelLaid(front, labels, rest.bytes, |data|);
    if |front| < 0x4000 {
      HoldsOneMore(data, rest.known, labels, |front|, |data|);
    }
  }

  lemma HoldsAddressable(data: Bytes, known: Known)
    requires Holds(data, known)
    ensures Addressable(known)
  {
  }

  lemma RootLaid(front: Bytes)
    ensures NameLaid(front + [0], |front|, [], |front| + 1)
  {
  }

  lemma AddNameLaid(out: Output, labels: Labels)
    requires Holds(out.data, out.known) && ValidName(labels)
    ensures var after := AddName(out, labels);
            NameLaid(after.data, |out.data|, labels, |after.data|) && Holds(after.data, after.known)
  {
    EncodedNameLaid(out.data, out.known, labels);
  }

  lemma {:induction false} AppendKeepsQuestionsLaid(data: Bytes, more: Bytes, pos: nat,
                                                    questions: seq<Labels>, next: nat)
    requires QuestionsLaid(data, pos, questions, next)
    ensures QuestionsLaid(data + more, pos, questions, next)
    decreases |questions|
  {
    hide NameLaid;
    if questions != [] {
      var end: nat :| NameLaid(data, pos, questions[0], end) && end + 4 <= |data|
                      && QuestionsLaid(data, end + 4, questions[1..], next);
      AppendKeepsNameLaid(data, more, pos, questions[0], end);
      AppendKeepsQuestionsLaid(data, more, end + 4, questions[1..], next);
    }
  }

  lemma {:induction false} QuestionsLaidOut(out: Output, questions: seq<Labels>)
    requires Holds(out.data, out.known) && forall q :: q in questions ==> ValidName(q)
    ensures var after := AddQuestions(out, questions);
            Holds(after.data, after.known) && QuestionsLaid(after.data, |out.data|, questions, |after.data|)
    decreases |questions|
  {
    hide NameLaid, Holds, AddName, ValidName;
    HoldsAddressable(out.data, out.known);
    if questions != [] {
      var named := AddName(out, questions[0]);
      var first := AddBytes(named, [0, 12, 0, 1]);
      AddNameLaid(out, questions[0]);
      AppendKeepsHolds(named.data, [0, 12, 0, 1], named.known);
      QuestionsLaidOut(first, questions[1..]);
      var after := AddQuestions(out, questions);
      var rest := after.data[|named.data|..];
      assert after.data == named.data + rest;
      AppendKeepsNameLaid(named.data, rest, |out.data|, questions[0], |named.data|);
      assert |named.data| + 4 == |first.data|;
    }
  }

  lemma FixedWords(front: Bytes, rtype: u16, length: u16, more: Bytes)
    ensures var data := front + Fixed(rtype, length) + more;
            && |Fixed(rtype, length)| == 10
            && Word(data, |front|) == rtype && Word(data, |front| + 8) == length
  {
    var data := front + Fixed(rtype, length) + more;
    assert data[|front|] == rtype / 0x100 && data[|front| + 1] == rtype % 0x100;
    assert data[|front| + 8] == length / 0x100 && data[|front| + 9] == length % 0x100;
  }

  lemma LeadShort(rr: Rr)
    requires ValidRr(rr) && PayloadName(rr.payload).Some?
    ensures |PayloadLead(rr)| <= 6
  {
  }

  /** Fixed part and leading bytes are where a reader looks for them. */
  lemma FixedPartPlaced(front: Bytes, rtype: u16, length: u16, lead: Bytes, more: Bytes)
    ensures var part := front + (Fixed(rtype, length) + lead);
            var data := part + more;
            && |part| == |front| + 10 + |lead|
            && Word(data, |front|) == rtype && Word(data, |front| + 8) == length
            && data[|front| + 10..|front| + 10 + |lead|] == lead
  {
    hide Fixed, Word;
    FixedWords(front, rtype, length, lead + more);
    var fixed := Fixed(rtype, length);
    assert front + (fixed + lead) + more == front + fixed + (lead + more);
  }

  lemma AppendTwiceKeepsNameLaid(data: Bytes, first: Bytes, second: Bytes, pos: nat, labels: Labels, next: nat)
    requires NameLaid(data, pos, labels, next)
    ensures NameLaid(data + first + second, pos, labels, next)
  {
    hide NameLaid;
    AppendKeepsNameLaid(data, first, pos, labels, next);
    AppendKeepsNameLaid(data + first, second, pos, labels, next);
  }

  /** Fixed part, leading bytes and encoded name behind a laid-out owner make a laid-out record. */
  lemma NamedPartLaid(front: Bytes, known: Known, pos: nat, rr: Rr, name: Labels)
    requires Holds(front, known) && ValidRr(rr) && PayloadName(rr.payload) == Some(name)
    requires NameLaid(front, pos, rr.owner, |front|)
    ensures var lead := PayloadLead(rr);
            var coded := EncodeName(|front| + 10 + |lead|, known, name);
            var data := front + (Fixed(rr.rtype, |lead| + |coded.bytes|) + lead) + coded.bytes;
            Holds(data, coded.known) && RrLaid(data, pos, rr, |front|, |data|)
  {
    hide NameLaid, Holds, EncodeName, Fixed, Word, PayloadLead, RrLaid;
    LeadShort(rr);
    HoldsAddressable(front, known);
    var lead := PayloadLead(rr);
    var coded := EncodeName(|front| + 10 + |lead|, known, name);
    var fixed := Fixed(rr.rtype, |lead| + |coded.bytes|);
    var part := front + (fixed + lead);
    FixedPartPlaced(front, rr.rtype, |lead| + |coded.bytes|, lead, coded.bytes);
    AppendKeepsHolds(front, fixed + lead, known);
    EncodedNameLaid(part, known, name);
    AppendTwiceKeepsNameLaid(front, fixed + lead, coded.bytes, pos, rr.owner, |front|);
    NamedRrLaid(part + coded.bytes, pos, rr, |front|, name);
  }

  lemma AddNamedLaid(out: Output, rr: Rr, name: Labels)
    requires Holds(out.data, out.known) && ValidRr(rr) && PayloadName(rr.payload) == Some(name)
    ensures var after := AddRr(out, rr);
            && Holds(after.data, after.known)
            && RrLaid(after.data, |out.data|, rr, |AddName(out, rr.owner).data|, |after.data|)
  {
    hide NameLaid, Holds, EncodeName, Fixed, PayloadLead, RrLaid;
    LeadShort(rr);
    HoldsAddressable(out.data, out.known);
    AddNameLaid(out, rr.owner);
    var owned := AddName(out, rr.owner);
    NamedPartLaid(owned.data, owned.known, |out.data|, rr, name);
    FixedLength(rr.rtype);
  }

  lemma FixedLength(rtype: u16)
    ensures forall length: u16 :: |Fixed(rtype, length)| == 10
  {
  }

  lemma NamedRrLaid(data: Bytes, pos: nat, rr: Rr, end: nat, name: Labels)
    requires ValidRr(rr) && PayloadName(rr.payload) == Some(name)
    requires NameLaid(data, pos, rr.owner, end)
    requires end + 10 + |PayloadLead(rr)| <= |data|
    requires Word(data, end) == rr.rtype && Word(data, end + 8) == |data| - end - 10
    requires data[end + 10..end + 10 + |PayloadLead(rr)|] == PayloadLead(rr)
    requires NameLaid(data, end + 10 + |PayloadLead(rr)|, name, |data|)
    ensures RrLaid(data, pos, rr, end, |data|)
  {
    hide NameLaid, Word;
  }

  lemma AddPlainLaid(out: Output, rr: Rr)
    requires Holds(out.data, out.known) && ValidRr(rr) && PayloadName(rr.payload) == None
    ensures var after := AddRr(out, rr);
            && Holds(after.data, after.known)
            && RrLaid(after.data, |out.data|, rr, |AddName(out, rr.owner).data|, |after.data|)
  {
    hide NameLaid, Holds, EncodeName, ValidName, Fixed, Word, TextBytes;
    HoldsAddressable(out.data, out.known);
    var owned, lead, after := AddName(out, rr.owner), PayloadLead(rr), AddRr(out, rr);
    var fixed := Fixed(rr.rtype, |lead|);
    AddNameLaid(out, rr.owner);
    FixedWords(owned.data, rr.rtype, |lead|, lead);
    assert after.data == owned.data + fixed + lead == owned.data + (fixed + lead);
    AppendKeepsHolds(owned.data, fixed + lead, owned.known);
    AppendKeepsNameLaid(owned.data, fixed + lead, |out.data|, rr.owner, |owned.data|);
    assert after.data[|owned.data| + 10..] == lead;
  }

  lemma {:induction false} RrsLaidOut(out: Output, rrs: seq<Rr>)
    requires Holds(out.data, out.known) && forall rr :: rr in rrs ==> ValidRr(rr)
    ensures var after := AddRrs(out, rrs);
            RrsLaid(after.data, |out.data|, rrs, |after.data|)
    decreases |rrs|
  {
    hide RrLaid, Holds, AddRr, ValidName, AddName;
    HoldsAddressable(out.data, out.known);
    if rrs != [] {
      var first, after := AddRr(out, rrs[0]), AddRrs(out, rrs);
      match PayloadName(rrs[0].payload) {
        case Some(name) => AddNamedLaid(out, rrs[0], name);
        case None => AddPlainLaid(out, rrs[0]);
      }
      RrsLaidOut(first, rrs[1..]);
      var rest := after.data[|first.data|..];
      assert after.data == first.data + rest;
      AppendKeepsRrLaid(first.data, rest, |out.data|, rrs[0], |AddName(out, rrs[0].owner).data|, |first.data|);
    }
  }

  lemma HeaderCounts(id: u16, msg: Message, more: Bytes)
    requires ValidMessage(msg)
    ensures |Header(id, msg)| == 12
    ensures QuestionCount(Header(id, msg) + more) == |msg.questions|
    ensures RecordCount(Header(id, msg) + more) == |msg.Records()|
  {
    var header := Header(id, msg);
    var data := header + more;
    assert forall i :: 0 <= i < 12 ==> data[i] == header[i];
  }

  /** An encoded message is laid out as the format prescribes. */
  lemma EncodedMessageLaid(id: u16, msg: Message)
    requires ValidMessage(msg)
    ensures MessageLaid(EncodeMessage(id, msg), msg)
  {
    hide ValidName, ValidRr, Header, AddQuestions, AddRrs, Holds, QuestionsLaid, RrsLaid, QuestionCount, RecordCount;
    var start := Output(Header(id, msg), map[]);
    NothingKnown(start.data);
    HoldsAddressable(start.data, start.known);
    var asked := AddQuestions(start, msg.questions);
    var all := AddRrs(asked, msg.Records());
    QuestionsLaidOut(start, msg.questions);
    RrsLaidOut(asked, msg.Records());
    var records, sections := all.data[|asked.data|..], all.data[|start.data|..];
    assert all.data == asked.data + records && all.data == start.data + sections;
    AppendKeepsQuestionsLaid(asked.data, records, |start.data|, msg.questions, |asked.data|);
    HeaderCounts(id, msg, sections);
  }

  lemma NothingKnown(data: Bytes)
    ensures Holds(data, map[])
  {
  }

  /**
   * The walks invert the encoder: both report the first occurrences of the service types of the encoded
   * names, and the resolver gathers exactly the hostname candidates of the encoded records.
   */
  lemma WalksInvertEncoder(id: u16, msg: Message, rules: TextRules)
    requires ValidMessage(msg) && msg.Records() != []
    ensures var services := Dedup(NameServices(MessageNames(msg), rules.toText));
            && ResolverServices(EncodeMessage(id, msg), rules.toText) == services
            && ListenerServices(EncodeMessage(id, msg), rules.toText) == services
    ensures ResolverHosts(EncodeMessage(id, msg), rules) == AllRrHosts(msg.Records(), rules)
  {
    hide EncodeMessage, ResolverServices, ListenerServices, ResolverHosts, AllRrHosts, MessageNames, NameServices;
    EncodedMessageLaid(id, msg);
    LaidMessageServices(EncodeMessage(id, msg), msg, rules.toText);
    LaidMessageHosts(EncodeMessage(id, msg), msg, rules);
  }
}
