/** What the two walks make of packets that end early, and in which order they report. */
module DnsTruncation {
  import opened Prelude
  import opened DnsName
  import opened DnsQuery
  import opened DnsRecords
  import opened HostNames
  import opened DnsMessage

  // ----- Order -----

  lemma {:induction false} NameServicesAppend(a: seq<Labels>, b: seq<Labels>, toText: ToText)
    ensures NameServices(a + b, toText) == NameServices(a, toText) + NameServices(b, toText)
    decreases |b|
  {
    hide ServiceOf;
    if b == [] {
      assert a + b == a;
    } else {
      assert (a + b)[..|a + b| - 1] == a + b[..|b| - 1];
      NameServicesAppend(a, b[..|b| - 1], toText);
    }
  }

  /** Records contribute in their order: names for services and candidates for hostnames, owner before target. */
  lemma {:induction false} RecordsInOrder(a: seq<Rr>, b: seq<Rr>, rules: TextRules)
    ensures AllRrNames(a + b) == AllRrNames(a) + AllRrNames(b)
    ensures AllRrHosts(a + b, rules) == AllRrHosts(a, rules) + AllRrHosts(b, rules)
    ensures forall rr: Rr :: AllRrNames([rr]) == if rr.payload.Target? then [rr.owner, rr.payload.name] else [rr.owner]
    ensures forall rr: Rr :: AllRrHosts([rr], rules) == RrHosts(rr, rules)
    decreases |a|
  {
    hide RrHosts;
    forall rr: Rr
      ensures AllRrNames([rr]) == (if rr.payload.Target? then [rr.owner, rr.payload.name] else [rr.owner])
              && AllRrHosts([rr], rules) == RrHosts(rr, rules)
    {
      OneRecord(rr, rules);
    }
    if a == [] {
      assert a + b == b;
    } else {
      assert (a + b)[1..] == a[1..] + b;
      RecordsInOrder(a[1..], b, rules);
    }
  }

  lemma OneRecord(rr: Rr, rules: TextRules)
    ensures AllRrNames([rr]) == if rr.payload.Target? then [rr.owner, rr.payload.name] else [rr.owner]
    ensures AllRrHosts([rr], rules) == RrHosts(rr, rules)
  {
    hide RrHosts;
    var none: seq<Rr> := [];
    assert [rr][1..] == none;
    assert RrNames(rr) + [] == RrNames(rr) && RrHosts(rr, rules) + [] == RrHosts(rr, rules);
  }

  // ----- Packets that end among their records -----

  /** Reading goes on behind laid-out records. */
  lemma {:induction false} LaidThenMore(data: Bytes, pos: nat, rrs: seq<Rr>, next: nat, more: nat)
    requires RrsLaid(data, pos, rrs, next)
    ensures ReadRecords(data, pos, |rrs| + more) == ReadRecords(data, pos, |rrs|) + ReadRecords(data, next, more)
    decreases |rrs|
  {
    hide RrLaid, Saw, ReadRecords;
    if rrs == [] {
      NoRecords(data, pos);
      assert [] + ReadRecords(data, next, more) == ReadRecords(data, next, more);
    } else {
      var end: nat, after: nat :| RrLaid(data, pos, rrs[0], end, after) && RrsLaid(data, after, rrs[1..], next);
      var visit := LaidRecordSeen(data, pos, rrs[0], end, after);
      LaidThenMore(data, after, rrs[1..], next, more);
    }
  }

  /**
   * The packet announces more records than it holds: behind those of the message it ends, or it ends within the fixed
   * part of a record whose owner can still be read.
   */
  ghost predicate EndsBehind(data: Bytes, msg: Message, owner: Option<Labels>)
  {
    && |data| >= 12 && QuestionCount(data) == |msg.questions| && RecordCount(data) > |msg.Records()|
    && exists p: nat, end: nat ::
         QuestionsLaid(data, 12, msg.questions, p) && RrsLaid(data, p, msg.Records(), end)
         && if owner.None? then end >= |data|
            else exists next: nat :: NameLaid(data, end, owner.value, next) && next + 10 > |data|
  }

  function OwnerOf(owner: Option<Labels>): seq<Labels>
  {
    if owner.Some? then [owner.value] else []
  }

  lemma LastVisit(data: Bytes, end: nat, owner: Option<Labels>, left: nat)
    requires left > 0
    requires if owner.None? then end >= |data|
             else exists next: nat :: NameLaid(data, end, owner.value, next) && next + 10 > |data|
    ensures ReadRecords(data, end, left) == if owner.None? then [] else [Cut(owner.value)]
  {
    hide Decode, NameLaid;
    if owner.None? {
      DecodeRules(data, end);
    } else {
      var next: nat :| NameLaid(data, end, owner.value, next) && next + 10 > |data|;
      LaidNameDecodes(data, end, owner.value, next);
    }
  }

  lemma CutAppends(data: Bytes, visits: seq<Visit>, owner: Option<Labels>, rules: TextRules)
    ensures var cut := visits + if owner.None? then [] else [Cut(owner.value)];
            && RecordNames(data, cut) == RecordNames(data, visits) + OwnerOf(owner)
            && AllHosts(data, cut, rules) == AllHosts(data, visits, rules)
    decreases |visits|
  {
    hide Decode;
    var last: seq<Visit> := if owner.None? then [] else [Cut(owner.value)];
    var none: seq<Visit> := [];
    if visits == [] {
      assert visits + last == last;
      if owner.Some? {
        assert last[1..] == none;
        assert [owner.value] + [] == [owner.value];
      }
    } else {
      assert (visits + last)[1..] == visits[1..] + last;
      CutAppends(data, visits[1..], owner, rules);
    }
  }

  /** Both walks report what precedes the end of the packet, the owner of a record cut short included. */
  lemma TruncatedMessageRead(data: Bytes, msg: Message, owner: Option<Labels>, rules: TextRules)
    requires EndsBehind(data, msg, owner)
    ensures var names := MessageNames(msg) + OwnerOf(owner);
            && ListenerServices(data, rules.toText) == Dedup(NameServices(names, rules.toText))
            && ResolverServices(data, rules.toText) == Dedup(NameServices(names, rules.toText))
    ensures ResolverHosts(data, rules) == AllRrHosts(msg.Records(), rules)
  {
    hide NameServices, Decode, NameLaid, Dedup, ReadRecords, ReadQuestions, AllHosts, AllRrHosts, RecordNames,
         AllRrNames;
    var p: nat, end: nat :|
      QuestionsLaid(data, 12, msg.questions, p) && RrsLaid(data, p, msg.Records(), end)
      && if owner.None? then end >= |data|
         else exists next: nat :: NameLaid(data, end, owner.value, next) && next + 10 > |data|;
    var rrs := msg.Records();
    var left := RecordCount(data) - |rrs|;
    var visits := ReadRecords(data, p, |rrs|);
    LaidQuestionsRead(data, 12, msg.questions, p);
    LaidRecordsVisited(data, p, rrs, end);
    LaidThenMore(data, p, rrs, end, left);
    LastVisit(data, end, owner, left);
    SeenNames(data, visits, rrs);
    SeenHosts(data, visits, rrs, rules);
    CutAppends(data, visits, owner, rules);
    assert msg.questions + (AllRrNames(rrs) + OwnerOf(owner)) == MessageNames(msg) + OwnerOf(owner);
  }

  /** A text record (type 16) cut off by the end of the packet still gives the names in its complete strings. */
  lemma TruncatedTextRead(data: Bytes, owner: Labels, rdata: nat, rdlen: u16, strings: seq<Bytes>, cut: Bytes,
                          rules: TextRules)
    requires rdata <= |data| < rdata + rdlen && (forall s :: s in strings ==> |s| < 0x100)
    requires data[rdata..] == TextBytes(strings) + cut && CutShort(cut)
    ensures VisitHosts(data, Whole(owner, 16, rdata, rdlen), rules) == AllTextNames(strings, rules)
  {
    hide TextName, TextBytes, TextNames;
    assert data[rdata..|data|] == data[rdata..];
    TextNamesRead(data, rdata, |data|, strings, cut, rules);
  }

  // ----- Packets whose questions cannot all be read -----

  lemma {:induction false} QuestionsThenUnreadable(data: Bytes, pos: nat, questions: seq<Labels>, next: nat, more: nat)
    requires QuestionsLaid(data, pos, questions, next) && Decode(data, next).None? && more > 0
    ensures ReadQuestions(data, pos, |questions| + more) == Questions(questions, next, false)
    decreases |questions|
  {
    hide Decode, NameLaid;
    if questions != [] {
      var end: nat :| NameLaid(data, pos, questions[0], end) && end + 4 <= |data|
                      && QuestionsLaid(data, end + 4, questions[1..], next);
      LaidNameDecodes(data, pos, questions[0], end);
      QuestionsThenUnreadable(data, end + 4, questions[1..], next, more);
      assert questions == [questions[0]] + questions[1..];
    }
  }

  /**
   * When a question behind some laid-out ones cannot be read, the listener reports the services of those before it as
   * often as they are asked for; the resolver reports each once, provided that records are announced, and no hostname.
   */
  lemma UnreadableQuestion(data: Bytes, questions: seq<Labels>, next: nat, rules: TextRules)
    requires |data| >= 12 && QuestionCount(data) > |questions|
    requires QuestionsLaid(data, 12, questions, next) && Decode(data, next).None?
    ensures ListenerServices(data, rules.toText) == NameServices(questions, rules.toText)
    ensures ResolverServices(data, rules.toText)
         == if RecordCount(data) == 0 then [] else Dedup(NameServices(questions, rules.toText))
    ensures ResolverHosts(data, rules) == []
  {
    hide Decode, NameServices, Dedup, NameLaid, ReadQuestions;
    QuestionsThenUnreadable(data, 12, questions, next, QuestionCount(data) - |questions|);
    assert ReadRecords(data, next, RecordCount(data)) == [];
    assert questions + [] == questions;
  }
}
