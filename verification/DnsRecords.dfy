/** The two separately written walks over a response that collect service types. */
module DnsRecords {
  import opened Prelude
  import opened DnsName
  import opened DnsQuery

  const TCP: Bytes := [95, 116, 99, 112]
  const UDP: Bytes := [95, 117, 100, 112]
  const PTR: u16 := 12

  // ----- Service types -----

  function TrimUnderscores(s: Bytes): Bytes
  {
    if s != [] && s[0] == UNDERSCORE then TrimUnderscores(s[1..]) else s
  }

  /** `_x._tcp...` and `_x._udp...` name the service type `x`. */
  function ExtractServiceType(name: Bytes): Option<Bytes>
  {
    if name == [] || name[0] != UNDERSCORE then None else
      var parts := Split(name);
      if |parts| >= 2 && (parts[1] == TCP || parts[1] == UDP) && |parts[0]| > 1 && TrimUnderscores(parts[0]) != []
      then Some(TrimUnderscores(parts[0])) else None
  }

  /** The service type of a name, as a list of at most one. */
  function ServiceOf(labels: seq<Bytes>, toText: ToText): seq<Bytes>
  {
    var service := ExtractServiceType(TextOf(labels, toText));
    if service.Some? then [service.value] else []
  }

  // ----- What is walked -----

  function Word(data: Bytes, at: nat): u16
    requires at + 1 < |data|
  {
    var high: nat, low: nat := data[at], data[at + 1];
    high * 0x100 + low
  }

  /** The question section: the names read, where reading stopped, and whether every name was readable. */
  datatype Questions = Questions(names: seq<seq<Bytes>>, pos: nat, complete: bool)

  ghost function ReadQuestions(data: Bytes, pos: nat, count: nat): Questions
    decreases count
  {
    if count == 0 then Questions([], pos, true) else
    match Decode(data, pos)
    case None => Questions([], pos, false)
    case Some(name) =>
      var rest := ReadQuestions(data, name.next + 4, count - 1);
      Questions([name.labels] + rest.names, rest.pos, rest.complete)
  }

  /** A resource record as visited: an owner alone when the packet ends before its fixed part. */
  datatype Visit =
    | Cut(owner: seq<Bytes>)
    | Whole(owner: seq<Bytes>, rtype: u16, rdata: nat, rdlen: u16)

  ghost function ReadRecords(data: Bytes, pos: nat, count: nat): seq<Visit>
    decreases count
  {
    if count == 0 then [] else
    match Decode(data, pos)
    case None => []
    case Some(name) =>
      if name.next + 10 > |data| then [Cut(name.labels)] else
        var rdlen := Word(data, name.next + 8);
        [Whole(name.labels, Word(data, name.next), name.next + 10, rdlen)]
        + ReadRecords(data, name.next + 10 + rdlen, count - 1)
  }

  function NameServices(names: seq<seq<Bytes>>, toText: ToText): seq<Bytes>
  {
    if names == [] then [] else
      NameServices(names[..|names| - 1], toText) + ServiceOf(names[|names| - 1], toText)
  }

  /** The name readable at `pos`, as a list of at most one. */
  ghost function NameAt(data: Bytes, pos: nat): seq<seq<Bytes>>
  {
    if Decode(data, pos).Some? then [Decode(data, pos).value.labels] else []
  }

  /** The names a visited record contributes: its owner and, for a pointer record, its readable target. */
  ghost function VisitNames(data: Bytes, visit: Visit): seq<seq<Bytes>>
  {
    [visit.owner] + if visit.Whole? && visit.rtype == PTR then NameAt(data, visit.rdata) else []
  }

  ghost function RecordNames(data: Bytes, visits: seq<Visit>): seq<seq<Bytes>>
  {
    if visits == [] then [] else VisitNames(data, visits[0]) + RecordNames(data, visits[1..])
  }

  function QuestionCount(data: Bytes): nat
    requires |data| >= 12
  {
    Word(data, 4)
  }

  function RecordCount(data: Bytes): nat
    requires |data| >= 12
  {
    Word(data, 6) + Word(data, 8) + Word(data, 10)
  }

  /** All names of a response in reading order, as far as the questions allow going on. */
  ghost function NamesOf(data: Bytes, questions: Questions, records: nat): seq<seq<Bytes>>
  {
    questions.names + RecordNames(data, ReadRecords(data, questions.pos, records))
  }

  /** The hostname resolver's result: after an unreadable question it still tries the records. */
  ghost function ResolverServices(data: Bytes, toText: ToText): seq<Bytes>
  {
    if |data| < 12 || RecordCount(data) == 0 then [] else
      Dedup(NameServices(NamesOf(data, ReadQuestions(data, 12, QuestionCount(data)), RecordCount(data)), toText))
  }

  /** The listener's result: after an unreadable question it returns what it has, repetitions included. */
  ghost function ListenerServices(data: Bytes, toText: ToText): seq<Bytes>
  {
    if |data| < 12 then [] else
      var questions := ReadQuestions(data, 12, QuestionCount(data));
      if !questions.complete then NameServices(questions.names, toText)
      else Dedup(NameServices(NamesOf(data, questions, RecordCount(data)), toText))
  }

  // ----- The loops -----

  /** Keep the first occurrence of every service, remembering which were seen. */
  method RetainFirst(services: seq<Bytes>) returns (kept: seq<Bytes>)
    ensures kept == Dedup(services)
  {
    kept := [];
    var seen: set<Bytes> := {};
    var i := 0;
    while i < |services|
      invariant 0 <= i <= |services|
      invariant forall x :: x in seen <==> x in kept
      invariant Merge(kept, services[i..]) == Dedup(services)
    {
      assert services[i..][1..] == services[i + 1..];
      if services[i] !in seen {
        seen := seen + {services[i]};
        kept := kept + [services[i]];
      }
      i := i + 1;
    }
  }

  /** Append the service type of a name just read, if it has one. */
  method AppendService(name: Bytes, services: seq<Bytes>, toText: ToText, ghost labels: seq<Bytes>,
                       ghost names: seq<seq<Bytes>>) returns (more: seq<Bytes>)
    requires services == NameServices(names, toText) && name == TextOf(labels, toText)
    ensures more == NameServices(names + [labels], toText)
  {
    assert (names + [labels])[..|names|] == names;
    more := services;
    var service := ExtractServiceType(name);
    if service.Some? {
      more := more + [service.value];
    }
  }

  /** Read a name and append its service type, if it has one. */
  method TakeName(data: Bytes, pos: nat, services: seq<Bytes>, toText: ToText, ghost names: seq<seq<Bytes>>)
    returns (next: Option<nat>, more: seq<Bytes>)
    requires services == NameServices(names, toText)
    ensures next == if Decode(data, pos).Some? then Some(Decode(data, pos).value.next) else None
    ensures more == NameServices(names + NameAt(data, pos), toText)
  {
    more := services;
    var decoded := DecodeLabel(data, pos, toText);
    if decoded.None? {
      assert names + [] == names;
      return None, services;
    }
    more := AppendService(decoded.value.0, services, toText, Decode(data, pos).value.labels, names);
    next := Some(decoded.value.1);
  }

  /** What the question loop ends with, given the names it has and what is left. */
  ghost function QuestionsLeft(data: Bytes, pos: nat, left: nat, names: seq<seq<Bytes>>): Questions
  {
    var rest := ReadQuestions(data, pos, left);
    Questions(names + rest.names, rest.pos, rest.complete)
  }

  lemma QuestionStep(data: Bytes, pos: nat, left: nat, names: seq<seq<Bytes>>)
    ensures QuestionsLeft(data, pos, left, names) ==
            if left == 0 then Questions(names, pos, true)
            else if Decode(data, pos).None? then Questions(names, pos, false)
            else QuestionsLeft(data, Decode(data, pos).value.next + 4, left - 1, names + NameAt(data, pos))
  {
    assert names + [] == names;
    if left > 0 && Decode(data, pos).Some? {
      var rest := ReadQuestions(data, Decode(data, pos).value.next + 4, left - 1);
      assert names + (NameAt(data, pos) + rest.names) == (names + NameAt(data, pos)) + rest.names;
    }
  }

  /** What the record loop ends with, given the names it has and what is left. */
  ghost function RecordsLeft(data: Bytes, pos: nat, left: nat, names: seq<seq<Bytes>>): seq<seq<Bytes>>
  {
    names + RecordNames(data, ReadRecords(data, pos, left))
  }

  /** One turn of the record loop: the names gathered so far and where the next record starts, if there may be one. */
  datatype Turn = Turn(names: seq<seq<Bytes>>, next: Option<nat>)

  ghost function RecordTurn(data: Bytes, pos: nat, names: seq<seq<Bytes>>): Turn
  {
    match Decode(data, pos)
    case None => Turn(names, None)
    case Some(name) =>
      if name.next + 10 > |data| then Turn(names + NameAt(data, pos), None)
      else Turn(names + NameAt(data, pos) + (if Word(data, name.next) == PTR then NameAt(data, name.next + 10) else []),
                Some(name.next + 10 + Word(data, name.next + 8)))
  }

  /** What the record visited at `pos` is, if it is readable at all. */
  ghost function VisitAt(data: Bytes, pos: nat): Option<Visit>
  {
    match Decode(data, pos)
    case None => None
    case Some(name) =>
      if name.next + 10 > |data| then Some(Cut(name.labels))
      else Some(Whole(name.labels, Word(data, name.next), name.next + 10, Word(data, name.next + 8)))
  }

  /** Where the record behind a visited one starts, if there may be one. */
  function Behind(visit: Visit): Option<nat>
  {
    if visit.Cut? then None else Some(visit.rdata + visit.rdlen)
  }

  lemma ReadStep(data: Bytes, pos: nat, left: nat)
    requires left > 0
    ensures var visit := VisitAt(data, pos);
            ReadRecords(data, pos, left) ==
            if visit.None? then []
            else [visit.value] + if Behind(visit.value).None? then []
                                 else ReadRecords(data, Behind(visit.value).value, left - 1)
  {
    hide Decode, Word;
  }

  lemma TurnAt(data: Bytes, pos: nat, names: seq<seq<Bytes>>)
    ensures var visit := VisitAt(data, pos);
            RecordTurn(data, pos, names) ==
            if visit.None? then Turn(names, None)
            else Turn(names + VisitNames(data, visit.value), Behind(visit.value))
  {
    hide Decode, Word;
    if Decode(data, pos).Some? {
      var labels := Decode(data, pos).value.labels;
      var target := NameAt(data, Decode(data, pos).value.next + 10);
      assert [labels] + [] == [labels];
      assert names + [labels] + target == names + ([labels] + target);
      assert names + [labels] + [] == names + [labels];
    }
  }

  lemma RecordStep(data: Bytes, pos: nat, left: nat, names: seq<seq<Bytes>>)
    requires left > 0
    ensures var turn := RecordTurn(data, pos, names);
            RecordsLeft(data, pos, left, names) ==
            if turn.next.None? then turn.names else RecordsLeft(data, turn.next.value, left - 1, turn.names)
  {
    hide VisitAt, Behind, ReadRecords, RecordTurn, VisitNames;
    ReadStep(data, pos, left);
    TurnAt(data, pos, names);
    var visit := VisitAt(data, pos);
    if visit.None? {
      assert names + [] == names;
    } else {
      var own, visits := VisitNames(data, visit.value), ReadRecords(data, pos, left);
      var later := RecordNames(data, visits[1..]);
      assert names + (own + later) == (names + own) + later;
      assert visits[1..] == [] ==> later == [] && (names + own) + later == names + own;
    }
  }

  /** The listener's reading of one record at `pos`. */
  method TakeRecord(data: Bytes, pos: nat, found: seq<Bytes>, toText: ToText, ghost names: seq<seq<Bytes>>)
    returns (next: Option<nat>, services: seq<Bytes>)
    requires found == NameServices(names, toText)
    ensures services == NameServices(RecordTurn(data, pos, names).names, toText)
    ensures next == RecordTurn(data, pos, names).next
  {
    hide Decode, NameServices;
    services := found;
    if pos >= |data| {
      DecodeHop(data, pos);
      return None, services;
    }
    var end;
    end, services := TakeName(data, pos, services, toText, names);
    if end.None? {
      NoNameAt(data, pos, names);
      return None, services;
    }
    var at := end.value;
    if at + 10 > |data| {
      return None, services;
    }
    var rtype, rdlen := Word(data, at), Word(data, at + 8);
    at := at + 10;
    if rtype == PTR {
      end, services := TakeName(data, at, services, toText, names + NameAt(data, pos));
    } else {
      assert names + NameAt(data, pos) + [] == names + NameAt(data, pos);
    }
    next := Some(at + rdlen);
  }

  lemma RecordsDone(data: Bytes, pos: nat, names: seq<seq<Bytes>>)
    ensures RecordsLeft(data, pos, 0, names) == names
  {
    assert names + [] == names;
  }

  lemma LoopsStart(data: Bytes, count: nat)
    ensures QuestionsLeft(data, 12, count, []) == ReadQuestions(data, 12, count)
  {
    assert forall names: seq<seq<Bytes>> :: [] + names == names;
  }

  lemma ShortForListener(data: Bytes, toText: ToText)
    requires |data| < 12
    ensures ListenerServices(data, toText) == []
  {
  }

  /** What the listener's loops have to deliver, by how the questions end. */
  lemma ListenerResult(data: Bytes, toText: ToText, asked: seq<seq<Bytes>>, start: nat, complete: bool)
    requires |data| >= 12 && ReadQuestions(data, 12, QuestionCount(data)) == Questions(asked, start, complete)
    ensures ListenerServices(data, toText)
         == if complete then Dedup(NameServices(RecordsLeft(data, start, RecordCount(data), asked), toText))
            else NameServices(asked, toText)
  {
    hide NameServices, RecordNames, ReadRecords, ReadQuestions, Dedup;
  }

  /** The listener's walk. */
  method ParseMdnsForServices(data: Bytes, toText: ToText) returns (services: seq<Bytes>)
    ensures services == ListenerServices(data, toText)
  {
    hide NameServices, RecordNames, ReadRecords, ReadQuestions, Dedup, Decode, RecordTurn, NameAt, QuestionsLeft,
         RecordsLeft, ListenerServices;
    if |data| < 12 {
      ShortForListener(data, toText);
      return [];
    }
    var questions := Word(data, 4);
    var answerRrs: nat, authorityRrs: nat, additionalRrs: nat := Word(data, 6), Word(data, 8), Word(data, 10);
    var totalRrs := answerRrs + authorityRrs + additionalRrs;
    LoopsStart(data, questions);
    NoNames(toText);
    ghost var names: seq<seq<Bytes>> := [];
    var pos: nat := 12;
    services := [];
    var i := 0;
    while i < questions
      invariant 0 <= i <= questions
      invariant services == NameServices(names, toText)
      invariant QuestionsLeft(data, pos, questions - i, names) == ReadQuestions(data, 12, questions)
    {
      QuestionStep(data, pos, questions - i, names);
      var next;
      next, services := TakeName(data, pos, services, toText, names);
      if next.None? {
        NoNameAt(data, pos, names);
        ListenerResult(data, toText, names, pos, false);
        return;
      }
      names := names + NameAt(data, pos);
      pos := next.value + 4;
      i := i + 1;
    }
    QuestionStep(data, pos, 0, names);
    ListenerResult(data, toText, names, pos, true);

    ghost var start, asked := pos, names;
    i := 0;
    while i < totalRrs
      invariant 0 <= i <= totalRrs
      invariant services == NameServices(names, toText)
      invariant RecordsLeft(data, pos, totalRrs - i, names) == RecordsLeft(data, start, totalRrs, asked)
    {
      RecordStep(data, pos, totalRrs - i, names);
      var next;
      next, services := TakeRecord(data, pos, services, toText, names);
      names := RecordTurn(data, pos, names).names;
      if next.None? {
        break;
      }
      pos := next.value;
      i := i + 1;
    }
    if i == totalRrs {
      RecordsDone(data, pos, names);
    }
    services := RetainFirst(services);
  }

  lemma NoNames(toText: ToText)
    ensures NameServices([], toText) == []
  {
  }

  lemma NoNameAt(data: Bytes, pos: nat, names: seq<seq<Bytes>>)
    requires Decode(data, pos).None?
    ensures names + NameAt(data, pos) == names
  {
  }

  // ----- The two walks agree -----

  lemma {:induction false} IncompleteStopsUnreadable(data: Bytes, pos: nat, count: nat)
    requires !ReadQuestions(data, pos, count).complete
    ensures Decode(data, ReadQuestions(data, pos, count).pos) == None
    decreases count
  {
    if Decode(data, pos).Some? {
      IncompleteStopsUnreadable(data, Decode(data, pos).value.next + 4, count - 1);
    }
  }

  /** No question of the packet that can be read asks for a service. */
  ghost predicate AsksForNoService(data: Bytes, toText: ToText)
    requires |data| >= 12
  {
    forall name :: name in ReadQuestions(data, 12, QuestionCount(data)).names ==>
      ExtractServiceType(TextOf(name, toText)).None?
  }

  lemma {:induction false} NoServiceNamed(names: seq<seq<Bytes>>, toText: ToText)
    ensures NameServices(names, toText) == [] <==>
            forall name :: name in names ==> ExtractServiceType(TextOf(name, toText)).None?
  {
    hide ExtractServiceType, TextOf;
    if names != [] {
      var front, last := names[..|names| - 1], names[|names| - 1];
      NoServiceNamed(front, toText);
      assert names == front + [last];
    }
  }

  lemma QuestionsOnly(data: Bytes, toText: ToText)
    requires |data| >= 12 && RecordCount(data) == 0
    ensures var asked := NameServices(ReadQuestions(data, 12, QuestionCount(data)).names, toText);
            ListenerServices(data, toText) == asked || ListenerServices(data, toText) == Dedup(asked)
  {
    hide ReadQuestions, NameServices, Dedup;
    var questions := ReadQuestions(data, 12, QuestionCount(data));
    assert questions.names + [] == questions.names;
    assert NamesOf(data, questions, 0) == questions.names;
  }

  lemma RecordsAnnounced(data: Bytes, toText: ToText)
    requires |data| >= 12 && RecordCount(data) != 0
    ensures ResolverServices(data, toText) == Dedup(ListenerServices(data, toText))
  {
    hide NameServices, Dedup, Decode;
    var questions := ReadQuestions(data, 12, QuestionCount(data));
    if questions.complete {
      DedupIdempotent(NameServices(NamesOf(data, questions, RecordCount(data)), toText));
    } else {
      IncompleteStopsUnreadable(data, 12, QuestionCount(data));
      assert ReadRecords(data, questions.pos, RecordCount(data)) == [];
      assert questions.names + [] == questions.names;
      assert NamesOf(data, questions, RecordCount(data)) == questions.names;
    }
  }

  /**
   * On any packet long enough for a header, the resolver finds exactly the listener's services without
   * repetition if and only if the packet announces a record or no question asks for a service.
   */
  lemma WalksAgreeExactly(data: Bytes, toText: ToText)
    requires |data| >= 12
    ensures ResolverServices(data, toText) == Dedup(ListenerServices(data, toText))
            <==> RecordCount(data) != 0 || AsksForNoService(data, toText)
  {
    hide ReadQuestions, NameServices, Dedup, ListenerServices, ExtractServiceType;
    if RecordCount(data) != 0 {
      RecordsAnnounced(data, toText);
    } else {
      var asked := NameServices(ReadQuestions(data, 12, QuestionCount(data)).names, toText);
      QuestionsOnly(data, toText);
      NoServiceNamed(ReadQuestions(data, 12, QuestionCount(data)).names, toText);
      DedupEmpty(asked);
      DedupEmpty(ListenerServices(data, toText));
    }
  }

  /**
   * The resolver never reports a service twice. The listener does not either if and only if every question can be
   * read or those that can name different services.
   */
  lemma ServicesDistinct(data: Bytes, toText: ToText)
    ensures Distinct(ResolverServices(data, toText))
    ensures |data| >= 12 ==>
              var questions := ReadQuestions(data, 12, QuestionCount(data));
              Distinct(ListenerServices(data, toText))
              <==> questions.complete || Distinct(NameServices(questions.names, toText))
    ensures |data| < 12 ==> Distinct(ListenerServices(data, toText))
  {
    hide ReadQuestions, NameServices;
    if |data| >= 12 {
      var questions := ReadQuestions(data, 12, QuestionCount(data));
      var all := NameServices(NamesOf(data, questions, RecordCount(data)), toText);
      MergeMeaning([], all);
    }
  }

  // ----- Asking for a service and reading the question back -----

  lemma ServiceNameExtracted(x: Bytes, rest: seq<Bytes>)
    requires x != [] && DOT !in x && x[0] != UNDERSCORE
    requires forall l :: l in rest ==> DOT !in l
    ensures ExtractServiceType(Join([[UNDERSCORE] + x, TCP] + rest)) == Some(x)
  {
    var labels := [[UNDERSCORE] + x, TCP] + rest;
    assert forall l :: l in labels ==> l == labels[0] || l == labels[1] || l in rest;
    SplitJoin(labels);
    assert Join(labels)[0] == UNDERSCORE;
    assert TrimUnderscores(labels[0]) == TrimUnderscores(x) == x by {
      assert labels[0][1..] == x;
    }
  }

  lemma NonEmptyFront(first: Bytes, rest: seq<Bytes>)
    requires first != []
    ensures NonEmpty([first] + rest) == [first] + NonEmpty(rest)
  {
    assert ([first] + rest)[1..] == rest;
  }

  lemma ServiceLabels(x: Bytes, rest: Bytes)
    requires x != [] && DOT !in x
    ensures NonEmpty(Split([UNDERSCORE] + x + [DOT] + TCP + [DOT] + rest))
         == [[UNDERSCORE] + x, TCP] + NonEmpty(Split(rest))
  {
    hide EncodeLabels, NonEmpty, Split;
    var first := [UNDERSCORE] + x;
    var tail := TCP + [DOT] + rest;
    assert first + [DOT] + TCP + [DOT] + rest == first + [DOT] + tail;
    SplitAtDot(first, tail);
    SplitAtDot(TCP, rest);
    NonEmptyFront(first, [TCP] + Split(rest));
    NonEmptyFront(TCP, Split(rest));
  }

  /** The listener recognises its own query for `_x._tcp.rest` as announcing exactly the service `x`. */
  lemma ServiceQueryRecognised(x: Bytes, rest: Bytes, id: u16, toText: ToText)
    requires x != [] && DOT !in x && x[0] != UNDERSCORE && |x| < 191
    requires forall l :: l in Split(rest) ==> |l| < 192
    requires forall l :: l in [[UNDERSCORE] + x, TCP] + NonEmpty(Split(rest)) ==> toText(l) == l
    ensures ListenerServices(Query([UNDERSCORE] + x + [DOT] + TCP + [DOT] + rest, id, 12), toText) == [x]
  {
    hide Split, NonEmpty, Join, ExtractServiceType, Query, EncodeLabels, ListenerServices, Decode, Texts, QuestionCount,
         RecordCount;
    var name := [UNDERSCORE] + x + [DOT] + TCP + [DOT] + rest;
    var labels := [[UNDERSCORE] + x, TCP] + NonEmpty(Split(rest));
    ServiceLabels(x, rest);
    NonEmptyParts(Split(rest));
    SplitHasNoDots(rest);
    assert forall l :: l in labels ==> l == labels[0] || l == labels[1] || l in Split(rest);
    QueryRoundTripExactly(name, id, 12);
    FaithfulTexts(labels, toText);
    ServiceNameExtracted(x, NonEmpty(Split(rest)));
    QueryCounts(name, id);
    SingleQuestion(Query(name, id, 12), labels, |Query(name, id, 12)| - 4, toText, x);
  }

  lemma QueryCounts(name: Bytes, id: u16)
    ensures var data := Query(name, id, 12);
            |data| >= 12 && QuestionCount(data) == 1 && RecordCount(data) == 0
  {
    hide Split, NonEmpty, EncodeLabels;
    var data := Query(name, id, 12);
    assert forall i :: 0 <= i < 12 ==> data[i] == QueryHeader(id)[i];
  }

  lemma SingleQuestion(data: Bytes, labels: seq<Bytes>, next: nat, toText: ToText, x: Bytes)
    requires |data| >= 12 && QuestionCount(data) == 1 && RecordCount(data) == 0
    requires Decode(data, 12) == Some(Name(labels, next)) && ServiceOf(labels, toText) == [x]
    ensures ListenerServices(data, toText) == [x]
  {
    hide Decode, ServiceOf;
    var questions := ReadQuestions(data, 12, 1);
    assert ReadQuestions(data, next + 4, 0) == Questions([], next + 4, true);
    assert questions == Questions([labels], next + 4, true);
    assert ReadRecords(data, next + 4, 0) == [];
    assert NamesOf(data, questions, 0) == [labels];
    assert [labels][..0] == [];
    assert NameServices([labels], toText) == [x];
    assert Dedup([x]) == [x] by {
      MergeDistinct([], [x]);
    }
  }

  /** The fixed fields of a built query: its identifier, no flags, one question and nothing else, type and class. */
  lemma QueryFields(name: Bytes, id: u16, qtype: byte)
    ensures var data := Query(name, id, qtype);
            && |data| >= 17 && Word(data, 0) == id && Word(data, 2) == 0 && Word(data, 4) == 1
            && Word(data, 6) == 0 && Word(data, 8) == 0 && Word(data, 10) == 0
            && Word(data, |data| - 4) == qtype && Word(data, |data| - 2) == 1
  {
    hide Split, NonEmpty, EncodeLabels;
    var data, header := Query(name, id, qtype), QueryHeader(id);
    assert forall i :: 0 <= i < 12 ==> data[i] == header[i];
    var tail: Bytes := [0, qtype, 0, 1];
    assert forall i :: 0 <= i < 4 ==> data[|data| - 4 + i] == tail[i];
    assert data[|data| - 4 + 0] == 0 && data[|data| - 4 + 1] == qtype;
    assert data[|data| - 4 + 2] == 0 && data[|data| - 4 + 3] == 1;
  }

  // ----- Which names are service names -----

  /** The labels name the service `x`: underscores in front of `x`, then `_tcp` or `_udp`. */
  predicate NamesService(labels: seq<Bytes>, x: Bytes)
  {
    && |labels| >= 2 && x != [] && x[0] != 95
    && |labels[0]| > |x| && labels[0][|labels[0]| - |x|..] == x
    && (forall i :: 0 <= i < |labels[0]| - |x| ==> labels[0][i] == 95)
    && (labels[1] == [95, 116, 99, 112] || labels[1] == [95, 117, 100, 112])
  }

  lemma {:induction false} TrimLeaves(s: Bytes)
    ensures var t := TrimUnderscores(s);
            && |t| <= |s| && s[|s| - |t|..] == t && (t != [] ==> t[0] != 95)
            && forall i :: 0 <= i < |s| - |t| ==> s[i] == 95
  {
    if s != [] && s[0] == UNDERSCORE {
      TrimLeaves(s[1..]);
      assert s == [95] + s[1..];
    }
  }

  lemma {:induction false} TrimIs(s: Bytes, x: Bytes)
    requires |x| <= |s| && s[|s| - |x|..] == x && (x != [] ==> x[0] != 95)
    requires forall i :: 0 <= i < |s| - |x| ==> s[i] == 95
    ensures TrimUnderscores(s) == x
  {
    if |x| < |s| {
      TrimIs(s[1..], x);
    }
  }

  lemma {:induction false} JoinStarts(labels: seq<Bytes>)
    requires labels != [] && labels[0] != []
    ensures Join(labels) != [] && Join(labels)[0] == labels[0][0]
  {
  }

  /** A name made of labels without dots has the service type `x` if and only if its labels name it. */
  lemma ServiceTypeExactly(labels: seq<Bytes>, x: Bytes)
    requires labels != [] && forall l :: l in labels ==> 46 !in l
    ensures ExtractServiceType(Join(labels)) == Some(x) <==> NamesService(labels, x)
  {
    hide Join, Split, TrimUnderscores;
    SplitJoin(labels);
    TrimLeaves(labels[0]);
    if labels[0] != [] {
      JoinStarts(labels);
    }
    if NamesService(labels, x) {
      TrimIs(labels[0], x);
    }
  }

  /** A text is a service name for `x`: its parts between dots name it. */
  ghost predicate ServiceText(text: Bytes, x: Bytes)
  {
    exists labels: seq<Bytes> ::
      labels != [] && (forall l :: l in labels ==> 46 !in l) && Join(labels) == text && NamesService(labels, x)
  }

  lemma ServiceTextExactly(text: Bytes, x: Bytes)
    ensures ExtractServiceType(text) == Some(x) <==> ServiceText(text, x)
  {
    hide Join, Split, ExtractServiceType, NamesService;
    JoinSplit(text);
    ServiceTypeExactly(Split(text), x);
    if ServiceText(text, x) {
      var labels: seq<Bytes> :| labels != [] && (forall l :: l in labels ==> 46 !in l)
                                && Join(labels) == text && NamesService(labels, x);
      ServiceTypeExactly(labels, x);
    }
  }

  /** A service is among those of some names if and only if one of them is a service name for it. */
  lemma {:induction false} NameServicesExactly(names: seq<seq<Bytes>>, toText: ToText, x: Bytes)
    ensures x in NameServices(names, toText) <==> exists name :: name in names && ServiceText(TextOf(name, toText), x)
  {
    hide ExtractServiceType, ServiceText, TextOf;
    if names != [] {
      var front, last := names[..|names| - 1], names[|names| - 1];
      NameServicesExactly(front, toText, x);
      ServiceTextExactly(TextOf(last, toText), x);
      assert names == front + [last];
    }
  }

  // ----- A packet that makes the listener repeat itself -----

  /** A question for `_x._tcp`. */
  function ServiceQuestion(x: Bytes): Bytes
  {
    EncodeLabels([[UNDERSCORE] + x, TCP]) + ([0] + [0, 12, 0, 1])
  }

  /** Three questions are announced, the first two are the same and the third is missing. */
  function AskedTwice(x: Bytes): Bytes
  {
    [0, 0, 0, 0, 0, 3, 0, 0, 0, 0, 0, 0] + ServiceQuestion(x) + ServiceQuestion(x)
  }

  lemma ServiceQuestionRead(front: Bytes, x: Bytes, more: Bytes)
    requires x != [] && |x| < 191
    ensures Decode(front + ServiceQuestion(x) + more, |front|)
         == Some(Name([[UNDERSCORE] + x, TCP], |front| + |ServiceQuestion(x)| - 4))
  {
    hide EncodeLabels, Decode;
    var labels := [[UNDERSCORE] + x, TCP];
    EncodedDecodes(front, labels, [0, 12, 0, 1] + more);
    assert front + ServiceQuestion(x) + more == Packet(front, labels, [0, 12, 0, 1] + more);
  }

  lemma AskedTwiceHeader(x: Bytes)
    ensures |AskedTwice(x)| == 12 + 2 * |ServiceQuestion(x)| && QuestionCount(AskedTwice(x)) == 3
    ensures |ServiceQuestion(x)| >= 5
  {
    hide EncodeLabels;
  }

  /** The listener reports a service twice when two questions ask for it and a third cannot be read. */
  lemma ListenerRepeats(x: Bytes, toText: ToText)
    requires x != [] && DOT !in x && x[0] != UNDERSCORE && |x| < 191
    requires toText([UNDERSCORE] + x) == [UNDERSCORE] + x && toText(TCP) == TCP
    ensures ListenerServices(AskedTwice(x), toText) == [x, x]
  {
    hide EncodeLabels, Decode, ServiceQuestion, ExtractServiceType, TextOf, QuestionCount, RecordCount, NamesOf, Join;
    var data, labels, one := AskedTwice(x), [[UNDERSCORE] + x, TCP], ServiceQuestion(x);
    var header: Bytes := [0, 0, 0, 0, 0, 3, 0, 0, 0, 0, 0, 0];
    AskedTwiceHeader(x);
    assert data == header + one + one == header + one + one + [];
    ServiceQuestionRead(header, x, one);
    ServiceQuestionRead(header + one, x, []);
    DecodeHop(data, |data|);
    var third := ReadQuestions(data, |data|, 1);
    var second := ReadQuestions(data, 12 + |one|, 2);
    var questions := ReadQuestions(data, 12, 3);
    assert third == Questions([], |data|, false);
    assert second == Questions([labels], |data|, false);
    assert questions == Questions([labels, labels], |data|, false);
    ServiceOfLabels(x, toText);
    TwiceTheService(labels, x, toText);
  }

  lemma TwiceTheService(labels: seq<Bytes>, x: Bytes, toText: ToText)
    requires ServiceOf(labels, toText) == [x]
    ensures NameServices([labels, labels], toText) == [x, x]
  {
    hide ServiceOf;
    var none: seq<seq<Bytes>> := [];
    assert [labels, labels][..1] == [labels] && [labels][..0] == none;
    assert NameServices([labels], toText) == [x];
  }

  lemma ServiceOfLabels(x: Bytes, toText: ToText)
    requires x != [] && DOT !in x && x[0] != UNDERSCORE
    requires toText([UNDERSCORE] + x) == [UNDERSCORE] + x && toText(TCP) == TCP
    ensures ServiceOf([[UNDERSCORE] + x, TCP], toText) == [x]
  {
    hide ExtractServiceType, Join, Texts;
    var labels := [[UNDERSCORE] + x, TCP];
    FaithfulTexts(labels, toText);
    ServiceNameExtracted(x, []);
    assert labels + [] == labels;
  }
}
