/** The hostname resolver: its walk over a response, the candidates it gathers, and its choice among them. */
module HostNames {
  import opened Prelude
  import opened DnsName
  import opened DnsQuery
  import opened DnsRecords

  const ADDRESS: u16 := 1
  const TEXT: u16 := 16
  const SERVICE: u16 := 33

  const LOCAL: Bytes := [46, 108, 111, 99, 97, 108]
  const FRIENDLY: Bytes := [102, 110, 61]
  const SHORT: Bytes := [110, 61]
  const HYPHEN: byte := 45

  /** Text operations outside the walk: conversion of labels, UTF-8 validity, word lists and letter case. */
  datatype TextRules = TextRules(
    toText: ToText,
    isUtf8: Bytes -> bool,
    isServiceLabel: Bytes -> bool,
    startsUpper: Bytes -> bool)

  // ----- Candidates of one record -----

  function TrimEnd(s: Bytes, suffix: Bytes): Bytes
    requires suffix != []
    decreases |s|
  {
    if |s| >= |suffix| && s[|s| - |suffix|..] == suffix then TrimEnd(s[..|s| - |suffix|], suffix) else s
  }

  /** A host name without its `.local` and trailing dots. */
  function CleanHost(s: Bytes): Bytes
  {
    TrimEnd(TrimEnd(s, LOCAL), [DOT])
  }

  function Candidate(s: Bytes, rules: TextRules): seq<Bytes>
  {
    if s != [] && !rules.isServiceLabel(s) then [s] else []
  }

  /** The instance name in front of a pointer target's first dot. */
  function InstanceName(target: Bytes, rules: TextRules): seq<Bytes>
  {
    Candidate(TrimUnderscores(Split(target)[0]), rules)
  }

  /** A text string names the device when it starts with `fn=` or `n=`. */
  function TextName(text: Bytes, rules: TextRules): seq<Bytes>
  {
    if !rules.isUtf8(text) then []
    else if FRIENDLY <= text then [text[|FRIENDLY|..]]
    else if SHORT <= text then [text[|SHORT|..]]
    else []
  }

  /** The names in the length-prefixed strings of `data[pos..end]`. */
  function TextNames(data: Bytes, pos: nat, end: nat, rules: TextRules): seq<Bytes>
    requires end <= |data|
    decreases end - pos
  {
    if pos >= end || pos + 1 + data[pos] > end then []
    else TextName(data[pos + 1..pos + 1 + data[pos]], rules) + TextNames(data, pos + 1 + data[pos], end, rules)
  }

  function Min(a: nat, b: nat): nat
  {
    if a <= b then a else b
  }

  /** The text of the name readable at `pos`, if there is one. */
  ghost function TextAt(data: Bytes, pos: nat, toText: ToText): Option<Bytes>
  {
    if Decode(data, pos).Some? then Some(TextOf(Decode(data, pos).value.labels, toText)) else None
  }

  ghost function VisitHosts(data: Bytes, visit: Visit, rules: TextRules): seq<Bytes>
  {
    if visit.Cut? then []
    else if visit.rtype == PTR then
      var target := TextAt(data, visit.rdata, rules.toText);
      if target.Some? then InstanceName(target.value, rules) else []
    else if visit.rtype == SERVICE then
      var host := TextAt(data, visit.rdata + 6, rules.toText);
      if visit.rdata + 6 <= |data| && host.Some? then Candidate(CleanHost(host.value), rules) else []
    else if visit.rtype == ADDRESS then Candidate(CleanHost(TextOf(visit.owner, rules.toText)), rules)
    else if visit.rtype == TEXT then TextNames(data, visit.rdata, Min(visit.rdata + visit.rdlen, |data|), rules)
    else []
  }

  ghost function AllHosts(data: Bytes, visits: seq<Visit>, rules: TextRules): seq<Bytes>
  {
    if visits == [] then [] else VisitHosts(data, visits[0], rules) + AllHosts(data, visits[1..], rules)
  }

  /** All candidates of a response. */
  ghost function ResolverHosts(data: Bytes, rules: TextRules): seq<Bytes>
  {
    if |data| < 12 || RecordCount(data) == 0 then [] else
      var questions := ReadQuestions(data, 12, QuestionCount(data));
      AllHosts(data, ReadRecords(data, questions.pos, RecordCount(data)), rules)
  }

  // ----- What the candidates are -----

  function Repeat(piece: Bytes, n: nat): Bytes
  {
    if n == 0 then [] else Repeat(piece, n - 1) + piece
  }

  predicate EndsWith(s: Bytes, piece: Bytes)
  {
    |s| >= |piece| && s[|s| - |piece|..] == piece
  }

  /** One suffix less, and the end of it. */
  lemma TrimEndOne(front: Bytes, piece: Bytes)
    requires piece != []
    ensures TrimEnd(front + piece, piece) == TrimEnd(front, piece)
    ensures !EndsWith(front, piece) ==> TrimEnd(front, piece) == front
  {
    var s := front + piece;
    assert s[..|s| - |piece|] == front && s[|s| - |piece|..] == piece;
  }

  lemma {:induction false} TrimEndIs(h: Bytes, piece: Bytes, n: nat)
    requires piece != [] && !EndsWith(h, piece)
    ensures TrimEnd(h + Repeat(piece, n), piece) == h
  {
    hide TrimEnd, EndsWith;
    if n == 0 {
      assert h + Repeat(piece, 0) == h;
      TrimEndOne(h, piece);
    } else {
      var front := h + Repeat(piece, n - 1);
      assert h + Repeat(piece, n) == front + piece;
      TrimEndOne(front, piece);
      TrimEndIs(h, piece, n - 1);
    }
  }

  lemma {:induction false} TrimEndLeaves(s: Bytes, piece: Bytes) returns (n: nat)
    requires piece != []
    ensures s == TrimEnd(s, piece) + Repeat(piece, n) && !EndsWith(TrimEnd(s, piece), piece)
    decreases |s|
  {
    hide TrimEnd, EndsWith;
    if EndsWith(s, piece) {
      var front := Shortened(s, piece);
      var m := TrimEndLeaves(front, piece);
      TrimEndOne(front, piece);
      n := m + 1;
      assert TrimEnd(front, piece) + Repeat(piece, m) + piece == TrimEnd(front, piece) + (Repeat(piece, m) + piece);
    } else {
      TrimEndOne(s, piece);
      n := 0;
      assert s + [] == s;
    }
  }

  lemma Shortened(s: Bytes, piece: Bytes) returns (front: Bytes)
    requires piece != [] && EndsWith(s, piece)
    ensures s == front + piece && |front| < |s|
  {
    front := s[..|s| - |piece|];
  }

  /** `s` is `h` followed by dots, followed by `.local` any number of times, and `h` goes no further. */
  ghost predicate DressedHost(s: Bytes, h: Bytes, dots: nat, locals: nat)
  {
    && s == h + Repeat([46], dots) + Repeat([46, 108, 111, 99, 97, 108], locals)
    && !EndsWith(h, [46]) && (dots == 0 ==> !EndsWith(h, [46, 108, 111, 99, 97, 108]))
  }

  /** A host name loses exactly the `.local` suffixes at its end and the dots before them. */
  lemma CleanHostExactly(s: Bytes, h: Bytes)
    ensures CleanHost(s) == h <==> exists dots: nat, locals: nat :: DressedHost(s, h, dots, locals)
  {
    hide TrimEnd;
    if CleanHost(s) == h {
      var locals := TrimEndLeaves(s, LOCAL);
      var dots := TrimEndLeaves(TrimEnd(s, LOCAL), [DOT]);
      if dots == 0 {
        assert h + Repeat([46], 0) == h;
      }
      assert DressedHost(s, h, dots, locals);
    }
    if dots: nat, locals: nat :| DressedHost(s, h, dots, locals) {
      var front := h + Repeat([46], dots);
      NotLocal(h, dots);
      TrimEndIs(front, LOCAL, locals);
      TrimEndIs(h, [DOT], dots);
    }
  }

  lemma LastByte(s: Bytes, piece: Bytes)
    requires piece != []
    ensures EndsWith(s, piece) ==> s[|s| - 1] == piece[|piece| - 1]
  {
  }

  lemma NotLocal(h: Bytes, dots: nat)
    requires dots == 0 ==> !EndsWith(h, [46, 108, 111, 99, 97, 108])
    ensures !EndsWith(h + Repeat([46], dots), [46, 108, 111, 99, 97, 108])
  {
    var s := h + Repeat([46], dots);
    if dots == 0 {
      assert s == h;
    } else {
      assert s[|s| - 1] == 46;
      LastByte(s, [46, 108, 111, 99, 97, 108]);
    }
  }

  /** `text` is `x` behind any number of underscores. */
  predicate Underscored(text: Bytes, x: Bytes)
  {
    && |x| <= |text| && text[|text| - |x|..] == x && (x != [] ==> x[0] != 95)
    && forall i :: 0 <= i < |text| - |x| ==> text[i] == 95
  }

  /** The instance in front of a pointer target's first dot, without its underscores. */
  lemma InstanceNameOf(labels: seq<Bytes>, x: Bytes, rules: TextRules)
    requires labels != [] && (forall l :: l in labels ==> 46 !in l) && Underscored(labels[0], x)
    ensures InstanceName(Join(labels), rules) == if x == [] || rules.isServiceLabel(x) then [] else [x]
  {
    hide Join, Split, TrimUnderscores;
    SplitJoin(labels);
    TrimIs(labels[0], x);
  }

  /** A text string gives a name behind `fn=` or `n=`, and only there. */
  lemma TextNameExactly(text: Bytes, v: Bytes, rules: TextRules)
    ensures v in TextName(text, rules)
            <==> rules.isUtf8(text) && (text == [102, 110, 61] + v || text == [110, 61] + v)
    ensures |TextName(text, rules)| <= 1
  {
    var friendly: Bytes, short: Bytes := [102, 110, 61], [110, 61];
    assert FRIENDLY == friendly && SHORT == short;
    assert friendly <= text ==> text == friendly + text[3..];
    assert short <= text ==> text == short + text[2..];
    assert text == friendly + v ==> text[3..] == v;
    assert text == short + v ==> text[2..] == v && text[0] == 110;
  }

  // ----- The walk -----

  lemma TextStep(data: Bytes, pos: nat, end: nat, rules: TextRules, names: seq<Bytes>)
    requires end <= |data|
    ensures names + TextNames(data, pos, end, rules) ==
            if pos >= end || pos + 1 + data[pos] > end then names
            else (names + TextName(data[pos + 1..pos + 1 + data[pos]], rules))
                 + TextNames(data, pos + 1 + data[pos], end, rules)
  {
  }

  method CollectText(data: Bytes, pos: nat, end: nat, found: seq<Bytes>, rules: TextRules) returns (names: seq<Bytes>)
    requires end <= |data|
    ensures names == found + TextNames(data, pos, end, rules)
  {
    hide TextNames, TextName;
    names := found;
    var p: nat := pos;
    while p < end
      invariant names + TextNames(data, p, end, rules) == found + TextNames(data, pos, end, rules)
    {
      TextStep(data, p, end, rules, names);
      var len := data[p];
      p := p + 1;
      if p + len > end {
        return;
      }
      var more := NameInText(data[p..p + len], rules);
      names := names + more;
      p := p + len;
    }
    TextStep(data, p, end, rules, names);
  }

  method NameInText(text: Bytes, rules: TextRules) returns (names: seq<Bytes>)
    ensures names == TextName(text, rules)
  {
    names := [];
    if rules.isUtf8(text) {
      if FRIENDLY <= text {
        names := [text[|FRIENDLY|..]];
      } else if SHORT <= text {
        names := [text[|SHORT|..]];
      }
    }
  }

  ghost function TurnHosts(data: Bytes, pos: nat, rules: TextRules): seq<Bytes>
  {
    if VisitAt(data, pos).Some? then VisitHosts(data, VisitAt(data, pos).value, rules) else []
  }

  ghost function HostsLeft(data: Bytes, pos: nat, left: nat, rules: TextRules, hosts: seq<Bytes>): seq<Bytes>
  {
    hosts + AllHosts(data, ReadRecords(data, pos, left), rules)
  }

  lemma HostStep(data: Bytes, pos: nat, left: nat, rules: TextRules, hosts: seq<Bytes>)
    requires left > 0
    ensures var next := RecordTurn(data, pos, []).next;
            HostsLeft(data, pos, left, rules, hosts) ==
            if next.None? then hosts + TurnHosts(data, pos, rules)
            else HostsLeft(data, next.value, left - 1, rules, hosts + TurnHosts(data, pos, rules))
  {
    hide Decode, VisitHosts, NameAt;
    var visits, next := ReadRecords(data, pos, left), RecordTurn(data, pos, []).next;
    if visits == [] {
      assert hosts + [] == hosts;
    } else {
      var own, later := VisitHosts(data, visits[0], rules), AllHosts(data, visits[1..], rules);
      assert VisitAt(data, pos) == Some(visits[0]);
      assert hosts + (own + later) == (hosts + own) + later;
      assert next.None? ==> visits[1..] == [] && later == [] && (hosts + own) + later == hosts + own;
      assert next.Some? ==> visits[1..] == ReadRecords(data, next.value, left - 1);
    }
  }

  lemma HostsDone(data: Bytes, pos: nat, rules: TextRules, hosts: seq<Bytes>)
    ensures HostsLeft(data, pos, 0, rules, hosts) == hosts
  {
    assert hosts + [] == hosts;
  }

  /**
   * The services and candidates of a record whose fixed part has been read: one branch per record type, a pointer
   * target being read once for both.
   */
  method RecordHosts(data: Bytes, owner: Bytes, rtype: u16, pos: nat, rdlen: u16, found: seq<Bytes>, rules: TextRules,
                     ghost labels: seq<Bytes>, ghost names: seq<seq<Bytes>>)
    returns (services: seq<Bytes>, hosts: seq<Bytes>)
    requires owner == TextOf(labels, rules.toText) && pos <= |data| && found == NameServices(names, rules.toText)
    ensures services == NameServices(names + (if rtype == PTR then NameAt(data, pos) else []), rules.toText)
    ensures hosts == VisitHosts(data, Whole(labels, rtype, pos, rdlen), rules)
  {
    hide Decode, TextOf, NameServices;
    services, hosts := found, [];
    assert names + [] == names;
    match rtype {
      case 12 =>
        var target := DecodeLabel(data, pos, rules.toText);
        if target.Some? {
          services := AppendService(target.value.0, found, rules.toText, Decode(data, pos).value.labels, names);
          var s := TrimUnderscores(Split(target.value.0)[0]);
          if s != [] && !rules.isServiceLabel(s) {
            hosts := [s];
          }
        }
      case 33 =>
        if pos + 6 <= |data| {
          var host := DecodeLabel(data, pos + 6, rules.toText);
          if host.Some? {
            var h := TrimEnd(TrimEnd(host.value.0, LOCAL), [DOT]);
            if h != [] && !rules.isServiceLabel(h) {
              hosts := [h];
            }
          }
        }
      case 1 =>
        var clean := TrimEnd(TrimEnd(owner, LOCAL), [DOT]);
        if clean != [] && !rules.isServiceLabel(clean) {
          hosts := [clean];
        }
      case 16 =>
        var end := Min(pos + rdlen, |data|);
        hosts := CollectText(data, pos, end, [], rules);
        assert [] + TextNames(data, pos, end, rules) == TextNames(data, pos, end, rules);
      case _ =>
    }
  }

  /** The resolver's reading of one record at `pos`: its services and its candidates. */
  method TakeRecordAndHosts(data: Bytes, pos: nat, found: seq<Bytes>, known: seq<Bytes>, rules: TextRules,
                            ghost names: seq<seq<Bytes>>)
    returns (next: Option<nat>, services: seq<Bytes>, hosts: seq<Bytes>)
    requires found == NameServices(names, rules.toText)
    ensures services == NameServices(RecordTurn(data, pos, names).names, rules.toText)
    ensures next == RecordTurn(data, pos, names).next
    ensures hosts == known + TurnHosts(data, pos, rules)
  {
    hide Decode, VisitHosts, NameServices;
    services, hosts := found, known;
    assert known + [] == known;
    if pos >= |data| {
      DecodeHop(data, pos);
      return None, services, hosts;
    }
    var decoded := DecodeLabel(data, pos, rules.toText);
    if decoded.None? {
      return None, services, hosts;
    }
    var owner, at := decoded.value.0, decoded.value.1;
    ghost var labels := Decode(data, pos).value.labels;
    services := AppendService(owner, found, rules.toText, labels, names);
    if at + 10 > |data| {
      NoHosts(data, pos, rules);
      return None, services, hosts;
    }
    var rtype, rdlen := Word(data, at), Word(data, at + 8);
    at := at + 10;
    var more;
    services, more := RecordHosts(data, owner, rtype, at, rdlen, services, rules, labels, names + [labels]);
    hosts := hosts + more;
    next := Some(at + rdlen);
  }

  lemma NoHosts(data: Bytes, pos: nat, rules: TextRules)
    requires RecordTurn(data, pos, []).next.None?
    ensures TurnHosts(data, pos, rules) == []
  {
  }

  lemma ShortPacket(data: Bytes, rules: TextRules)
    requires |data| < 12 || RecordCount(data) == 0
    ensures ResolverServices(data, rules.toText) == ResolverHosts(data, rules) == []
  {
  }

  /** What the record loop has to deliver once the questions are read. */
  lemma WalkResult(data: Bytes, rules: TextRules, asked: seq<seq<Bytes>>, start: nat, complete: bool)
    requires |data| >= 12 && RecordCount(data) != 0
    requires ReadQuestions(data, 12, QuestionCount(data)) == Questions(asked, start, complete)
    ensures ResolverServices(data, rules.toText)
         == Dedup(NameServices(RecordsLeft(data, start, RecordCount(data), asked), rules.toText))
    ensures ResolverHosts(data, rules) == HostsLeft(data, start, RecordCount(data), rules, [])
  {
    hide NameServices, RecordNames, ReadRecords, ReadQuestions, Dedup, AllHosts;
    assert forall hosts: seq<Bytes> :: [] + hosts == hosts;
  }

  /** The resolver's walk. */
  method ParseMdnsRecords(data: Bytes, rules: TextRules) returns (names: seq<Bytes>, services: seq<Bytes>)
    ensures names == ResolverHosts(data, rules)
    ensures services == ResolverServices(data, rules.toText)
  {
    hide NameServices, RecordNames, ReadRecords, ReadQuestions, Dedup, Decode, RecordTurn, NameAt, AllHosts, TurnHosts,
         QuestionsLeft, RecordsLeft, HostsLeft, ResolverServices, ResolverHosts;
    if |data| < 12 {
      ShortPacket(data, rules);
      return [], [];
    }
    var questions := Word(data, 4);
    var answerRrs: nat, authorityRrs: nat, additionalRrs: nat := Word(data, 6), Word(data, 8), Word(data, 10);
    var totalRrs := answerRrs + authorityRrs + additionalRrs;
    if totalRrs == 0 {
      ShortPacket(data, rules);
      return [], [];
    }
    LoopsStart(data, questions);
    NoNames(rules.toText);
    ghost var read: seq<seq<Bytes>> := [];
    var pos: nat := 12;
    names, services := [], [];
    var i := 0;
    while i < questions
      invariant 0 <= i <= questions && names == []
      invariant services == NameServices(read, rules.toText)
      invariant QuestionsLeft(data, pos, questions - i, read) == ReadQuestions(data, 12, questions)
    {
      QuestionStep(data, pos, questions - i, read);
      var next;
      next, services := TakeName(data, pos, services, rules.toText, read);
      if next.None? {
        NoNameAt(data, pos, read);
        break;
      }
      read := read + NameAt(data, pos);
      pos := next.value + 4;
      i := i + 1;
    }
    QuestionStep(data, pos, questions - i, read);

    ghost var start, asked := pos, read;
    WalkResult(data, rules, asked, start, i == questions);
    i := 0;
    while i < totalRrs
      invariant 0 <= i <= totalRrs
      invariant services == NameServices(read, rules.toText)
      invariant RecordsLeft(data, pos, totalRrs - i, read) == RecordsLeft(data, start, totalRrs, asked)
      invariant HostsLeft(data, pos, totalRrs - i, rules, names) == HostsLeft(data, start, totalRrs, rules, [])
    {
      RecordStep(data, pos, totalRrs - i, read);
      HostStep(data, pos, totalRrs - i, rules, names);
      NextAlike(data, pos, read);
      var next;
      next, services, names := TakeRecordAndHosts(data, pos, services, names, rules, read);
      read := RecordTurn(data, pos, read).names;
      if next.None? {
        break;
      }
      pos := next.value;
      i := i + 1;
    }
    if i == totalRrs {
      RecordsDone(data, pos, read);
      HostsDone(data, pos, rules, names);
    }
    services := RetainFirst(services);
  }

  lemma NextAlike(data: Bytes, pos: nat, names: seq<seq<Bytes>>)
    ensures RecordTurn(data, pos, names).next == RecordTurn(data, pos, []).next
  {
    hide Decode, NameAt;
  }

  // ----- The choice -----

  function ScoreOf(name: Bytes, rules: TextRules): nat
  {
    if rules.startsUpper(name) then 3 else if HYPHEN in name then 2 else 1
  }

  function Eligible(names: seq<Bytes>, rules: TextRules): seq<Bytes>
  {
    if names == [] then [] else
      (if |names[0]| > 1 && !rules.isServiceLabel(names[0]) then [names[0]] else []) + Eligible(names[1..], rules)
  }

  /** The last of the highest-scored names. */
  function LastBest(names: seq<Bytes>, rules: TextRules): Option<Bytes>
  {
    if names == [] then None else
      var best := LastBest(names[..|names| - 1], rules);
      var last := names[|names| - 1];
      if best.Some? && ScoreOf(best.value, rules) > ScoreOf(last, rules) then best else Some(last)
  }

  function BestHostname(names: seq<Bytes>, rules: TextRules): Option<Bytes>
  {
    LastBest(Dedup(Eligible(names, rules)), rules)
  }

  lemma {:induction false} EligibleMembers(names: seq<Bytes>, rules: TextRules)
    ensures forall n :: n in Eligible(names, rules) <==> n in names && |n| > 1 && !rules.isServiceLabel(n)
  {
    if names != [] {
      EligibleMembers(names[1..], rules);
      assert names == [names[0]] + names[1..];
    }
  }

  lemma {:induction false} LastBestMeaning(names: seq<Bytes>, rules: TextRules) returns (i: nat)
    requires names != []
    ensures i < |names| && LastBest(names, rules) == Some(names[i])
    ensures forall j :: 0 <= j < |names| ==> ScoreOf(names[j], rules) <= ScoreOf(names[i], rules)
    ensures forall j :: i < j < |names| ==> ScoreOf(names[j], rules) < ScoreOf(names[i], rules)
  {
    hide ScoreOf;
    var n := |names| - 1;
    if n == 0 {
      i := 0;
    } else {
      var k := LastBestMeaning(names[..n], rules);
      assert forall j :: 0 <= j < n ==> names[..n][j] == names[j];
      i := if ScoreOf(names[k], rules) > ScoreOf(names[n], rules) then k else n;
    }
  }

  /** The choice is an eligible candidate that no eligible one outscores; there is none only if nobody is eligible. */
  lemma BestHostnameExactly(names: seq<Bytes>, rules: TextRules)
    ensures BestHostname(names, rules).None?
            <==> forall n :: n in names ==> |n| <= 1 || rules.isServiceLabel(n)
    ensures BestHostname(names, rules).Some? ==>
              var best := BestHostname(names, rules).value;
              && best in names && |best| > 1 && !rules.isServiceLabel(best)
              && forall n :: n in names && |n| > 1 && !rules.isServiceLabel(n) ==>
                   ScoreOf(n, rules) <= ScoreOf(best, rules)
  {
    hide ScoreOf;
    EligibleMembers(names, rules);
    MergeMeaning([], Eligible(names, rules));
    var kept := Dedup(Eligible(names, rules));
    if kept != [] {
      var i := LastBestMeaning(kept, rules);
      assert kept[i] in kept;
    }
  }

  // ----- Which name wins -----

  /** A capitalised name goes before any other, a hyphenated one before a plain one. */
  predicate Outranks(a: Bytes, b: Bytes, rules: TextRules)
  {
    if rules.startsUpper(a) then !rules.startsUpper(b) else 45 in a && !rules.startsUpper(b) && 45 !in b
  }

  predicate Qualifies(name: Bytes, rules: TextRules)
  {
    |name| > 1 && !rules.isServiceLabel(name)
  }

  /** The name at `i` is new there, no qualifying one outranks it, and it outranks every new one behind it. */
  ghost predicate Wins(names: seq<Bytes>, i: int, rules: TextRules)
  {
    && 0 <= i < |names| && Qualifies(names[i], rules) && OccursFirst(names, i)
    && (forall j :: 0 <= j < |names| && Qualifies(names[j], rules) ==> !Outranks(names[j], names[i], rules))
    && (forall j :: i < j < |names| && Qualifies(names[j], rules) && OccursFirst(names, j) ==>
          Outranks(names[i], names[j], rules))
  }

  lemma ScoreOrder(a: Bytes, b: Bytes, rules: TextRules)
    ensures ScoreOf(a, rules) > ScoreOf(b, rules) <==> Outranks(a, b, rules)
  {
  }

  lemma {:induction false} EligibleAppend(names: seq<Bytes>, x: Bytes, rules: TextRules)
    ensures Eligible(names + [x], rules) == Eligible(names, rules) + if Qualifies(x, rules) then [x] else []
  {
    if names == [] {
      assert names + [x] == [x] && [x][1..] == [];
    } else {
      assert (names + [x])[1..] == names[1..] + [x];
      EligibleAppend(names[1..], x, rules);
    }
  }

  lemma BestStep(names: seq<Bytes>, x: Bytes, rules: TextRules)
    ensures var best := BestHostname(names, rules);
            BestHostname(names + [x], rules) ==
            if !Qualifies(x, rules) || x in names then best
            else if best.Some? && Outranks(best.value, x, rules) then best
            else Some(x)
  {
    hide ScoreOf, Outranks;
    EligibleAppend(names, x, rules);
    EligibleMembers(names, rules);
    var eligible := Eligible(names, rules);
    assert eligible + [] == eligible;
    DedupLast(eligible, x);
    assert (Dedup(eligible) + [x])[..|Dedup(eligible)|] == Dedup(eligible);
    if BestHostname(names, rules).Some? {
      ScoreOrder(BestHostname(names, rules).value, x, rules);
    }
  }

  /** The chosen hostname wins in this sense, and there is none exactly when no name qualifies. */
  lemma {:induction false} BestHostnameWins(names: seq<Bytes>, rules: TextRules)
    ensures BestHostname(names, rules).Some? ==>
              exists i :: 0 <= i < |names| && Wins(names, i, rules) && names[i] == BestHostname(names, rules).value
    ensures BestHostname(names, rules).None? <==> forall n :: n in names ==> !Qualifies(n, rules)
  {
    hide ScoreOf;
    if names == [] {
    } else {
      var n := |names| - 1;
      var front, x := names[..n], names[n];
      assert names == front + [x];
      BestHostnameWins(front, rules);
      BestStep(front, x, rules);
      BestExtends(names, n, rules);
    }
  }

  lemma OutranksOrder(a: Bytes, b: Bytes, c: Bytes, rules: TextRules)
    ensures !Outranks(a, a, rules) && (Outranks(a, b, rules) ==> !Outranks(b, a, rules))
    ensures !Outranks(a, b, rules) && !Outranks(b, c, rules) ==> !Outranks(a, c, rules)
  {
  }

  lemma FrontSame(names: seq<Bytes>, n: nat)
    requires |names| == n + 1
    ensures forall j: nat :: j < n ==> (OccursFirst(names, j) <==> OccursFirst(names[..n], j))
    ensures OccursFirst(names, n) <==> names[n] !in names[..n]
  {
    hide OccursFirst;
    forall j: nat | j < n
      ensures OccursFirst(names, j) <==> OccursFirst(names[..n], j)
    {
      OccursFirstFront(names, n, j);
    }
    OccursFirstLast(names, n);
  }

  /** The winner stays when the next name does not qualify, is not new, or is outranked. */
  lemma WinnerStays(names: seq<Bytes>, n: nat, i: int, rules: TextRules)
    requires |names| == n + 1 && Wins(names[..n], i, rules)
    requires !Qualifies(names[n], rules) || names[n] in names[..n] || Outranks(names[..n][i], names[n], rules)
    ensures Wins(names, i, rules) && names[i] == names[..n][i]
  {
    hide Outranks, Qualifies, OccursFirst;
    FrontSame(names, n);
    OutranksOrder(names[i], names[n], names[n], rules);
    assert forall j :: 0 <= j < n ==> names[..n][j] == names[j];
  }

  /** A new qualifying name that the winner does not outrank takes over. */
  lemma WinnerYields(names: seq<Bytes>, n: nat, i: int, rules: TextRules)
    requires |names| == n + 1 && Wins(names[..n], i, rules)
    requires Qualifies(names[n], rules) && names[n] !in names[..n] && !Outranks(names[..n][i], names[n], rules)
    ensures Wins(names, n, rules)
  {
    hide Outranks, Qualifies, OccursFirst;
    FrontSame(names, n);
    forall j | 0 <= j <= n && Qualifies(names[j], rules)
      ensures !Outranks(names[j], names[n], rules)
    {
      OutranksOrder(names[j], names[i], names[n], rules);
      assert j < n ==> names[..n][j] == names[j];
    }
  }

  lemma BestExtends(names: seq<Bytes>, n: nat, rules: TextRules)
    requires |names| == n + 1
    requires BestHostname(names[..n], rules).Some? ==>
               exists i :: 0 <= i < n && Wins(names[..n], i, rules)
                           && names[..n][i] == BestHostname(names[..n], rules).value
    requires BestHostname(names[..n], rules).None? <==> forall m :: m in names[..n] ==> !Qualifies(m, rules)
    requires var best := BestHostname(names[..n], rules);
             BestHostname(names, rules) ==
             if !Qualifies(names[n], rules) || names[n] in names[..n] then best
             else if best.Some? && Outranks(best.value, names[n], rules) then best
             else Some(names[n])
    ensures BestHostname(names, rules).Some? ==>
              exists i :: 0 <= i < |names| && Wins(names, i, rules) && names[i] == BestHostname(names, rules).value
  {
    hide BestHostname, Outranks, Qualifies, OccursFirst, Wins;
    var front, x := names[..n], names[n];
    if BestHostname(front, rules).Some? {
      var i :| 0 <= i < n && Wins(front, i, rules) && front[i] == BestHostname(front, rules).value;
      if !Qualifies(x, rules) || x in front || Outranks(front[i], x, rules) {
        WinnerStays(names, n, i, rules);
      } else {
        WinnerYields(names, n, i, rules);
      }
    } else if Qualifies(x, rules) {
      FirstWins(names, n, rules);
    }
  }

  lemma FirstWins(names: seq<Bytes>, n: nat, rules: TextRules)
    requires |names| == n + 1 && Qualifies(names[n], rules)
    requires forall m :: m in names[..n] ==> !Qualifies(m, rules)
    ensures Wins(names, n, rules)
  {
    hide Qualifies, OccursFirst, Outranks;
    FrontSame(names, n);
    OutranksOrder(names[n], names[n], names[n], rules);
    assert forall j :: 0 <= j < n ==> names[j] == names[..n][j] && names[..n][j] in names[..n];
  }
}
