/** Building mDNS queries and reading their names back. */
module DnsQuery {
  import opened Prelude
  import opened DnsName

  type u16 = x: int | 0 <= x < 0x1_0000

  function BigEndian(x: u16): Bytes
  {
    [x / 0x100, x % 0x100]
  }

  /** The parts of a text between dots; there is always at least one. */
  function Split(s: Bytes): (parts: seq<Bytes>)
    ensures |parts| >= 1
  {
    if s == [] then [[]] else
      var rest := Split(s[1..]);
      if s[0] == DOT then [[]] + rest else [[s[0]] + rest[0]] + rest[1..]
  }

  function NonEmpty(parts: seq<Bytes>): seq<Bytes>
  {
    if parts == [] then [] else (if parts[0] == [] then [] else [parts[0]]) + NonEmpty(parts[1..])
  }

  /** Labels with their length bytes; the length is truncated to eight bits. */
  function EncodeLabels(labels: seq<Bytes>): Bytes
  {
    if labels == [] then [] else [|labels[0]| % 0x100] + labels[0] + EncodeLabels(labels[1..])
  }

  function QueryHeader(id: u16): Bytes
  {
    BigEndian(id) + [0, 0, 0, 1, 0, 0, 0, 0, 0, 0]
  }

  /** A query for `name` with the given type (12 for PTR, 1 for A), class IN. */
  function Query(name: Bytes, id: u16, qtype: byte): Bytes
  {
    QueryHeader(id) + EncodeLabels(NonEmpty(Split(name))) + [0] + [0, qtype, 0, 1]
  }

  lemma EncodeFirst(part: Bytes, rest: seq<Bytes>)
    ensures EncodeLabels([part] + rest) == [|part| % 0x100] + part + EncodeLabels(rest)
  {
    assert ([part] + rest)[1..] == rest;
  }

  lemma Regroup4(a: Bytes, b: Bytes, c: Bytes, d: Bytes)
    ensures a + (b + c + d) == a + b + c + d
  {
  }

  lemma NonEmptyStep(parts: seq<Bytes>)
    requires parts != []
    ensures parts[0] == [] ==> NonEmpty(parts) == NonEmpty(parts[1..])
    ensures parts[0] != [] ==> NonEmpty(parts) == [parts[0]] + NonEmpty(parts[1..])
  {
  }

  /** A non-empty part is encoded in front of the rest. */
  lemma PartEncoded(packet: Bytes, part: Bytes, rest: seq<Bytes>)
    ensures packet + EncodeLabels([part] + rest) == packet + [|part| % 0x100] + part + EncodeLabels(rest)
  {
    hide EncodeLabels;
    EncodeFirst(part, rest);
    Regroup4(packet, [|part| % 0x100], part, EncodeLabels(rest));
  }

  method BuildQuery(name: Bytes, id: u16, qtype: byte) returns (packet: Bytes)
    ensures packet == Query(name, id, qtype)
  {
    packet := [];
    packet := packet + BigEndian(id);
    packet := packet + [0, 0];
    packet := packet + [0, 1];
    packet := packet + [0, 0];
    packet := packet + [0, 0];
    packet := packet + [0, 0];
    assert packet == QueryHeader(id);
    hide EncodeLabels, NonEmpty, Split, QueryHeader;
    var parts := Split(name);
    var i := 0;
    assert parts[0..] == parts;
    while i < |parts|
      invariant 0 <= i <= |parts|
      invariant packet + EncodeLabels(NonEmpty(parts[i..])) == QueryHeader(id) + EncodeLabels(NonEmpty(parts))
    {
      var part := parts[i];
      assert parts[i..][1..] == parts[i + 1..];
      NonEmptyStep(parts[i..]);
      i := i + 1;
      if part == [] {
        continue;
      }
      PartEncoded(packet, part, NonEmpty(parts[i..]));
      packet := packet + [|part| % 0x100];
      packet := packet + part;
    }
    assert packet + EncodeLabels(NonEmpty([])) == packet by {
      NoLabels();
    }
    packet := packet + [0];
    packet := packet + [0, qtype];
    packet := packet + [0, 1];
  }

  lemma NoLabels()
    ensures EncodeLabels(NonEmpty([])) == []
  {
  }

  /** In a built query every label stands behind its length modulo 256. */
  lemma {:induction false} LabelsSpelled(front: seq<Bytes>, text: Bytes, rest: seq<Bytes>)
    ensures EncodeLabels(front + [text] + rest)
         == EncodeLabels(front) + [|text| % 256] + text + EncodeLabels(rest)
  {
    var labels := front + [text] + rest;
    if front == [] {
      assert labels[1..] == rest;
    } else {
      assert labels[1..] == front[1..] + [text] + rest;
      LabelsSpelled(front[1..], text, rest);
    }
  }

  // ----- Reading the name back -----

  /** The reader's idea of a plain length byte: not zero, not a pointer. */
  predicate Readable(text: Bytes)
  {
    1 <= |text| < COMPRESSED
  }

  lemma Regroup(front: Bytes, head: byte, text: Bytes, rest: Bytes, tail: Bytes)
    ensures var data := front + ([head] + text + rest) + tail;
            && data == (front + [head] + text) + rest + tail
            && data[|front|] == head && data[|front| + 1..|front| + 1 + |text|] == text
  {
  }

  /** A packet whose name starts behind `front`. */
  function Packet(front: Bytes, labels: seq<Bytes>, tail: Bytes): Bytes
  {
    front + EncodeLabels(labels) + ([0] + tail)
  }

  /** What follows the first label is again such a packet. */
  lemma PacketStep(front: Bytes, labels: seq<Bytes>, tail: Bytes) returns (more: Bytes)
    requires labels != []
    ensures more == front + [|labels[0]| % 0x100] + labels[0]
    ensures var data := Packet(front, labels, tail);
            && data == Packet(more, labels[1..], tail) && data[|front|] == |labels[0]| % 0x100
            && data[|front| + 1..|front| + 1 + |labels[0]|] == labels[0]
  {
    more := front + [|labels[0]| % 0x100] + labels[0];
    Regroup(front, |labels[0]| % 0x100, labels[0], EncodeLabels(labels[1..]), [0] + tail);
  }

  lemma PacketLong(front: Bytes, labels: seq<Bytes>, tail: Bytes)
    ensures |Packet(front, labels, tail)| > |front|
  {
    hide EncodeLabels;
  }

  /** A readable first label is read as itself; any other is cut short, taken for the end, or taken for a pointer. */
  lemma FirstHop(front: Bytes, labels: seq<Bytes>, tail: Bytes, more: Bytes)
    requires labels != [] && more == front + [|labels[0]| % 0x100] + labels[0]
    ensures var hop := HopAt(Packet(front, labels, tail), |front|);
            && (Readable(labels[0]) ==> hop == Label(labels[0], |more|))
            && (|labels[0]| >= COMPRESSED ==>
                  match hop
                  case Label(text, _) => |text| < |labels[0]|
                  case Jump(_, after) => after < |more|
                  case _ => true)
  {
    hide Packet, EncodeLabels;
    var again := PacketStep(front, labels, tail);
    PacketLong(more, labels[1..], tail);
  }

  lemma {:induction false} EncodedDecodes(front: Bytes, labels: seq<Bytes>, tail: Bytes)
    requires forall l :: l in labels ==> Readable(l)
    ensures Decode(Packet(front, labels, tail), |front|)
         == Some(Name(labels, |front| + |EncodeLabels(labels)| + 1))
    decreases |labels|
  {
    hide Decode;
    DecodeHop(Packet(front, labels, tail), |front|);
    if labels == [] {
      assert Packet(front, labels, tail)[|front|] == 0;
    } else {
      var more := PacketStep(front, labels, tail);
      FirstHop(front, labels, tail, more);
      EncodedDecodes(more, labels[1..], tail);
      assert labels == [labels[0]] + labels[1..];
    }
  }

  /** An over-long first label is never read as itself followed by anything. */
  lemma FirstMisread(front: Bytes, labels: seq<Bytes>, tail: Bytes, name: Name)
    requires labels != [] && |labels[0]| >= COMPRESSED
    requires Decode(Packet(front, labels, tail), |front|) == Some(name)
    ensures (name.labels != [] && name.labels[0] != labels[0]) || name.next <= |front| + |labels[0]|
  {
    var data := Packet(front, labels, tail);
    DecodeHop(data, |front|);
    FirstHop(front, labels, tail, front + [|labels[0]| % 0x100] + labels[0]);
  }

  lemma {:induction false} OverlongMisread(front: Bytes, labels: seq<Bytes>, tail: Bytes, name: Name)
    requires forall l :: l in labels ==> |l| >= 1
    requires exists l :: l in labels && !Readable(l)
    requires Decode(Packet(front, labels, tail), |front|) == Some(name)
    ensures name != Name(labels, |front| + |EncodeLabels(labels)| + 1)
    decreases |labels|
  {
    var data := Packet(front, labels, tail);
    if Readable(labels[0]) {
      var more := PacketStep(front, labels, tail);
      FirstHop(front, labels, tail, more);
      DecodeHop(data, |front|);
      assert labels == [labels[0]] + labels[1..];
      OverlongMisread(more, labels[1..], tail, Name(name.labels[1..], name.next));
    } else {
      FirstMisread(front, labels, tail, name);
    }
  }

  lemma {:induction false} NonEmptyParts(parts: seq<Bytes>)
    ensures forall l :: l in NonEmpty(parts) <==> l in parts && l != []
  {
    if parts != [] {
      NonEmptyParts(parts[1..]);
      assert parts == [parts[0]] + parts[1..];
    }
  }

  /**
   * A built query reads back as exactly the name's non-empty labels, ending right before the type and class,
   * if and only if every label is shorter than 192 bytes; the format's own limit of 63 is well inside.
   */
  lemma QueryRoundTripExactly(name: Bytes, id: u16, qtype: byte)
    ensures var labels := NonEmpty(Split(name));
            Decode(Query(name, id, qtype), 12) == Some(Name(labels, |Query(name, id, qtype)| - 4))
            <==> forall l :: l in labels ==> |l| < 192
  {
    var labels := NonEmpty(Split(name));
    NonEmptyParts(Split(name));
    QueryIsPacket(name, id, qtype);
    var q := Query(name, id, qtype);
    if forall l :: l in labels ==> |l| < 192 {
      EncodedDecodes(QueryHeader(id), labels, [0, qtype, 0, 1]);
    } else if Decode(q, 12).Some? {
      OverlongMisread(QueryHeader(id), labels, [0, qtype, 0, 1], Decode(q, 12).value);
    }
  }

  lemma QueryIsPacket(name: Bytes, id: u16, qtype: byte)
    ensures |QueryHeader(id)| == 12
    ensures Query(name, id, qtype) == Packet(QueryHeader(id), NonEmpty(Split(name)), [0, qtype, 0, 1])
    ensures |Query(name, id, qtype)| == 12 + |EncodeLabels(NonEmpty(Split(name)))| + 5
  {
  }

  /** In text form: the reader returns the labels joined by dots when their conversion to text is faithful. */
  lemma QueryReadsBack(name: Bytes, id: u16, qtype: byte, toText: ToText)
    requires forall l :: l in NonEmpty(Split(name)) ==> |l| < 192 && toText(l) == l
    ensures Read(Decode(Query(name, id, qtype), 12), toText)
         == Some((Join(NonEmpty(Split(name))), |Query(name, id, qtype)| - 4))
  {
    QueryRoundTripExactly(name, id, qtype);
    FaithfulTexts(NonEmpty(Split(name)), toText);
  }

  // ----- Splitting and joining -----

  lemma {:induction false} SplitHasNoDots(s: Bytes)
    ensures forall p :: p in Split(s) ==> DOT !in p
  {
    if s != [] {
      SplitHasNoDots(s[1..]);
      var rest := Split(s[1..]);
      assert rest[0] in rest;
    }
  }

  lemma {:induction false} SplitAtDot(a: Bytes, b: Bytes)
    requires DOT !in a
    ensures Split(a) == [a]
    ensures Split(a + [DOT] + b) == [a] + Split(b)
  {
    var s := a + [DOT] + b;
    if a == [] {
      assert s[1..] == b;
    } else {
      assert s[1..] == a[1..] + [DOT] + b;
      assert a == [a[0]] + a[1..];
      SplitAtDot(a[1..], b);
    }
  }

  lemma JoinStep(labels: seq<Bytes>)
    requires labels != []
    ensures |labels| == 1 ==> Join(labels) == labels[0]
    ensures |labels| > 1 ==> Join(labels) == labels[0] + [DOT] + Join(labels[1..])
  {
  }

  /** Labels without dots survive joining and splitting. */
  lemma {:induction false} SplitJoin(labels: seq<Bytes>)
    requires labels != [] && forall l :: l in labels ==> DOT !in l
    ensures Split(Join(labels)) == labels
  {
    hide Split, Join;
    JoinStep(labels);
    if |labels| == 1 {
      SplitAtDot(labels[0], []);
      assert labels == [labels[0]];
    } else {
      SplitJoin(labels[1..]);
      SplitAtDot(labels[0], Join(labels[1..]));
      assert labels == [labels[0]] + labels[1..];
    }
  }

  /** Every text is its parts joined, and no part has a dot. */
  lemma {:induction false} JoinSplit(s: Bytes)
    ensures Join(Split(s)) == s && forall p :: p in Split(s) ==> DOT !in p
  {
    SplitHasNoDots(s);
    if s != [] {
      JoinSplit(s[1..]);
      var rest := Split(s[1..]);
      assert s == [s[0]] + s[1..];
      if s[0] == DOT {
        assert ([[]] + rest)[1..] == rest;
      } else {
        var parts := [[s[0]] + rest[0]] + rest[1..];
        assert parts[1..] == rest[1..];
      }
    }
  }
}
