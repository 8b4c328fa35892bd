/** Reading the TCP options of a SYN-ACK (section 3.1 of RFC 9293, section 2.2 of RFC 7323). */
module TcpOptions {
  import opened Prelude

  type Bytes = seq<byte>

  datatype OptionKind = Mss | WindowScale | SackPermitted | Timestamp | Nop | Unknown(code: byte)

  datatype StackFingerprint = StackFingerprint(
    ttl: byte,
    window: nat,
    options: seq<OptionKind>,
    mss: Option<nat>,
    scale: Option<byte>,
    sackOk: bool,
    nopCount: byte)

  function KindOf(code: byte): OptionKind
  {
    match code
    case 1 => Nop
    case 2 => Mss
    case 3 => WindowScale
    case 4 => SackPermitted
    case 8 => Timestamp
    case _ => Unknown(code)
  }

  // ----- The reference walk over the options -----

  /** An option as found: its code and its payload (empty for padding). */
  datatype Opt = Opt(code: byte, payload: Bytes)

  /** The length of the option at the head of `data`, or `None` when the walk ends there. */
  function HeadLength(data: Bytes): Option<nat>
  {
    if data == [] || data[0] == 0 then None
    else if data[0] == 1 then Some(1)
    else if |data| < 2 || data[1] < 2 || data[1] > |data| then None
    else Some(data[1])
  }

  function OptionsOf(data: Bytes): seq<Opt>
    decreases |data|
  {
    match HeadLength(data)
    case None => []
    case Some(len) => [Opt(data[0], if len == 1 then [] else data[2..len])] + OptionsOf(data[len..])
  }

  function KindsOf(options: seq<Opt>): seq<OptionKind>
  {
    if options == [] then [] else [KindOf(options[0].code)] + KindsOf(options[1..])
  }

  /** The value of the last option with this code and at least `size` payload bytes. */
  function LastLong(options: seq<Opt>, code: byte, size: nat): Option<Bytes>
  {
    if options == [] then None else
      var later := LastLong(options[1..], code, size);
      if later.Some? then later
      else if options[0].code == code && |options[0].payload| >= size then Some(options[0].payload[..size])
      else None
  }

  function CountNops(kinds: seq<OptionKind>): nat
  {
    if kinds == [] then 0 else (if kinds[0].Nop? then 1 else 0) + CountNops(kinds[1..])
  }

  function Big(bytes: Bytes): nat
    requires |bytes| == 2
  {
    var high: nat, low: nat := bytes[0], bytes[1];
    high * 0x100 + low
  }

  function MssOf(options: seq<Opt>): Option<nat>
  {
    var last := LastLong(options, 2, 2);
    if last.Some? && |last.value| == 2 then Some(Big(last.value)) else None
  }

  function ScaleOf(options: seq<Opt>): Option<byte>
  {
    var last := LastLong(options, 3, 1);
    if last.Some? && |last.value| == 1 then Some(last.value[0]) else None
  }

  // ----- The two loops -----

  /** The head of the rest of the packet, in terms of the packet. */
  lemma HeadAt(data: Bytes, pos: nat)
    requires pos <= |data|
    ensures HeadLength(data[pos..]) ==
            if pos == |data| || data[pos] == 0 then None
            else if data[pos] == 1 then Some(1)
            else if pos + 1 >= |data| || data[pos + 1] < 2 || pos + data[pos + 1] > |data| then None
            else Some(data[pos + 1])
  {
  }

  /** Unfolding the walk at a position of the packet. */
  lemma WalkAt(data: Bytes, pos: nat)
    requires pos <= |data|
    ensures HeadLength(data[pos..]).None? ==> OptionsOf(data[pos..]) == []
    ensures HeadLength(data[pos..]).Some? ==>
              var len := HeadLength(data[pos..]).value;
              && pos + len <= |data| && 1 <= len
              && OptionsOf(data[pos..])
                 == [Opt(data[pos], if len == 1 then [] else data[pos + 2..pos + len])] + OptionsOf(data[pos + len..])
  {
    var rest := data[pos..];
    if HeadLength(rest).Some? {
      var len := HeadLength(rest).value;
      assert rest[len..] == data[pos + len..];
      assert len > 1 ==> rest[2..len] == data[pos + 2..pos + len];
    }
  }

  lemma KindsTurn(data: Bytes, pos: nat, kinds: seq<OptionKind>)
    requires pos <= |data|
    ensures HeadLength(data[pos..]).None? ==> kinds + KindsOf(OptionsOf(data[pos..])) == kinds
    ensures HeadLength(data[pos..]).Some? ==>
              var len := HeadLength(data[pos..]).value;
              && pos + len <= |data|
              && kinds + KindsOf(OptionsOf(data[pos..]))
                 == (kinds + [KindOf(data[pos])]) + KindsOf(OptionsOf(data[pos + len..]))
  {
    hide OptionsOf, HeadLength;
    WalkAt(data, pos);
    if HeadLength(data[pos..]).Some? {
      var options := OptionsOf(data[pos..]);
      assert options[1..] == OptionsOf(data[pos + HeadLength(data[pos..]).value..]);
      assert KindsOf(options) == [KindOf(data[pos])] + KindsOf(options[1..]);
    }
  }

  method ParseTcpOptions(data: Bytes) returns (kinds: seq<OptionKind>)
    ensures kinds == KindsOf(OptionsOf(data))
  {
    hide OptionsOf, KindsOf, HeadLength;
    kinds := [];
    var pos: nat := 0;
    assert data[0..] == data && [] + KindsOf(OptionsOf(data)) == KindsOf(OptionsOf(data));
    while pos < |data|
      invariant pos <= |data|
      invariant kinds + KindsOf(OptionsOf(data[pos..])) == KindsOf(OptionsOf(data))
    {
      HeadAt(data, pos);
      KindsTurn(data, pos, kinds);
      var kind := data[pos];
      if kind == 0 {
        return;
      }
      if kind == 1 {
        kinds := kinds + [Nop];
        pos := pos + 1;
        continue;
      }
      if pos + 1 >= |data| {
        return;
      }
      var len := data[pos + 1];
      if len < 2 || pos + len > |data| {
        return;
      }
      kinds := kinds + [match kind case 2 => Mss case 3 => WindowScale case 4 => SackPermitted case 8 => Timestamp
                        case _ => Unknown(kind)];
      pos := pos + len;
    }
    HeadAt(data, pos);
    KindsTurn(data, pos, kinds);
  }

  /** What the second loop will hold at the end: a later option overrides what has been read so far. */
  function Override<T>(sofar: Option<T>, later: Option<T>): Option<T>
  {
    if later.Some? then later else sofar
  }

  lemma HeadValues(head: Opt, rest: seq<Opt>)
    ensures MssOf([head] + rest)
         == Override(if head.code == 2 && |head.payload| >= 2 then Some(Big(head.payload[..2])) else None, MssOf(rest))
    ensures ScaleOf([head] + rest)
         == Override(if head.code == 3 && |head.payload| >= 1 then Some(head.payload[0]) else None, ScaleOf(rest))
  {
    LastLongSize(rest, 2, 2);
    LastLongSize(rest, 3, 1);
    assert ([head] + rest)[1..] == rest;
  }

  lemma {:induction false} LastLongSize(options: seq<Opt>, code: byte, size: nat)
    ensures LastLong(options, code, size).Some? ==> |LastLong(options, code, size).value| == size
  {
    if options != [] {
      LastLongSize(options[1..], code, size);
    }
  }

  method CountNopKinds(kinds: seq<OptionKind>) returns (count: nat)
    ensures count == CountNops(kinds)
  {
    count := 0;
    var i := 0;
    while i < |kinds|
      invariant 0 <= i <= |kinds|
      invariant count + CountNops(kinds[i..]) == CountNops(kinds)
    {
      assert kinds[i..][1..] == kinds[i + 1..];
      if kinds[i] == Nop {
        count := count + 1;
      }
      i := i + 1;
    }
  }

  lemma ValuesTurn(data: Bytes, pos: nat, mss: Option<nat>, scale: Option<byte>)
    requires pos <= |data|
    ensures HeadLength(data[pos..]).None? ==>
              && Override(mss, MssOf(OptionsOf(data[pos..]))) == mss
              && Override(scale, ScaleOf(OptionsOf(data[pos..]))) == scale
    ensures HeadLength(data[pos..]).Some? ==>
              var len := HeadLength(data[pos..]).value;
              && pos + len <= |data|
              && Override(mss, MssOf(OptionsOf(data[pos..])))
                 == Override(if data[pos] == 2 && len >= 4 then Some(Big([data[pos + 2], data[pos + 3]])) else mss,
                             MssOf(OptionsOf(data[pos + len..])))
              && Override(scale, ScaleOf(OptionsOf(data[pos..])))
                 == Override(if data[pos] == 3 && len >= 3 then Some(data[pos + 2]) else scale,
                             ScaleOf(OptionsOf(data[pos + len..])))
  {
    hide OptionsOf, HeadLength, MssOf, ScaleOf;
    WalkAt(data, pos);
    NoValues();
    if HeadLength(data[pos..]).Some? {
      var len := HeadLength(data[pos..]).value;
      var head := Opt(data[pos], if len == 1 then [] else data[pos + 2..pos + len]);
      HeadValues(head, OptionsOf(data[pos + len..]));
      if len >= 4 {
        assert head.payload[..2] == [data[pos + 2], data[pos + 3]];
      }
    }
  }

  method ReadValues(data: Bytes) returns (mss: Option<nat>, scale: Option<byte>)
    ensures mss == MssOf(OptionsOf(data)) && scale == ScaleOf(OptionsOf(data))
  {
    hide OptionsOf, HeadLength, MssOf, ScaleOf, Big;
    mss, scale := None, None;
    var pos: nat := 0;
    assert data[0..] == data;
    while pos < |data|
      invariant pos <= |data|
      invariant Override(mss, MssOf(OptionsOf(data[pos..]))) == MssOf(OptionsOf(data))
      invariant Override(scale, ScaleOf(OptionsOf(data[pos..]))) == ScaleOf(OptionsOf(data))
    {
      HeadAt(data, pos);
      ValuesTurn(data, pos, mss, scale);
      var kind := data[pos];
      if kind == 0 {
        return;
      }
      if kind == 1 {
        pos := pos + 1;
        continue;
      }
      if pos + 1 >= |data| {
        return;
      }
      var len := data[pos + 1];
      if len < 2 || pos + len > |data| {
        return;
      }
      if kind == 2 && len >= 4 {
        mss := Some(Big([data[pos + 2], data[pos + 3]]));
      } else if kind == 3 && len >= 3 {
        scale := Some(data[pos + 2]);
      }
      pos := pos + len;
    }
    HeadAt(data, pos);
    ValuesTurn(data, pos, mss, scale);
  }

  lemma NoValues()
    ensures MssOf([]) == None && ScaleOf([]) == None
  {
  }

  /** Both loops walk the same options; the padding count is kept in eight bits. */
  method ParseStackFingerprint(ttl: byte, window: nat, data: Bytes) returns (fp: StackFingerprint)
    ensures var options := OptionsOf(data);
            fp == StackFingerprint(ttl, window, KindsOf(options), MssOf(options), ScaleOf(options),
                                   SackPermitted in KindsOf(options), CountNops(KindsOf(options)) % 0x100)
  {
    var kinds := ParseTcpOptions(data);
    var nops := CountNopKinds(kinds);
    var mss, scale := ReadValues(data);
    fp := StackFingerprint(ttl, window, kinds, mss, scale, SackPermitted in kinds, nops % 0x100);
  }

  // ----- Encoding and decoding -----

  predicate Wellformed(o: Opt)
  {
    o.code != 0 && (o.code == 1 ==> o.payload == []) && |o.payload| <= 253
  }

  function EncodeOne(o: Opt): Bytes
    requires Wellformed(o)
  {
    if o.code == 1 then [1] else [o.code] + [|o.payload| + 2] + o.payload
  }

  function Encode(options: seq<Opt>): Bytes
    requires forall o :: o in options ==> Wellformed(o)
  {
    if options == [] then [] else EncodeOne(options[0]) + Encode(options[1..])
  }

  lemma EncodedHead(o: Opt, rest: Bytes)
    requires Wellformed(o)
    ensures var data := EncodeOne(o) + rest;
            && data != [] && HeadLength(data) == Some(|EncodeOne(o)|) && data[|EncodeOne(o)|..] == rest
            && data[0] == o.code && (if |EncodeOne(o)| == 1 then [] else data[2..|EncodeOne(o)|]) == o.payload
  {
    var data, len := EncodeOne(o) + rest, |EncodeOne(o)|;
    assert forall i :: 0 <= i < len ==> data[i] == EncodeOne(o)[i];
  }

  /** An encoded option is read back, and reading goes on behind it. */
  lemma HeadRead(o: Opt, rest: Bytes)
    requires Wellformed(o)
    ensures OptionsOf(EncodeOne(o) + rest) == [o] + OptionsOf(rest)
  {
    hide HeadLength, EncodeOne, Wellformed;
    EncodedHead(o, rest);
  }

  lemma NothingEncoded()
    ensures HeadLength([]) == None && OptionsOf([]) == []
  {
  }

  /** Decoding inverts encoding, for any list of well-formed options. */
  lemma {:induction false} DecodeInvertsEncode(options: seq<Opt>)
    requires forall o :: o in options ==> Wellformed(o)
    ensures OptionsOf(Encode(options)) == options
  {
    hide OptionsOf, EncodeOne, Wellformed;
    if options == [] {
      NothingEncoded();
    } else {
      HeadRead(options[0], Encode(options[1..]));
      DecodeInvertsEncode(options[1..]);
      assert options == [options[0]] + options[1..];
    }
  }

  /** The walk consumes all of `data`, meeting neither an end-of-list byte nor a malformed option. */
  predicate Consumed(data: Bytes)
    decreases |data|
  {
    data == [] || (HeadLength(data).Some? && Consumed(data[HeadLength(data).value..]))
  }

  /** The walk meets an end-of-list byte or an impossible length byte before the bytes run out. */
  predicate Ended(data: Bytes)
    decreases |data|
  {
    data != [] &&
    if HeadLength(data).Some? then Ended(data[HeadLength(data).value..])
    else data[0] == 0 || (|data| >= 2 && data[1] < 2)
  }

  /** Bytes behind a readable option leave it as it is. */
  lemma HeadAppend(a: Bytes, b: Bytes)
    requires HeadLength(a).Some?
    ensures var len := HeadLength(a).value;
            && 0 < len <= |a| && HeadLength(a + b) == Some(len) && (a + b)[0] == a[0]
            && (a + b)[len..] == a[len..] + b && (len > 1 ==> (a + b)[2..len] == a[2..len])
  {
    assert |a| >= 2 ==> (a + b)[1] == a[1];
  }

  lemma EndAppend(a: Bytes, b: Bytes)
    requires Ended(a) && HeadLength(a).None?
    ensures HeadLength(a + b).None?
  {
    assert (a + b)[0] == a[0];
    assert |a| >= 2 ==> (a + b)[1] == a[1];
  }

  /** Reading distributes over concatenation behind a consumed part; behind an ended one nothing counts. */
  lemma {:induction false} ConcatenationDistributes(a: Bytes, b: Bytes)
    ensures Consumed(a) ==> OptionsOf(a + b) == OptionsOf(a) + OptionsOf(b)
    ensures Ended(a) ==> OptionsOf(a + b) == OptionsOf(a)
    decreases |a|
  {
    hide HeadLength;
    if a == [] {
      NothingEncoded();
      assert a + b == b;
    } else if HeadLength(a).Some? {
      HeadAppend(a, b);
      var rest := a[HeadLength(a).value..];
      ConcatenationDistributes(rest, b);
      assert [OptionsOf(a)[0]] + (OptionsOf(rest) + OptionsOf(b)) == OptionsOf(a) + OptionsOf(b);
    } else if Ended(a) {
      EndAppend(a, b);
    }
  }

  lemma {:induction false} EncodedConsumed(options: seq<Opt>)
    requires forall o :: o in options ==> Wellformed(o)
    ensures Consumed(Encode(options))
  {
    if options != [] {
      EncodedHead(options[0], Encode(options[1..]));
      EncodedConsumed(options[1..]);
    }
  }

  /** Whatever follows an encoded list and its end-of-list byte, exactly the list is read. */
  lemma TerminatedListRead(options: seq<Opt>, junk: Bytes)
    requires forall o :: o in options ==> Wellformed(o)
    ensures OptionsOf(Encode(options) + [0] + junk) == options
  {
    DecodeInvertsEncode(options);
    EncodedConsumed(options);
    ConcatenationDistributes(Encode(options), [0] + junk);
    assert Encode(options) + [0] + junk == Encode(options) + ([0] + junk);
    assert OptionsOf([0] + junk) == [];
    assert options + [] == options;
  }

  // ----- What the values mean -----

  /** `LastLong` is the last option of the code that is long enough, if there is any. */
  lemma {:induction false} LastLongMeaning(options: seq<Opt>, code: byte, size: nat) returns (i: nat)
    ensures LastLong(options, code, size).None? ==>
              forall j :: 0 <= j < |options| ==> options[j].code != code || |options[j].payload| < size
    ensures LastLong(options, code, size).Some? ==>
              && i < |options| && options[i].code == code && |options[i].payload| >= size
              && LastLong(options, code, size).value == options[i].payload[..size]
              && forall j :: i < j < |options| ==> options[j].code != code || |options[j].payload| < size
  {
    if options == [] {
      i := 0;
    } else {
      var k := LastLongMeaning(options[1..], code, size);
      assert forall j :: 1 <= j < |options| ==> options[j] == options[1..][j - 1];
      i := if LastLong(options[1..], code, size).Some? then k + 1 else 0;
    }
  }

  lemma {:induction false} KindListed(options: seq<Opt>, i: nat)
    requires i < |options|
    ensures |KindsOf(options)| == |options| && KindsOf(options)[i] == KindOf(options[i].code)
  {
    if i > 0 {
      KindListed(options[1..], i - 1);
    } else if |options| > 1 {
      KindListed(options[1..], 0);
    }
  }

  /** A value is only reported together with its option's kind. */
  lemma ValueImpliesKind(data: Bytes)
    ensures MssOf(OptionsOf(data)).Some? ==> Mss in KindsOf(OptionsOf(data))
    ensures ScaleOf(OptionsOf(data)).Some? ==> WindowScale in KindsOf(OptionsOf(data))
  {
    var options := OptionsOf(data);
    var i := LastLongMeaning(options, 2, 2);
    if MssOf(options).Some? {
      KindListed(options, i);
    }
    var j := LastLongMeaning(options, 3, 1);
    if ScaleOf(options).Some? {
      KindListed(options, j);
    }
  }

  /** The reported kinds, by option code, in the order of the options. */
  lemma KindsMeaning(options: seq<Opt>, i: nat)
    requires i < |options|
    ensures |KindsOf(options)| == |options|
    ensures var code, kind := options[i].code, KindsOf(options)[i];
            && (kind == Nop <==> code == 1) && (kind == Mss <==> code == 2) && (kind == WindowScale <==> code == 3)
            && (kind == SackPermitted <==> code == 4) && (kind == Timestamp <==> code == 8)
            && (kind.Unknown? ==> kind.code == code)
  {
    KindListed(options, i);
  }

  // ----- The values of encoded options -----

  /** No option of this code is long enough to carry a value. */
  predicate NoneLong(options: seq<Opt>, code: byte, size: nat)
  {
    forall o :: o in options ==> o.code != code || |o.payload| < size
  }

  lemma {:induction false} NoneLongNone(options: seq<Opt>, code: byte, size: nat)
    ensures LastLong(options, code, size).None? <==> NoneLong(options, code, size)
  {
    if options != [] {
      NoneLongNone(options[1..], code, size);
      assert options == [options[0]] + options[1..];
    }
  }

  lemma {:induction false} LastLongIs(before: seq<Opt>, o: Opt, after: seq<Opt>, size: nat)
    requires |o.payload| >= size && NoneLong(after, o.code, size)
    ensures LastLong(before + [o] + after, o.code, size) == Some(o.payload[..size])
  {
    var options := before + [o] + after;
    if before == [] {
      assert options[1..] == after;
      NoneLongNone(after, o.code, size);
    } else {
      assert options[1..] == before[1..] + [o] + after;
      LastLongIs(before[1..], o, after, size);
    }
  }

  /** A segment size on the wire: two bytes, the high one first, in an option of code 2 and any larger length. */
  function SizeOption(v: nat, extra: Bytes): Opt
    requires v < 0x1_0000
  {
    Opt(2, [v / 0x100, v % 0x100] + extra)
  }

  /** A window scale on the wire: one byte in an option of code 3 and any larger length. */
  function ScaleOption(v: byte, extra: Bytes): Opt
  {
    Opt(3, [v] + extra)
  }

  lemma MssIs(before: seq<Opt>, v: nat, extra: Bytes, after: seq<Opt>)
    requires v < 0x1_0000 && NoneLong(after, 2, 2)
    ensures MssOf(before + [SizeOption(v, extra)] + after) == Some(v)
  {
    LastLongIs(before, SizeOption(v, extra), after, 2);
    var bytes := SizeOption(v, extra).payload[..2];
    assert bytes[0] == v / 0x100 && bytes[1] == v % 0x100;
  }

  lemma ScaleIs(before: seq<Opt>, v: byte, extra: Bytes, after: seq<Opt>)
    requires NoneLong(after, 3, 1)
    ensures ScaleOf(before + [ScaleOption(v, extra)] + after) == Some(v)
  {
    LastLongIs(before, ScaleOption(v, extra), after, 1);
  }

  /** The segment size read from the bytes of any options is that of the last one long enough to carry it. */
  lemma MssRead(before: seq<Opt>, v: nat, extra: Bytes, after: seq<Opt>)
    requires v < 0x1_0000 && |extra| <= 251 && NoneLong(after, 2, 2)
    requires forall o :: o in before + after ==> Wellformed(o)
    ensures var options := before + [SizeOption(v, extra)] + after;
            && (forall o :: o in options ==> Wellformed(o))
            && MssOf(OptionsOf(Encode(options))) == Some(v)
  {
    hide OptionsOf, Encode, MssOf;
    var options := before + [SizeOption(v, extra)] + after;
    forall o | o in options
      ensures Wellformed(o)
    {
      assert o in before + after || o == SizeOption(v, extra);
    }
    DecodeInvertsEncode(options);
    MssIs(before, v, extra, after);
  }

  /** Likewise the window scale. */
  lemma ScaleRead(before: seq<Opt>, v: byte, extra: Bytes, after: seq<Opt>)
    requires |extra| <= 252 && NoneLong(after, 3, 1)
    requires forall o :: o in before + after ==> Wellformed(o)
    ensures var options := before + [ScaleOption(v, extra)] + after;
            && (forall o :: o in options ==> Wellformed(o))
            && ScaleOf(OptionsOf(Encode(options))) == Some(v)
  {
    hide OptionsOf, Encode, ScaleOf;
    var options := before + [ScaleOption(v, extra)] + after;
    forall o | o in options
      ensures Wellformed(o)
    {
      assert o in before + after || o == ScaleOption(v, extra);
    }
    DecodeInvertsEncode(options);
    ScaleIs(before, v, extra, after);
  }

  /** No value is reported exactly when no option is long enough to carry it. */
  lemma NoValueExactly(options: seq<Opt>)
    ensures MssOf(options).None? <==> NoneLong(options, 2, 2)
    ensures ScaleOf(options).None? <==> NoneLong(options, 3, 1)
  {
    NoneLongNone(options, 2, 2);
    NoneLongNone(options, 3, 1);
    LastLongSize(options, 2, 2);
    LastLongSize(options, 3, 1);
  }

  // ----- Counting the padding -----

  lemma {:induction false} NopsBounded(data: Bytes)
    ensures CountNops(KindsOf(OptionsOf(data))) <= |data|
    decreases |data|
  {
    if HeadLength(data).Some? {
      var rest := data[HeadLength(data).value..];
      NopsBounded(rest);
      var options := OptionsOf(data);
      assert options[1..] == OptionsOf(rest);
      assert KindsOf(options)[1..] == KindsOf(options[1..]);
    }
  }

  /** The eight-bit padding count is exact for up to 255 option bytes. */
  lemma NopCountExact(data: Bytes)
    requires |data| <= 255
    ensures CountNops(KindsOf(OptionsOf(data))) % 0x100 == CountNops(KindsOf(OptionsOf(data)))
  {
    hide CountNops, OptionsOf, KindsOf;
    NopsBounded(data);
  }

  /** The option bytes a TCP header has room for; its four-bit data offset counts words of four bytes. */
  function OptionRoom(dataOffset: nat): nat
  {
    if 4 * dataOffset <= 20 then 0 else 4 * dataOffset - 20
  }

  /** Every header's padding count is exact: no more than 40 option bytes ever arrive. */
  lemma HeaderNopsExact(dataOffset: nat, data: Bytes)
    requires dataOffset < 16 && |data| <= OptionRoom(dataOffset)
    ensures CountNops(KindsOf(OptionsOf(data))) % 0x100 == CountNops(KindsOf(OptionsOf(data))) <= 40
  {
    hide CountNops, OptionsOf, KindsOf;
    NopsBounded(data);
  }

  function Nops(n: nat): Bytes
  {
    if n == 0 then [] else [1] + Nops(n - 1)
  }

  lemma {:induction false} NopsCounted(n: nat)
    ensures |Nops(n)| == n && CountNops(KindsOf(OptionsOf(Nops(n)))) == n
  {
    if n > 0 {
      NopsCounted(n - 1);
      assert Nops(n)[1..] == Nops(n - 1);
      var options := OptionsOf(Nops(n));
      assert options[1..] == OptionsOf(Nops(n - 1));
      assert KindsOf(options)[1..] == KindsOf(options[1..]);
    }
  }

  /** The bound of 255 is tight: `n` bytes of padding are counted as `n` if and only if it holds. */
  lemma PaddingCountedExactly(n: nat)
    ensures |Nops(n)| == n && (CountNops(KindsOf(OptionsOf(Nops(n)))) % 0x100 == n <==> n <= 255)
  {
    hide Nops, CountNops, OptionsOf, KindsOf;
    NopsCounted(n);
  }
}
