/** IPv4 and MAC addresses and the texts the store uses as keys. */
module Addresses {
  import opened Prelude

  type Ipv4 = a: int | 0 <= a < 0x1_0000_0000

  datatype Mac = Mac(b0: byte, b1: byte, b2: byte, b3: byte, b4: byte, b5: byte)

  const UNSPECIFIED: Ipv4 := 0
  const NIL := Mac(0, 0, 0, 0, 0, 0)
  const BROADCAST := Mac(0xff, 0xff, 0xff, 0xff, 0xff, 0xff)

  /** The four octets, most significant first. */
  function Octets(ip: Ipv4): (byte, byte, byte, byte)
  {
    var upper24 := ip / 0x100;
    var upper16 := upper24 / 0x100;
    (upper16 / 0x100, upper16 % 0x100, upper24 % 0x100, ip % 0x100)
  }

  predicate IsLoopback(ip: Ipv4)
  {
    Octets(ip).0 == 127
  }

  predicate IsMulticast(ip: Ipv4)
  {
    224 <= Octets(ip).0 < 240
  }

  function Digit(d: nat): char
    requires d < 10
  {
    '0' + d as char
  }

  function Decimal(b: byte): string
  {
    if b < 10 then [Digit(b)]
    else if b < 100 then [Digit(b / 10), Digit(b % 10)]
    else [Digit(b / 100), Digit(b / 10 % 10), Digit(b % 10)]
  }

  /** Dotted decimal parts, separated by single dots. */
  function Dotted(parts: seq<byte>): string
  {
    if parts == [] then "" else "." + Decimal(parts[0]) + Dotted(parts[1..])
  }

  /** Standard dotted-quad text of an address. */
  function IpText(ip: Ipv4): string
  {
    var o := Octets(ip);
    Decimal(o.0) + Dotted([o.1, o.2, o.3])
  }

  function HexDigit(d: nat, ten: char): char
    requires d < 16 && ten <= 'a'
  {
    if d < 10 then Digit(d) else ten + (d - 10) as char
  }

  function Hex(bytes: seq<byte>): string
  {
    if bytes == [] then "" else [HexDigit(bytes[0] / 16, 'a'), HexDigit(bytes[0] % 16, 'a')] + Hex(bytes[1..])
  }

  function MacBytes(m: Mac): seq<byte>
  {
    [m.b0, m.b1, m.b2, m.b3, m.b4, m.b5]
  }

  /** The store key of a device with a known MAC: twelve lower-case hexadecimal digits. */
  function MacKey(m: Mac): string
  {
    Hex(MacBytes(m))
  }

  function ColonHex(bytes: seq<byte>): string
  {
    if bytes == [] then "" else
      (if |bytes| == 1 then "" else ColonHex(bytes[..|bytes| - 1]) + ":")
      + [HexDigit(bytes[|bytes| - 1] / 16, 'A'), HexDigit(bytes[|bytes| - 1] % 16, 'A')]
  }

  /** Display text of a MAC: six upper-case pairs joined by colons. */
  function MacText(m: Mac): string
  {
    ColonHex(MacBytes(m))
  }

  // ----- The key texts identify their addresses -----

  lemma {:induction false} HexInjective(a: seq<byte>, b: seq<byte>)
    requires |a| == |b| && Hex(a) == Hex(b)
    ensures a == b
    decreases |a|
  {
    if a != [] {
      var x, y := Hex(a), Hex(b);
      assert x[0] == y[0] && x[1] == y[1];
      assert a[0] / 16 == b[0] / 16 && a[0] % 16 == b[0] % 16;
      assert x[2..] == Hex(a[1..]) && y[2..] == Hex(b[1..]);
      HexInjective(a[1..], b[1..]);
    }
  }

  lemma {:induction false} HexHasNoDot(a: seq<byte>)
    ensures '.' !in Hex(a)
    decreases |a|
  {
    if a != [] {
      HexHasNoDot(a[1..]);
    }
  }

  lemma DecimalInjective(a: byte, b: byte)
    requires Decimal(a) == Decimal(b)
    ensures a == b
  {
    var x, y := Decimal(a), Decimal(b);
    assert |x| == |y| && x[0] == y[0];
    if a >= 10 {
      assert x[1] == y[1];
      if a >= 100 {
        assert x[2] == y[2];
        assert a / 10 == b / 10;
      }
    }
  }

  /** Decimal text never contains a dot, so the first dot delimits the first part. */
  lemma FirstPart(a: string, x: string, b: string, y: string)
    requires '.' !in a && '.' !in b
    requires x == "" || x[0] == '.'
    requires y == "" || y[0] == '.'
    requires a + x == b + y
    ensures a == b && x == y
  {
    var s, t := a + x, b + y;
    assert forall i :: 0 <= i < |a| ==> s[i] == a[i];
    assert forall i :: 0 <= i < |b| ==> t[i] == b[i];
    assert |a| < |s| ==> s[|a|] == '.';
    assert |b| < |t| ==> t[|b|] == '.';
    assert |a| == |b|;
    assert a == (a + x)[..|a|] && b == (b + y)[..|b|];
    assert x == (a + x)[|a|..] && y == (b + y)[|b|..];
  }

  lemma DecimalHasNoDot(b: byte)
    ensures '.' !in Decimal(b)
  {
  }

  lemma {:induction false} DottedInjective(a: seq<byte>, b: seq<byte>)
    requires |a| == |b| && Dotted(a) == Dotted(b)
    ensures a == b
    decreases |a|
  {
    hide Decimal;
    if a != [] {
      var da, db, ra, rb := Decimal(a[0]), Decimal(b[0]), Dotted(a[1..]), Dotted(b[1..]);
      assert Dotted(a)[1..] == da + ra && Dotted(b)[1..] == db + rb;
      DecimalHasNoDot(a[0]);
      DecimalHasNoDot(b[0]);
      FirstPart(da, ra, db, rb);
      DecimalInjective(a[0], b[0]);
      DottedInjective(a[1..], b[1..]);
    }
  }

  lemma OctetsInjective(a: Ipv4, b: Ipv4)
    requires Octets(a) == Octets(b)
    ensures a == b
  {
    assert a / 0x100 / 0x100 == b / 0x100 / 0x100;
    assert a / 0x100 == b / 0x100;
  }

  lemma QuadInjective(a: byte, u: seq<byte>, b: byte, v: seq<byte>)
    requires |u| == |v| && Decimal(a) + Dotted(u) == Decimal(b) + Dotted(v)
    ensures a == b && u == v
  {
    hide Decimal;
    DecimalHasNoDot(a);
    DecimalHasNoDot(b);
    FirstPart(Decimal(a), Dotted(u), Decimal(b), Dotted(v));
    DecimalInjective(a, b);
    DottedInjective(u, v);
  }

  lemma IpTextInjective(a: Ipv4, b: Ipv4)
    requires IpText(a) == IpText(b)
    ensures a == b
  {
    var o, p := Octets(a), Octets(b);
    var u, v := [o.1, o.2, o.3], [p.1, p.2, p.3];
    QuadInjective(o.0, u, p.0, v);
    assert u[0] == v[0] && u[1] == v[1] && u[2] == v[2];
    OctetsInjective(a, b);
  }

  lemma MacKeyInjective(a: Mac, b: Mac)
    requires MacKey(a) == MacKey(b)
    ensures a == b
  {
    var x, y := MacBytes(a), MacBytes(b);
    HexInjective(x, y);
    assert forall i :: 0 <= i < 6 ==> x[i] == y[i];
    assert x[0] == a.b0 && x[1] == a.b1 && x[2] == a.b2 && x[3] == a.b3 && x[4] == a.b4 && x[5] == a.b5;
  }

  lemma {:induction false} ColonHexLength(a: seq<byte>)
    ensures |ColonHex(a)| == if a == [] then 0 else 3 * |a| - 1
    decreases |a|
  {
    if |a| > 1 {
      ColonHexLength(a[..|a| - 1]);
    }
  }

  lemma PairInjective(a: byte, b: byte)
    requires HexDigit(a / 16, 'A') == HexDigit(b / 16, 'A') && HexDigit(a % 16, 'A') == HexDigit(b % 16, 'A')
    ensures a == b
  {
    assert a / 16 == b / 16 && a % 16 == b % 16;
  }

  lemma {:induction false} ColonHexInjective(a: seq<byte>, b: seq<byte>)
    requires |a| == |b| && ColonHex(a) == ColonHex(b)
    ensures a == b
    decreases |a|
  {
    hide HexDigit;
    if a != [] {
      var n := |a| - 1;
      var x, y := ColonHex(a), ColonHex(b);
      ColonHexLength(a);
      ColonHexLength(b);
      assert x[|x| - 2] == y[|y| - 2] && x[|x| - 1] == y[|y| - 1];
      PairInjective(a[n], b[n]);
      if n > 0 {
        assert x[..|x| - 3] == ColonHex(a[..n]) && y[..|y| - 3] == ColonHex(b[..n]);
        ColonHexInjective(a[..n], b[..n]);
        assert a == a[..n] + [a[n]] && b == b[..n] + [b[n]];
      }
    }
  }

  /** The displayed text of a MAC determines it. */
  lemma MacTextInjective(a: Mac, b: Mac)
    requires MacText(a) == MacText(b)
    ensures a == b
  {
    hide ColonHex;
    var x, y := MacBytes(a), MacBytes(b);
    ColonHexInjective(x, y);
    assert forall i :: 0 <= i < 6 ==> x[i] == y[i];
    assert x[0] == a.b0 && x[1] == a.b1 && x[2] == a.b2 && x[3] == a.b3 && x[4] == a.b4 && x[5] == a.b5;
  }

  /** MAC keys and IP keys never collide. */
  lemma KeysDisjoint(m: Mac, ip: Ipv4)
    ensures MacKey(m) != IpText(ip)
  {
    HexHasNoDot(MacBytes(m));
    var o := Octets(ip);
    assert IpText(ip)[|Decimal(o.0)|] == '.';
  }

  /** Equal keys mean equal devices, for both kinds of key. */
  lemma KeysIdentify()
    ensures forall a: Mac, b: Mac :: MacKey(a) == MacKey(b) ==> a == b
    ensures forall a: Ipv4, b: Ipv4 :: IpText(a) == IpText(b) ==> a == b
    ensures forall m: Mac, ip: Ipv4 :: MacKey(m) != IpText(ip)
  {
    forall a: Mac, b: Mac | MacKey(a) == MacKey(b)
      ensures a == b
    {
      MacKeyInjective(a, b);
    }
    forall a: Ipv4, b: Ipv4 | IpText(a) == IpText(b)
      ensures a == b
    {
      IpTextInjective(a, b);
    }
    forall m: Mac, ip: Ipv4
      ensures MacKey(m) != IpText(ip)
    {
      KeysDisjoint(m, ip);
    }
  }

  // ----- What the texts say -----

  /** The value of a lower-case hexadecimal digit. */
  function HexValue(c: char): Option<nat>
  {
    if '0' <= c <= '9' then Some((c - '0') as nat)
    else if 'a' <= c <= 'f' then Some((c - 'a') as nat + 10)
    else None
  }

  /** `text` spells the byte in two lower-case hexadecimal digits, the high one first. */
  predicate SpellsHex(text: string, b: byte)
  {
    && |text| == 2 && HexValue(text[0]).Some? && HexValue(text[1]).Some?
    && 16 * HexValue(text[0]).value + HexValue(text[1]).value == b
  }

  lemma HexSpelled(b: byte)
    ensures SpellsHex([HexDigit(b / 16, 'a'), HexDigit(b % 16, 'a')], b)
  {
  }

  lemma {:induction false} HexPairs(bytes: seq<byte>, i: nat)
    requires i < |bytes|
    ensures |Hex(bytes)| == 2 * |bytes| && SpellsHex(Hex(bytes)[2 * i..2 * i + 2], bytes[i])
    decreases |bytes|
  {
    hide HexDigit, SpellsHex;
    HexSpelled(bytes[0]);
    var rest := Hex(bytes[1..]);
    if i > 0 {
      HexPairs(bytes[1..], i - 1);
      assert Hex(bytes)[2 * i..2 * i + 2] == rest[2 * (i - 1)..2 * (i - 1) + 2];
    } else {
      if |bytes| > 1 {
        HexPairs(bytes[1..], 0);
      }
      assert Hex(bytes)[..2] == [HexDigit(bytes[0] / 16, 'a'), HexDigit(bytes[0] % 16, 'a')];
    }
  }

  /** A MAC key spells the six bytes in order, in twelve lower-case hexadecimal digits. */
  lemma MacKeyReads(m: Mac)
    ensures var key := MacKey(m);
            && |key| == 12
            && SpellsHex(key[0..2], m.b0) && SpellsHex(key[2..4], m.b1) && SpellsHex(key[4..6], m.b2)
            && SpellsHex(key[6..8], m.b3) && SpellsHex(key[8..10], m.b4) && SpellsHex(key[10..12], m.b5)
  {
    hide SpellsHex, Hex;
    var bytes := MacBytes(m);
    assert bytes[0] == m.b0 && bytes[1] == m.b1 && bytes[2] == m.b2;
    assert bytes[3] == m.b3 && bytes[4] == m.b4 && bytes[5] == m.b5;
    forall i: nat | i < 6
      ensures |Hex(bytes)| == 12 && SpellsHex(Hex(bytes)[2 * i..2 * i + 2], bytes[i])
    {
      HexPairs(bytes, i);
    }
    var key := Hex(bytes);
    assert SpellsHex(key[2 * 0..2 * 0 + 2], m.b0) && SpellsHex(key[2 * 1..2 * 1 + 2], m.b1);
    assert SpellsHex(key[2 * 2..2 * 2 + 2], m.b2) && SpellsHex(key[2 * 3..2 * 3 + 2], m.b3);
    assert SpellsHex(key[2 * 4..2 * 4 + 2], m.b4) && SpellsHex(key[2 * 5..2 * 5 + 2], m.b5);
  }

  /** The value of an upper-case hexadecimal digit. */
  function UpperHexValue(c: char): Option<nat>
  {
    if '0' <= c <= '9' then Some((c - '0') as nat)
    else if 'A' <= c <= 'F' then Some((c - 'A') as nat + 10)
    else None
  }

  predicate SpellsUpperHex(text: string, b: byte)
  {
    && |text| == 2 && UpperHexValue(text[0]).Some? && UpperHexValue(text[1]).Some?
    && 16 * UpperHexValue(text[0]).value + UpperHexValue(text[1]).value == b
  }

  lemma UpperHexSpelled(b: byte)
    ensures SpellsUpperHex([HexDigit(b / 16, 'A'), HexDigit(b % 16, 'A')], b)
  {
  }

  lemma {:induction false} ColonHexPairs(bytes: seq<byte>, i: nat)
    requires i < |bytes|
    ensures |ColonHex(bytes)| == 3 * |bytes| - 1
    ensures SpellsUpperHex(ColonHex(bytes)[3 * i..3 * i + 2], bytes[i])
    ensures i > 0 ==> ColonHex(bytes)[3 * i - 1] == ':'
    decreases |bytes|
  {
    hide HexDigit, SpellsUpperHex;
    var n := |bytes| - 1;
    ColonHexLength(bytes);
    ColonHexLength(bytes[..n]);
    UpperHexSpelled(bytes[n]);
    var pair, front := [HexDigit(bytes[n] / 16, 'A'), HexDigit(bytes[n] % 16, 'A')], ColonHex(bytes[..n]);
    if i == n {
      assert ColonHex(bytes)[3 * i..3 * i + 2] == pair;
    } else {
      ColonHexPairs(bytes[..n], i);
      assert ColonHex(bytes)[..|front|] == front;
      assert ColonHex(bytes)[3 * i..3 * i + 2] == front[3 * i..3 * i + 2];
    }
  }

  /** A displayed MAC spells the six bytes in order, in upper-case hexadecimal pairs with colons between them. */
  lemma MacTextReads(m: Mac)
    ensures var text := MacText(m);
            && |text| == 17
            && text[2] == ':' && text[5] == ':' && text[8] == ':' && text[11] == ':' && text[14] == ':'
            && SpellsUpperHex(text[0..2], m.b0) && SpellsUpperHex(text[3..5], m.b1) && SpellsUpperHex(text[6..8], m.b2)
            && SpellsUpperHex(text[9..11], m.b3) && SpellsUpperHex(text[12..14], m.b4)
            && SpellsUpperHex(text[15..17], m.b5)
  {
    hide SpellsUpperHex, ColonHex;
    var bytes := MacBytes(m);
    assert bytes[0] == m.b0 && bytes[1] == m.b1 && bytes[2] == m.b2;
    assert bytes[3] == m.b3 && bytes[4] == m.b4 && bytes[5] == m.b5;
    ColonHexPairs(bytes, 0);
    ColonHexPairs(bytes, 1);
    ColonHexPairs(bytes, 2);
    ColonHexPairs(bytes, 3);
    ColonHexPairs(bytes, 4);
    ColonHexPairs(bytes, 5);
  }

  function DigitValue(c: char): nat
  {
    if '0' <= c <= '9' then (c - '0') as nat else 0
  }

  /** `text` is the decimal numeral of `b`: digits only, no leading zero. */
  predicate SpellsDecimal(text: string, b: nat)
  {
    && 1 <= |text| <= 3 && (forall c :: c in text ==> '0' <= c <= '9') && (|text| > 1 ==> text[0] != '0')
    && b == if |text| == 1 then DigitValue(text[0])
            else if |text| == 2 then 10 * DigitValue(text[0]) + DigitValue(text[1])
            else 100 * DigitValue(text[0]) + 10 * DigitValue(text[1]) + DigitValue(text[2])
  }

  lemma DigitSpelled(d: nat)
    requires d < 10
    ensures '0' <= Digit(d) <= '9' && DigitValue(Digit(d)) == d && (Digit(d) == '0' <==> d == 0)
  {
  }

  lemma DecimalSpelled(b: byte)
    ensures SpellsDecimal(Decimal(b), b)
  {
    hide Digit, DigitValue;
    forall d: nat | d < 10
      ensures '0' <= Digit(d) <= '9' && DigitValue(Digit(d)) == d && (Digit(d) == '0' <==> d == 0)
    {
      DigitSpelled(d);
    }
  }

  lemma DottedThree(b: byte, c: byte, d: byte)
    ensures Dotted([b, c, d]) == "." + Decimal(b) + "." + Decimal(c) + "." + Decimal(d)
  {
    hide Decimal;
    assert [b, c, d][1..] == [c, d] && [c, d][1..] == [d];
    assert Dotted([d]) == "." + Decimal(d);
    assert Dotted([c, d]) == "." + Decimal(c) + Dotted([d]);
    assert Dotted([b, c, d]) == "." + Decimal(b) + Dotted([c, d]);
  }

  /** The text of an address is its four octets in decimal, the most significant first, with dots between them. */
  lemma IpTextReads(ip: Ipv4) returns (a: string, b: string, c: string, d: string, o: seq<nat>)
    ensures IpText(ip) == a + "." + b + "." + c + "." + d
    ensures |o| == 4 && ip == 0x100_0000 * o[0] + 0x1_0000 * o[1] + 0x100 * o[2] + o[3]
    ensures SpellsDecimal(a, o[0]) && SpellsDecimal(b, o[1]) && SpellsDecimal(c, o[2]) && SpellsDecimal(d, o[3])
    ensures forall i :: 0 <= i < 4 ==> o[i] < 0x100
  {
    hide Decimal, SpellsDecimal, Dotted;
    var p := Octets(ip);
    o := [p.0, p.1, p.2, p.3];
    a, b, c, d := Decimal(p.0), Decimal(p.1), Decimal(p.2), Decimal(p.3);
    DecimalSpelled(p.0);
    DecimalSpelled(p.1);
    DecimalSpelled(p.2);
    DecimalSpelled(p.3);
    OctetsSum(ip);
    DottedThree(p.1, p.2, p.3);
  }

  lemma OctetsSum(ip: Ipv4)
    ensures var p := Octets(ip);
            var a: nat, b: nat, c: nat, d: nat := p.0, p.1, p.2, p.3;
            ip == 0x100_0000 * a + 0x1_0000 * b + 0x100 * c + d
  {
    var upper24 := ip / 0x100;
    var upper16 := upper24 / 0x100;
    assert ip == 0x100 * upper24 + ip % 0x100;
    assert upper24 == 0x100 * upper16 + upper24 % 0x100;
    assert upper16 == 0x100 * (upper16 / 0x100) + upper16 % 0x100;
  }
}
