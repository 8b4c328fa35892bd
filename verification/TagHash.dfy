/** The 64-bit key hash that seeds human-readable tags. */
module TagHash {
  import opened Arithmetic
  import opened Prelude

  const WORD: int := 0x1_0000_0000_0000_0000
  const SEED: nat := 0xcbf29ce484222325
  const MULTIPLIER: nat := 0x100000001b3

  /** One wrapping multiply-and-add step. */
  function Absorb(h: nat, b: byte): (r: nat)
    ensures r < WORD
  {
    ((h * MULTIPLIER) % WORD + b) % WORD
  }

  function HashFrom(h: nat, key: seq<byte>): nat
    decreases |key|
  {
    if key == [] then h else HashFrom(Absorb(h, key[0]), key[1..])
  }

  function HashKey(key: seq<byte>): nat
  {
    HashFrom(SEED, key)
  }

  lemma {:induction false} HashFromBounded(h: nat, key: seq<byte>)
    requires h < WORD
    ensures HashFrom(h, key) < WORD
    decreases |key|
  {
    if key != [] {
      HashFromBounded(Absorb(h, key[0]), key[1..]);
    }
  }

  lemma {:induction false} HashAppend(h: nat, x: seq<byte>, s: seq<byte>)
    ensures HashFrom(h, x + s) == HashFrom(HashFrom(h, x), s)
    decreases |x|
  {
    if x == [] {
      assert x + s == s;
    } else {
      assert (x + s)[1..] == x[1..] + s;
      HashAppend(Absorb(h, x[0]), x[1..], s);
    }
  }

  /** The inverse of the odd multiplier modulo 2^64, and the overflow of their product. */
  const INVERSE: int := 0xce965057aff6957b
  const OVERFLOW: int := 0xce9650590f

  /** A difference that the multiplier maps to a multiple of 2^64 is one already. */
  lemma MultiplierCancels(d: int, k: int)
    requires d * MULTIPLIER == k * WORD
    ensures d == (k * INVERSE - d * OVERFLOW) * WORD
  {
    assert MULTIPLIER * INVERSE == 1 + OVERFLOW * WORD;
    assert d * (1 + OVERFLOW * WORD) == d + d * OVERFLOW * WORD;
    assert d * (MULTIPLIER * INVERSE) == (d * MULTIPLIER) * INVERSE == (k * WORD) * INVERSE;
  }

  lemma SmallMultiple(d: int, q: int)
    requires d == q * WORD && -WORD < d < WORD
    ensures d == 0
  {
  }

  /** Absorbing a byte is injective in the state. */
  lemma AbsorbInjective(g: nat, h: nat, b: byte)
    requires g < WORD && h < WORD && Absorb(g, b) == Absorb(h, b)
    ensures g == h
  {
    var u, v := g * MULTIPLIER, h * MULTIPLIER;
    assert u % WORD == v % WORD;
    var k := u / WORD - v / WORD;
    assert u - v == k * WORD;
    assert u - v == (g - h) * MULTIPLIER;
    MultiplierCancels(g - h, k);
    SmallMultiple(g - h, k * INVERSE - (g - h) * OVERFLOW);
  }

  /** Absorbing different bytes into the same state gives different states. */
  lemma AbsorbSeparates(h: nat, b: byte, c: byte)
    requires Absorb(h, b) == Absorb(h, c)
    ensures b == c
  {
    var w := (h * MULTIPLIER) % WORD;
    assert 0 <= w < WORD;
  }

  lemma {:induction false} HashFromInjective(g: nat, h: nat, s: seq<byte>)
    requires g < WORD && h < WORD && HashFrom(g, s) == HashFrom(h, s)
    ensures g == h
    decreases |s|
  {
    if s != [] {
      HashFromInjective(Absorb(g, s[0]), Absorb(h, s[0]), s[1..]);
      AbsorbInjective(g, h, s[0]);
    }
  }

  /** A common suffix neither creates nor removes a collision. */
  lemma CommonSuffixNeutral(x: seq<byte>, y: seq<byte>, s: seq<byte>)
    ensures HashKey(x + s) == HashKey(y + s) <==> HashKey(x) == HashKey(y)
  {
    HashAppend(SEED, x, s);
    HashAppend(SEED, y, s);
    HashFromBounded(SEED, x);
    HashFromBounded(SEED, y);
    if HashKey(x + s) == HashKey(y + s) {
      HashFromInjective(HashKey(x), HashKey(y), s);
    }
  }

  /** Changing any single byte of a key changes its hash. */
  lemma SingleByteSeparates(key: seq<byte>, i: nat, b: byte)
    requires i < |key| && b != key[i]
    ensures HashKey(key[i := b]) != HashKey(key)
  {
    var front, back := key[..i], key[i + 1..];
    assert key == (front + [key[i]]) + back && key[i := b] == (front + [b]) + back;
    CommonSuffixNeutral(front + [key[i]], front + [b], back);
    HashAppend(SEED, front, [key[i]]);
    HashAppend(SEED, front, [b]);
    assert [key[i]][1..] == [] && [b][1..] == [];
    if HashKey(key[i := b]) == HashKey(key) {
      AbsorbSeparates(HashKey(front), b, key[i]);
    }
  }

  // ----- The closed form -----

  function Power(n: nat): nat
  {
    if n == 0 then 1 else 0x100000001b3 * Power(n - 1)
  }

  /** Every byte times the multiplier to the number of bytes behind it. */
  function Weighted(key: seq<byte>): nat
  {
    if key == [] then 0 else key[0] * Power(|key| - 1) + Weighted(key[1..])
  }

  /** Folding from `h` is the closed form, up to a multiple of the word size. */
  lemma {:induction false} FoldClosed(h: nat, key: seq<byte>) returns (q: int)
    ensures HashFrom(h, key) == h * Power(|key|) + Weighted(key) - q * WORD
    decreases |key|
  {
    if key == [] {
      q := 0;
    } else {
      var a, p := Absorb(h, key[0]), Power(|key| - 1);
      var c := AbsorbQuotient(h, key[0]);
      var r := FoldClosed(a, key[1..]);
      q := c * p + r;
      Expand(h, key[0], c, p);
      assert (c * p + r) * WORD == c * p * WORD + r * WORD;
    }
  }

  lemma AbsorbQuotient(h: nat, b: byte) returns (c: int)
    ensures Absorb(h, b) == h * MULTIPLIER + b - c * WORD
  {
    var u := h * MULTIPLIER;
    var v := u % WORD + b;
    c := u / WORD + v / WORD;
    assert u == (u / WORD) * WORD + u % WORD && v == (v / WORD) * WORD + v % WORD;
  }

  lemma Expand(h: nat, b: byte, c: int, p: nat)
    ensures (h * MULTIPLIER + b - c * WORD) * p == h * (0x100000001b3 * p) + b * p - c * p * WORD
  {
    assert h * MULTIPLIER * p == h * (MULTIPLIER * p);
    assert c * WORD * p == c * p * WORD;
  }

  /**
   * The hash of a key is the 64-bit remainder of a polynomial: the seed times the multiplier to the length of the
   * key, plus every byte times the multiplier to the number of bytes behind it.
   */
  lemma HashKeyClosed(key: seq<byte>)
    ensures HashKey(key)
         == (0xcbf29ce484222325 * Power(|key|) + Weighted(key)) % 0x1_0000_0000_0000_0000
  {
    hide Power, Weighted, HashFrom;
    var q := FoldClosed(SEED, key);
    HashFromBounded(SEED, key);
    RemainderIs(0xcbf29ce484222325 * Power(|key|) + Weighted(key), WORD, q, HashKey(key));
  }
}
