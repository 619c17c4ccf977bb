/** Bytes, and the encodings of numbers and texts as bytes. */
module Bytes {
  import opened Outcomes

  type byte = x: int | 0 <= x < 256

  /** `writeUInt32BE`: refused for a number of more than 32 bits. */
  function U32be(n: nat): Outcome<seq<byte>> {
    if n >= 0x1_0000_0000 then Throws
    else Returns([n / 0x100_0000, n / 0x1_0000 % 256, n / 256 % 256, n % 256])
  }

  lemma U32beInjective(m: nat, n: nat)
    requires U32be(m).Returns? && U32be(m) == U32be(n)
    ensures m == n
  {
    var (a, b) := (U32be(m).value, U32be(n).value);
    assert a[0] == b[0] && a[1] == b[1] && a[2] == b[2] && a[3] == b[3];
    BigEndian(m);
    BigEndian(n);
  }

  lemma BigEndian(n: nat)
    ensures n == ((n / 0x100_0000 * 256 + n / 0x1_0000 % 256) * 256 + n / 256 % 256) * 256 + n % 256
  {
    assert n / 0x1_0000 / 256 == n / 0x100_0000 && n / 256 / 256 == n / 0x1_0000;
  }

  /** The number that bytes denote after an earlier part, the high byte first. */
  ghost function Read(before: nat, b: seq<byte>): nat
    decreases |b|
  {
    if b == [] then before else Read(256 * before + b[0], b[1..])
  }

  ghost function Number(b: seq<byte>): nat {
    Read(0, b)
  }

  /** Four bytes that denote the number, exactly if it has at most 32 bits. */
  lemma U32beDenotes(n: nat)
    ensures U32be(n).Returns? <==> n < 0x1_0000_0000
    ensures U32be(n).Returns? ==> |U32be(n).value| == 4 && Number(U32be(n).value) == n
  {
    if n < 0x1_0000_0000 {
      var b := U32be(n).value;
      BigEndian(n);
      ReadFour(b);
    }
  }

  lemma ReadFour(b: seq<byte>)
    requires |b| == 4
    ensures Number(b) == ((b[0] as int * 256 + b[1]) * 256 + b[2]) * 256 + b[3]
  {
    var v: nat := b[0];
    assert b[1..][1..] == b[2..] && b[2..][1..] == b[3..] && b[3..][1..] == [];
    assert Read(0, b) == Read(v, b[1..]) == Read(256 * v + b[1], b[2..]);
    assert Read(256 * v + b[1], b[2..]) == Read(256 * (256 * v + b[1]) + b[2], b[3..]);
  }

  /** The bytes of one character, a Unicode scalar value. */
  function Utf8Char(c: char): (r: seq<byte>)
    ensures 1 <= |r| <= 4
  {
    var v := c as int;
    if v < 0x80 then [v]
    else if v < 0x800 then [0xC0 + v / 64, 0x80 + v % 64]
    else if v < 0x1_0000 then [0xE0 + v / 4096, 0x80 + v / 64 % 64, 0x80 + v % 64]
    else [0xF0 + v / 0x4_0000, 0x80 + v / 4096 % 64, 0x80 + v / 64 % 64, 0x80 + v % 64]
  }

  /** `TextEncoder.encode`, on texts without lone surrogates. */
  function Utf8(s: string): (r: seq<byte>)
    ensures |r| >= |s|
  {
    if s == [] then [] else Utf8Char(s[0]) + Utf8(s[1..])
  }

  /** The first byte tells how many bytes a character has. */
  function Width(first: byte): nat {
    if first < 0x80 then 1 else if first < 0xE0 then 2 else if first < 0xF0 then 3 else 4
  }

  lemma CharWidth(c: char)
    ensures Width(Utf8Char(c)[0]) == |Utf8Char(c)|
  {
  }

  lemma Utf8CharInjective(c: char, d: char)
    requires Utf8Char(c) == Utf8Char(d)
    ensures c == d
  {
    CharWidth(c);
    CharWidth(d);
    CharValue(c);
    CharValue(d);
    assert c as int == d as int;
  }

  /** The number that the bytes of a character denote. */
  function Denoted(b: seq<int>): int
    requires 1 <= |b| <= 4
  {
    if |b| == 1 then b[0]
    else if |b| == 2 then (b[0] - 0xC0) * 64 + (b[1] - 0x80)
    else if |b| == 3 then (b[0] - 0xE0) * 4096 + (b[1] - 0x80) * 64 + (b[2] - 0x80)
    else (b[0] - 0xF0) * 0x4_0000 + (b[1] - 0x80) * 4096 + (b[2] - 0x80) * 64 + (b[3] - 0x80)
  }

  lemma CharValue(c: char)
    ensures Denoted(Utf8Char(c)) == c as int
  {
    var v := c as int;
    assert v / 64 / 64 == v / 4096 && v / 4096 / 64 == v / 0x4_0000;
  }

  /** The first byte tells the length, and the others begin with the bits 10. */
  lemma Utf8Form(c: char)
    ensures var b := Utf8Char(c);
            && (|b| == 1 <==> b[0] < 0x80) && (|b| == 2 <==> 0xC0 <= b[0] < 0xE0)
            && (|b| == 3 <==> 0xE0 <= b[0] < 0xF0) && (|b| == 4 <==> 0xF0 <= b[0])
            && forall k :: 1 <= k < |b| ==> 0x80 <= b[k] < 0xC0
  {
  }

  /** The bytes of a text are those of its characters in their order. */
  lemma {:induction false} Utf8Joins(s: string, t: string)
    ensures Utf8(s + t) == Utf8(s) + Utf8(t)
  {
    hide *;
    if s == [] {
      assert s + t == t && Utf8(s) == [] by {
        Utf8Nothing();
      }
    } else {
      var rest := s[1..];
      Utf8Joins(rest, t);
      Utf8Next(s[0], rest + t);
      Utf8Next(s[0], rest);
      JoinThree([s[0]], rest, t);
      JoinThree(Utf8Char(s[0]), Utf8(rest), Utf8(t));
      assert s == [s[0]] + rest;
    }
  }

  lemma JoinThree<T>(a: seq<T>, b: seq<T>, c: seq<T>)
    ensures a + (b + c) == a + b + c
  {
  }

  lemma Utf8Nothing()
    ensures Utf8([]) == []
  {
  }

  lemma Utf8Next(c: char, rest: string)
    ensures Utf8([c] + rest) == Utf8Char(c) + Utf8(rest)
  {
    hide Utf8Char;
    assert ([c] + rest)[1..] == rest;
  }

  /** No character's bytes begin another's. */
  lemma Utf8CharPrefix(c: char, d: char, x: seq<byte>, y: seq<byte>)
    requires Utf8Char(c) + x == Utf8Char(d) + y
    ensures c == d && x == y
  {
    var s := Utf8Char(c) + x;
    CharWidth(c);
    CharWidth(d);
    hide Utf8Char;
    assert s[0] == Utf8Char(c)[0] && s[0] == (Utf8Char(d) + y)[0] == Utf8Char(d)[0];
    var n := |Utf8Char(c)|;
    assert Utf8Char(c) == s[..n] && Utf8Char(d) == (Utf8Char(d) + y)[..n];
    assert x == s[n..] && y == (Utf8Char(d) + y)[n..];
    Utf8CharInjective(c, d);
  }

  lemma {:induction false} Utf8Injective(s: string, t: string)
    requires Utf8(s) == Utf8(t)
    ensures s == t
  {
    if s != [] && t != [] {
      Utf8CharPrefix(s[0], t[0], Utf8(s[1..]), Utf8(t[1..]));
      Utf8Injective(s[1..], t[1..]);
      assert s == [s[0]] + s[1..] && t == [t[0]] + t[1..];
    }
  }
}
