/** Base64 with the URL alphabet and without padding (section 5 of RFC 4648). */
module Base64Url {
  import opened Outcomes
  import opened Bytes

  function Char64(v: nat): char
    requires v < 64
  {
    if v < 26 then ('A' as int + v) as char
    else if v < 52 then ('a' as int + v - 26) as char
    else if v < 62 then ('0' as int + v - 52) as char
    else if v == 62 then '-'
    else '_'
  }

  predicate InAlphabet(c: char) {
    'A' <= c <= 'Z' || 'a' <= c <= 'z' || '0' <= c <= '9' || c == '-' || c == '_'
  }

  function Value64(c: char): (v: nat)
    requires InAlphabet(c)
    ensures v < 64
  {
    if 'A' <= c <= 'Z' then c as int - 'A' as int
    else if 'a' <= c <= 'z' then c as int - 'a' as int + 26
    else if '0' <= c <= '9' then c as int - '0' as int + 52
    else if c == '-' then 62
    else 63
  }

  lemma CharOfValue(c: char)
    requires InAlphabet(c)
    ensures Char64(Value64(c)) == c
  {
  }

  lemma ValueOfChar(v: nat)
    requires v < 64
    ensures InAlphabet(Char64(v)) && Value64(Char64(v)) == v
  {
  }

  /** Three bytes at a time; one or two bytes at the end become two or three characters. */
  function Encode(b: seq<byte>): string {
    if |b| == 0 then ""
    else if |b| == 1 then [Char64(b[0] / 4), Char64(b[0] % 4 * 16)]
    else if |b| == 2 then [Char64(b[0] / 4), Char64(b[0] % 4 * 16 + b[1] / 16), Char64(b[1] % 16 * 4)]
    else Quartet(b[0], b[1], b[2]) + Encode(b[3..])
  }

  function Quartet(x: byte, y: byte, z: byte): (r: string)
    ensures |r| == 4
  {
    [Char64(x / 4), Char64(x % 4 * 16 + y / 16), Char64(y % 16 * 4 + z / 64), Char64(z % 64)]
  }

  predicate AllInAlphabet(s: string) {
    forall k :: 0 <= k < |s| ==> InAlphabet(s[k])
  }

  /** The bytes of a text of the alphabet. The spare bits of the last character are dropped. */
  function Groups(s: string): seq<byte>
    requires AllInAlphabet(s) && |s| % 4 != 1
  {
    if |s| == 0 then []
    else if |s| == 2 then [Value64(s[0]) * 4 + Value64(s[1]) / 16]
    else if |s| == 3 then
      [Value64(s[0]) * 4 + Value64(s[1]) / 16, Value64(s[1]) % 16 * 16 + Value64(s[2]) / 4]
    else Triple(s[0], s[1], s[2], s[3]) + Groups(s[4..])
  }

  function Triple(a: char, b: char, c: char, d: char): (r: seq<byte>)
    requires InAlphabet(a) && InAlphabet(b) && InAlphabet(c) && InAlphabet(d)
    ensures |r| == 3
  {
    [Value64(a) * 4 + Value64(b) / 16, Value64(b) % 16 * 16 + Value64(c) / 4, Value64(c) % 4 * 64 + Value64(d)]
  }

  /** `base64UrlDecode`. A single character left over is refused. */
  function Decode(s: string): Outcome<seq<byte>> {
    if !AllInAlphabet(s) || |s| % 4 == 1 then Throws else Returns(Groups(s))
  }

  // ----- One group -----

  lemma FirstByte(x: byte, y: byte)
    ensures x / 4 < 64 && x % 4 * 16 + y / 16 < 64
    ensures x / 4 * 4 + (x % 4 * 16 + y / 16) / 16 == x
    ensures (x % 4 * 16 + y / 16) % 16 == y / 16
  {
  }

  lemma SecondByte(y: byte, z: byte)
    ensures y % 16 * 4 + z / 64 < 64
    ensures y / 16 * 16 + (y % 16 * 4 + z / 64) / 4 == y
    ensures (y % 16 * 4 + z / 64) % 4 == z / 64
  {
  }

  lemma TripleOfQuartet(x: byte, y: byte, z: byte)
    ensures var s := Quartet(x, y, z);
            AllInAlphabet(s) && Triple(s[0], s[1], s[2], s[3]) == [x, y, z]
  {
    hide Char64, Value64, InAlphabet;
    FirstByte(x, y);
    SecondByte(y, z);
    ValueOfChar(x / 4);
    ValueOfChar(x % 4 * 16 + y / 16);
    ValueOfChar(y % 16 * 4 + z / 64);
    ValueOfChar(z % 64);
  }

  lemma FirstSextets(a: nat, b: nat, c: nat)
    requires a < 64 && b < 64 && c < 64
    ensures (a * 4 + b / 16) / 4 == a && (a * 4 + b / 16) % 4 == b / 16
    ensures b / 16 * 16 + (b % 16 * 16 + c / 4) / 16 == b
    ensures (b % 16 * 16 + c / 4) % 16 == c / 4
  {
  }

  lemma LastSextets(c: nat, d: nat)
    requires c < 64 && d < 64
    ensures c / 4 * 4 + (c % 4 * 64 + d) / 64 == c && (c % 4 * 64 + d) % 64 == d
  {
  }

  lemma QuartetOfTriple(a: char, b: char, c: char, d: char)
    requires InAlphabet(a) && InAlphabet(b) && InAlphabet(c) && InAlphabet(d)
    ensures var t := Triple(a, b, c, d);
            Quartet(t[0], t[1], t[2]) == [a, b, c, d]
  {
    hide Char64, Value64, InAlphabet;
    CharOfValue(a);
    CharOfValue(b);
    CharOfValue(c);
    CharOfValue(d);
    FirstSextets(Value64(a), Value64(b), Value64(c));
    LastSextets(Value64(c), Value64(d));
  }

  lemma EncodeStep(t: seq<byte>, u: seq<byte>)
    requires |t| == 3
    ensures Encode(t + u) == Quartet(t[0], t[1], t[2]) + Encode(u)
  {
    hide Quartet;
    assert (t + u)[3..] == u;
  }

  lemma DecodeStep(t: string, u: string)
    requires |t| == 4 && AllInAlphabet(t) && Decode(u).Returns?
    ensures Decode(t + u) == Returns(Triple(t[0], t[1], t[2], t[3]) + Decode(u).value)
  {
    hide Triple, InAlphabet;
    assert (t + u)[4..] == u;
  }

  lemma DecodeSplit(s: string)
    requires |s| >= 4 && Decode(s).Returns?
    ensures InAlphabet(s[0]) && InAlphabet(s[1]) && InAlphabet(s[2]) && InAlphabet(s[3]) && Decode(s[4..]).Returns?
    ensures Decode(s).value == Triple(s[0], s[1], s[2], s[3]) + Decode(s[4..]).value
  {
    hide Triple, InAlphabet;
  }

  // ----- Both directions -----

  lemma OneByte(x: byte)
    ensures Decode(Encode([x])) == Returns([x])
  {
    hide Char64, Value64, InAlphabet;
    FirstByte(x, 0);
    ValueOfChar(x / 4);
    ValueOfChar(x % 4 * 16);
  }

  lemma TwoBytes(x: byte, y: byte)
    ensures Decode(Encode([x, y])) == Returns([x, y])
  {
    hide Char64, Value64, InAlphabet;
    FirstByte(x, y);
    SecondByte(y, 0);
    ValueOfChar(x / 4);
    ValueOfChar(x % 4 * 16 + y / 16);
    ValueOfChar(y % 16 * 4);
  }

  /** Decoding is the inverse of encoding, for byte strings of every length. */
  lemma {:induction false} RoundTrip(b: seq<byte>)
    ensures Decode(Encode(b)) == Returns(b)
  {
    if |b| >= 3 {
      hide *;
      var t := [b[0], b[1], b[2]];
      assert b == t + b[3..];
      RoundTrip(b[3..]);
      TripleOfQuartet(b[0], b[1], b[2]);
      EncodeStep(t, b[3..]);
      DecodeStep(Quartet(b[0], b[1], b[2]), Encode(b[3..]));
    } else if |b| == 2 {
      TwoBytes(b[0], b[1]);
      assert b == [b[0], b[1]];
    } else if |b| == 1 {
      OneByte(b[0]);
      assert b == [b[0]];
    }
  }

  /** The spare bits of the last character are zero. */
  predicate Canonical(s: string)
    requires AllInAlphabet(s)
  {
    && (|s| % 4 == 2 ==> Value64(s[|s| - 1]) % 16 == 0)
    && (|s| % 4 == 3 ==> Value64(s[|s| - 1]) % 4 == 0)
  }

  lemma ShortCanonical(s: string)
    requires |s| < 4 && Decode(s).Returns?
    ensures Encode(Decode(s).value) == s <==> Canonical(s)
  {
    hide Char64, Value64, InAlphabet;
    if |s| == 2 {
      CharOfValue(s[0]);
      CharOfValue(s[1]);
      SpareBits(Value64(s[1]), 16);
      assert Encode(Decode(s).value) == [s[0], Char64(Value64(s[1]) / 16 * 16)];
    } else if |s| == 3 {
      CharOfValue(s[0]);
      CharOfValue(s[1]);
      CharOfValue(s[2]);
      SpareBits(Value64(s[2]), 4);
      assert Encode(Decode(s).value) == [s[0], s[1], Char64(Value64(s[2]) / 4 * 4)];
    }
  }

  lemma SpareBits(v: nat, unit: nat)
    requires v < 64 && (unit == 4 || unit == 16)
    ensures Char64(v / unit * unit) == Char64(v) <==> v % unit == 0
  {
    var w := v / unit * unit;
    ValueOfChar(v);
    ValueOfChar(w);
    assert v == w + v % unit;
  }

  /** Encoding is the inverse of decoding exactly for texts without spare bits: other
      texts decode to the same bytes as a canonical one. */
  lemma {:induction false} CanonicalTexts(s: string)
    requires Decode(s).Returns?
    ensures Encode(Decode(s).value) == s <==> Canonical(s)
  {
    hide *;
    if |s| < 4 {
      ShortCanonical(s);
    } else {
      DecodeSplit(s);
      var (four, t) := ([s[0], s[1], s[2], s[3]], Triple(s[0], s[1], s[2], s[3]));
      CanonicalTexts(s[4..]);
      QuartetOfTriple(s[0], s[1], s[2], s[3]);
      EncodeStep(t, Decode(s[4..]).value);
      SameTail(four, Encode(Decode(s[4..]).value), s);
      CanonicalTail(s);
    }
  }

  lemma SameTail(four: string, t: string, s: string)
    requires |s| >= 4 && four == s[..4]
    ensures four + t == s <==> t == s[4..]
  {
    assert (four + t)[4..] == t && s == s[..4] + s[4..];
  }

  lemma CanonicalTail(s: string)
    requires |s| >= 4 && Decode(s).Returns?
    ensures AllInAlphabet(s) && AllInAlphabet(s[4..]) && (Canonical(s) <==> Canonical(s[4..]))
  {
    hide Value64, InAlphabet;
    if |s| > 4 {
      assert s[4..][|s| - 5] == s[|s| - 1];
    }
  }

  // ----- Texts of the same bytes -----

  /** The text with a spare bit of the last character set. */
  function Spare(b: seq<byte>): string
    requires |b| % 3 != 0
  {
    if |b| == 1 then [Char64(b[0] / 4), Char64(b[0] % 4 * 16 + 1)]
    else if |b| == 2 then [Char64(b[0] / 4), Char64(b[0] % 4 * 16 + b[1] / 16), Char64(b[1] % 16 * 4 + 1)]
    else Quartet(b[0], b[1], b[2]) + Spare(b[3..])
  }

  lemma OneSpare(x: byte)
    ensures Decode(Spare([x])) == Returns([x]) && Spare([x]) != Encode([x])
  {
    hide Char64, Value64, InAlphabet;
    FirstByte(x, 0);
    ValueOfChar(x / 4);
    ValueOfChar(x % 4 * 16);
    ValueOfChar(x % 4 * 16 + 1);
    assert Spare([x])[1] != Encode([x])[1];
  }

  lemma TwoSpare(x: byte, y: byte)
    ensures Decode(Spare([x, y])) == Returns([x, y]) && Spare([x, y]) != Encode([x, y])
  {
    hide Char64, Value64, InAlphabet;
    FirstByte(x, y);
    SecondByte(y, 0);
    ValueOfChar(x / 4);
    ValueOfChar(x % 4 * 16 + y / 16);
    ValueOfChar(y % 16 * 4);
    ValueOfChar(y % 16 * 4 + 1);
    assert Spare([x, y])[2] != Encode([x, y])[2];
  }

  lemma {:induction false} SpareDecodes(b: seq<byte>)
    requires |b| % 3 != 0
    ensures Decode(Spare(b)) == Returns(b) && Spare(b) != Encode(b)
  {
    if |b| >= 3 {
      var t := [b[0], b[1], b[2]];
      SpareDecodes(b[3..]);
      SpareStep(b);
      hide *;
      assert b == t + b[3..];
      TripleOfQuartet(b[0], b[1], b[2]);
      EncodeStep(t, b[3..]);
      DecodeStep(Quartet(b[0], b[1], b[2]), Spare(b[3..]));
      SameFront(Quartet(b[0], b[1], b[2]), Spare(b[3..]), Encode(b[3..]));
    } else if |b| == 2 {
      TwoSpare(b[0], b[1]);
      assert b == [b[0], b[1]];
    } else {
      OneSpare(b[0]);
      assert b == [b[0]];
    }
  }

  lemma SpareStep(b: seq<byte>)
    requires |b| % 3 != 0 && |b| >= 3
    ensures Spare(b) == Quartet(b[0], b[1], b[2]) + Spare(b[3..])
  {
  }

  lemma SameFront(front: string, s: string, t: string)
    requires s != t
    ensures front + s != front + t
  {
    assert (front + s)[|front|..] == s && (front + t)[|front|..] == t;
  }

  lemma {:induction false} GroupsLength(s: string)
    requires Decode(s).Returns?
    ensures |s| % 4 == 0 <==> |Decode(s).value| % 3 == 0
  {
    if |s| >= 4 {
      DecodeSplit(s);
      GroupsLength(s[4..]);
    }
  }

  /** A byte string has a second text exactly if it does not fill the last group. */
  lemma SecondText(b: seq<byte>)
    ensures (exists s :: s != Encode(b) && Decode(s) == Returns(b)) <==> |b| % 3 != 0
  {
    hide Encode, Decode, Groups, Spare;
    if |b| % 3 != 0 {
      SpareDecodes(b);
      assert Spare(b) != Encode(b);
    } else {
      forall s | Decode(s) == Returns(b) ensures s == Encode(b) {
        GroupsLength(s);
        CanonicalTexts(s);
        FullCanonical(s);
      }
    }
  }

  lemma FullCanonical(s: string)
    requires Decode(s).Returns? && |s| % 4 == 0
    ensures AllInAlphabet(s) && Canonical(s)
  {
  }

  // ----- What a text denotes -----

  /** The number that characters denote after an earlier part, the high one first. */
  ghost function Read64(before: nat, s: string): nat
    requires AllInAlphabet(s)
    decreases |s|
  {
    if s == [] then before else Read64(64 * before + Value64(s[0]), s[1..])
  }

  lemma Read64Two(before: nat, s: string)
    requires AllInAlphabet(s) && |s| >= 2
    ensures Read64(before, s) == Read64(64 * (64 * before + Value64(s[0])) + Value64(s[1]), s[2..])
  {
    hide Value64, InAlphabet;
    assert s[1..][1..] == s[2..] && s[1..][0] == s[1];
    assert Read64(before, s) == Read64(64 * before + Value64(s[0]), s[1..]);
  }

  lemma QuartetReads(before: nat, x: byte, y: byte, z: byte, rest: string)
    requires AllInAlphabet(rest)
    ensures AllInAlphabet(Quartet(x, y, z) + rest)
    ensures Read64(before, Quartet(x, y, z) + rest) == Read64(256 * (256 * (256 * before + x) + y) + z, rest)
  {
    hide Char64, Value64, InAlphabet;
    var (q, s) := (Quartet(x, y, z), Quartet(x, y, z) + rest);
    ValueOfChar(x / 4);
    ValueOfChar(x % 4 * 16 + y / 16);
    ValueOfChar(y % 16 * 4 + z / 64);
    ValueOfChar(z % 64);
    FirstByte(x, y);
    SecondByte(y, z);
    assert AllInAlphabet(q) && s[2..][2..] == rest && s[2..][0] == q[2] && s[2..][1] == q[3];
    Read64Two(before, s);
    Read64Two(64 * (64 * before + Value64(s[0])) + Value64(s[1]), s[2..]);
  }

  lemma OneReads(before: nat, x: byte)
    ensures AllInAlphabet(Encode([x])) && Read64(before, Encode([x])) == 16 * Read(before, [x])
  {
    hide Char64, Value64, InAlphabet;
    ValueOfChar(x / 4);
    ValueOfChar(x % 4 * 16);
    Read64Two(before, Encode([x]));
  }

  lemma TwoReads(before: nat, x: byte, y: byte)
    ensures AllInAlphabet(Encode([x, y])) && Read64(before, Encode([x, y])) == 4 * Read(before, [x, y])
  {
    hide Char64, Value64, InAlphabet;
    var s := Encode([x, y]);
    ValueOfChar(x / 4);
    ValueOfChar(x % 4 * 16 + y / 16);
    ValueOfChar(y % 16 * 4);
    FirstByte(x, y);
    SecondByte(y, 0);
    Read64Two(before, s);
    assert s[2..][1..] == [] && s[2..][0] == s[2];
    ReadTwo(before, x, y);
  }

  lemma ReadTwo(before: nat, x: byte, y: byte)
    ensures Read(before, [x, y]) == 256 * (256 * before + x) + y
  {
    assert [x, y][1..] == [y] && Read(before, [x, y]) == Read(256 * before + x, [y]);
  }

  /** The characters denote the number that the bytes denote, shifted by the spare bits. */
  lemma {:induction false} EncodeReads(before: nat, b: seq<byte>)
    ensures AllInAlphabet(Encode(b))
    ensures |b| % 3 == 0 ==> Read64(before, Encode(b)) == Read(before, b)
    ensures |b| % 3 == 1 ==> Read64(before, Encode(b)) == 16 * Read(before, b)
    ensures |b| % 3 == 2 ==> Read64(before, Encode(b)) == 4 * Read(before, b)
    decreases |b|
  {
    hide AllInAlphabet, Char64, Value64, Read, Quartet, Read64;
    if |b| >= 3 {
      ReadThree(before, b);
      EncodeReads(256 * (256 * (256 * before + b[0]) + b[1]) + b[2], b[3..]);
      QuartetReads(before, b[0], b[1], b[2], Encode(b[3..]));
    } else if |b| == 2 {
      assert b == [b[0], b[1]];
      TwoReads(before, b[0], b[1]);
    } else if |b| == 1 {
      assert b == [b[0]];
      OneReads(before, b[0]);
    } else {
      NothingReads(before);
    }
  }

  lemma NothingReads(before: nat)
    ensures AllInAlphabet(Encode([])) && Read64(before, Encode([])) == Read(before, [])
  {
  }

  lemma ReadThree(before: nat, b: seq<byte>)
    requires |b| >= 3
    ensures Read(before, b) == Read(256 * (256 * (256 * before + b[0]) + b[1]) + b[2], b[3..])
  {
    assert b[1..][1..] == b[2..] && b[2..][1..] == b[3..] && b[1..][0] == b[1] && b[2..][0] == b[2];
    assert Read(before, b) == Read(256 * before + b[0], b[1..]);
    assert Read(256 * before + b[0], b[1..]) == Read(256 * (256 * before + b[0]) + b[1], b[2..]);
  }
}
