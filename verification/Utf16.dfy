/** Texts as sequences of UTF-16 code units, which need not be well formed. */
module Utf16 {
  type unit = u: int | 0 <= u < 0x1_0000

  predicate High(u: unit) {
    0xD800 <= u < 0xDC00
  }

  predicate Low(u: unit) {
    0xDC00 <= u < 0xE000
  }

  function Pair(high: unit, low: unit): char
    requires High(high) && Low(low)
  {
    (0x1_0000 + (high - 0xD800) * 0x400 + (low - 0xDC00)) as char
  }

  /** A surrogate that is not in a pair becomes the replacement character. */
  function Single(u: unit): char {
    if High(u) || Low(u) then '\U{FFFD}' else u as char
  }

  predicate StartsPair(u: seq<unit>) {
    |u| >= 2 && High(u[0]) && Low(u[1])
  }

  /** The characters that are encoded as bytes. */
  function Decode(u: seq<unit>): string {
    if u == [] then []
    else if StartsPair(u) then [Pair(u[0], u[1])] + Decode(u[2..])
    else [Single(u[0])] + Decode(u[1..])
  }

  /** The same units with the replacement character for every lone surrogate. */
  function Repaired(u: seq<unit>): seq<unit> {
    if u == [] then []
    else if StartsPair(u) then u[..2] + Repaired(u[2..])
    else [if High(u[0]) || Low(u[0]) then 0xFFFD else u[0]] + Repaired(u[1..])
  }

  function Units(c: char): seq<unit> {
    var v := c as int;
    if v < 0x1_0000 then [v] else [0xD800 + (v - 0x1_0000) / 0x400, 0xDC00 + (v - 0x1_0000) % 0x400]
  }

  function Encode(s: string): seq<unit> {
    if s == [] then [] else Units(s[0]) + Encode(s[1..])
  }

  lemma UnitsOfPair(high: unit, low: unit)
    requires High(high) && Low(low)
    ensures Units(Pair(high, low)) == [high, low]
  {
  }

  lemma {:induction false} EncodeDecode(u: seq<unit>)
    ensures Encode(Decode(u)) == Repaired(u)
  {
    hide Units, Pair;
    if u == [] {
    } else if StartsPair(u) {
      EncodeDecode(u[2..]);
      UnitsOfPair(u[0], u[1]);
      assert Decode(u)[1..] == Decode(u[2..]) && u[..2] == [u[0], u[1]];
    } else {
      EncodeDecode(u[1..]);
      UnitsOfSingle(u[0]);
      assert Decode(u)[1..] == Decode(u[1..]);
    }
  }

  lemma UnitsOfSingle(u: unit)
    ensures Units(Single(u)) == [if High(u) || Low(u) then 0xFFFD else u]
  {
  }

  lemma {:induction false} DecodeRepaired(u: seq<unit>)
    ensures Decode(Repaired(u)) == Decode(u)
  {
    if u == [] {
    } else if StartsPair(u) {
      DecodeRepaired(u[2..]);
      assert Repaired(u)[2..] == Repaired(u[2..]) && Repaired(u)[0] == u[0] && Repaired(u)[1] == u[1];
    } else {
      DecodeRepaired(u[1..]);
      assert Repaired(u)[1..] == Repaired(u[1..]);
    }
  }

  /** Two texts decode to the same characters exactly if they are the same after repair. */
  lemma DecodeExactly(u: seq<unit>, v: seq<unit>)
    ensures Decode(u) == Decode(v) <==> Repaired(u) == Repaired(v)
  {
    hide *;
    EncodeDecode(u);
    EncodeDecode(v);
    DecodeRepaired(u);
    DecodeRepaired(v);
  }
}
