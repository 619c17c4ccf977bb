/** Hexadecimal texts of bytes. */
module Hex {
  import opened Outcomes
  import opened Bytes

  function HexDigit(c: char): Option<nat> {
    if '0' <= c <= '9' then Some(c as int - '0' as int)
    else if 'a' <= c <= 'f' then Some(c as int - 'a' as int + 10)
    else if 'A' <= c <= 'F' then Some(c as int - 'A' as int + 10)
    else None
  }

  function LowerDigit(d: nat): char
    requires d < 16
  {
    "0123456789abcdef"[d]
  }

  function LowerChar(c: char): char {
    if 'A' <= c <= 'F' then (c as int + 32) as char else c
  }

  function Lower(s: string): (r: string)
    ensures |r| == |s|
  {
    seq(|s|, k requires 0 <= k < |s| => LowerChar(s[k]))
  }

  lemma DigitOfLower(d: nat)
    requires d < 16
    ensures HexDigit(LowerDigit(d)) == Some(d)
  {
  }

  lemma LowerOfDigit(c: char)
    requires HexDigit(c).Some?
    ensures HexDigit(c).value < 16 && LowerDigit(HexDigit(c).value) == LowerChar(c)
  {
  }

  /** `bytesToHex`. */
  function BytesToHex(b: seq<byte>): string {
    if b == [] then "" else [LowerDigit(b[0] / 16), LowerDigit(b[0] % 16)] + BytesToHex(b[1..])
  }

  predicate IsHex(s: string) {
    |s| % 2 == 0 && forall k :: 0 <= k < |s| ==> HexDigit(s[k]).Some?
  }

  function Pair(c: char, d: char): byte
    requires HexDigit(c).Some? && HexDigit(d).Some?
  {
    LowerOfDigit(c);
    LowerOfDigit(d);
    HexDigit(c).value * 16 + HexDigit(d).value
  }

  /** `hexToBytes`: the bytes of pairs of digits in either case. */
  function HexToBytes(s: string): Outcome<seq<byte>> {
    if !IsHex(s) then Throws
    else Returns(seq(|s| / 2, k requires 0 <= k < |s| / 2 => Pair(s[2 * k], s[2 * k + 1])))
  }

  /** `hexToBytes` as it fills its buffer. */
  method DecodeHex(s: string) returns (r: Outcome<array<byte>>)
    ensures r.Throws? <==> HexToBytes(s).Throws?
    ensures r.Returns? ==> fresh(r.value) && HexToBytes(s) == Returns(r.value[..])
  {
    if !IsHex(s) {
      return Throws;
    }
    var out := new byte[|s| / 2];
    for i := 0 to out.Length
      invariant forall k :: 0 <= k < i ==> out[k] == HexToBytes(s).value[k]
    {
      var two := s[2 * i..2 * i + 2];
      out[i] := Pair(two[0], two[1]);
    }
    assert out[..] == HexToBytes(s).value;
    return Returns(out);
  }

  lemma {:induction false} HexLength(b: seq<byte>)
    ensures |BytesToHex(b)| == 2 * |b|
  {
    if b != [] {
      HexLength(b[1..]);
    }
  }

  /** The two digits of byte k. */
  lemma {:induction false} HexAt(b: seq<byte>, k: nat)
    requires k < |b|
    ensures |BytesToHex(b)| == 2 * |b|
    ensures BytesToHex(b)[2 * k] == LowerDigit(b[k] / 16) && BytesToHex(b)[2 * k + 1] == LowerDigit(b[k] % 16)
  {
    HexLength(b);
    HexLength(b[1..]);
    if k > 0 {
      HexAt(b[1..], k - 1);
      hide LowerDigit;
      assert BytesToHex(b)[2..] == BytesToHex(b[1..]);
      assert BytesToHex(b)[2 * k] == BytesToHex(b)[2..][2 * (k - 1)];
      assert BytesToHex(b)[2 * k + 1] == BytesToHex(b)[2..][2 * (k - 1) + 1];
    }
  }

  lemma HexDecodesAt(b: seq<byte>, k: nat)
    requires k < |b|
    ensures |BytesToHex(b)| == 2 * |b|
    ensures HexDigit(BytesToHex(b)[2 * k]) == Some(b[k] / 16 as nat)
    ensures HexDigit(BytesToHex(b)[2 * k + 1]) == Some(b[k] % 16 as nat)
  {
    HexAt(b, k);
    DigitOfLower(b[k] / 16);
    DigitOfLower(b[k] % 16);
  }

  /** Bytes survive the way through a text. */
  lemma HexRoundTrip(b: seq<byte>)
    ensures HexToBytes(BytesToHex(b)) == Returns(b)
  {
    hide BytesToHex, HexDigit;
    HexLength(b);
    var s := BytesToHex(b);
    forall k | 0 <= k < |s| ensures HexDigit(s[k]).Some? {
      HexDecodesAt(b, k / 2);
      assert k == 2 * (k / 2) || k == 2 * (k / 2) + 1;
    }
    forall k | 0 <= k < |b| ensures HexToBytes(s).value[k] == b[k] {
      HexDecodesAt(b, k);
    }
    assert HexToBytes(s).value == b;
  }

  lemma PairDigits(c: char, d: char)
    requires HexDigit(c).Some? && HexDigit(d).Some?
    ensures LowerDigit(Pair(c, d) / 16) == LowerChar(c) && LowerDigit(Pair(c, d) % 16) == LowerChar(d)
  {
    hide LowerDigit, LowerChar;
    LowerOfDigit(c);
    LowerOfDigit(d);
  }

  /** A text that decodes is, in lower case, the text of its bytes. */
  lemma HexCanonical(s: string)
    requires HexToBytes(s).Returns?
    ensures BytesToHex(HexToBytes(s).value) == Lower(s)
  {
    hide BytesToHex, HexDigit, Pair, LowerDigit, LowerChar;
    var b := HexToBytes(s).value;
    HexLength(b);
    forall k | 0 <= k < |s| ensures BytesToHex(b)[k] == Lower(s)[k] {
      var m := k / 2;
      HexAt(b, m);
      PairDigits(s[2 * m], s[2 * m + 1]);
      assert k == 2 * m || k == 2 * m + 1;
    }
  }

  /** Two texts decode to the same bytes exactly if they differ in case only. */
  lemma SameBytes(s: string, t: string)
    requires HexToBytes(s).Returns? && HexToBytes(t).Returns?
    ensures HexToBytes(s) == HexToBytes(t) <==> Lower(s) == Lower(t)
  {
    HexCanonical(s);
    HexCanonical(t);
    HexRoundTrip(HexToBytes(s).value);
    HexRoundTrip(HexToBytes(t).value);
  }

  // ----- What a text denotes -----

  /** The digits, in either case. */
  lemma DigitExactly(c: char, d: nat)
    ensures HexDigit(c) == Some(d) <==> d < 16 && (c == "0123456789abcdef"[d] || c == "0123456789ABCDEF"[d])
  {
  }

  /** The digits are those of the bytes, two for each, the high one first. */
  ghost predicate DigitsOf(digits: string, b: seq<byte>) {
    && |digits| == 2 * |b|
    && forall k :: 0 <= k < |b| ==>
         HexDigit(digits[2 * k]) == Some(b[k] / 16 as nat) && HexDigit(digits[2 * k + 1]) == Some(b[k] % 16 as nat)
  }

  lemma DigitsLength(digits: string, b: seq<byte>)
    requires DigitsOf(digits, b)
    ensures |digits| == 2 * |b|
  {
  }

  lemma PairParts(c: char, d: char)
    requires HexDigit(c).Some? && HexDigit(d).Some?
    ensures HexDigit(c) == Some(Pair(c, d) / 16 as nat) && HexDigit(d) == Some(Pair(c, d) % 16 as nat)
  {
    LowerOfDigit(c);
    LowerOfDigit(d);
  }

  /** A text decodes to the bytes of which it has the digits, and to nothing else. */
  lemma HexExactly(s: string, b: seq<byte>)
    ensures HexToBytes(s) == Returns(b) <==> DigitsOf(s, b)
  {
    hide HexDigit, Pair;
    if HexToBytes(s) == Returns(b) {
      forall k | 0 <= k < |b|
        ensures HexDigit(s[2 * k]) == Some(b[k] / 16 as nat) && HexDigit(s[2 * k + 1]) == Some(b[k] % 16 as nat)
      {
        PairParts(s[2 * k], s[2 * k + 1]);
      }
    }
    if DigitsOf(s, b) {
      forall k | 0 <= k < |s| ensures HexDigit(s[k]).Some? {
        var m := k / 2;
        assert HexDigit(s[2 * m]).Some? && HexDigit(s[2 * m + 1]).Some?;
        assert k == 2 * m || k == 2 * m + 1;
      }
      forall k | 0 <= k < |b| ensures Pair(s[2 * k], s[2 * k + 1]) == b[k] {
        PairParts(s[2 * k], s[2 * k + 1]);
      }
      assert HexToBytes(s).value == b;
    }
  }

  /** The text that is written for bytes has their digits, and those in lower case. */
  lemma WrittenDigits(b: seq<byte>)
    ensures DigitsOf(BytesToHex(b), b) && Lower(BytesToHex(b)) == BytesToHex(b)
  {
    HexRoundTrip(b);
    HexExactly(BytesToHex(b), b);
    HexCanonical(BytesToHex(b));
  }
}
