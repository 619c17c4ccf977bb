/** Decimal numbers and separators in the strings that get signed and authenticated. */
module Text {

  function DigitChar(d: nat): char
    requires d < 10
  {
    "0123456789"[d]
  }

  function Digits(n: nat): (s: string)
    ensures s != []
  {
    if n < 10 then [DigitChar(n)] else Digits(n / 10) + [DigitChar(n % 10)]
  }

  /** How JavaScript prints an integer. */
  function Decimal(n: int): (s: string)
    ensures s != []
  {
    if n < 0 then "-" + Digits(-n) else Digits(n)
  }

  predicate IsDigit(c: char) {
    '0' <= c <= '9'
  }

  function DigitValue(c: char): (d: nat)
    requires IsDigit(c)
    ensures d <= 9
  {
    c as int - '0' as int
  }

  /** The number that digits denote. */
  function Value(s: string): nat
    requires forall k :: 0 <= k < |s| ==> IsDigit(s[k])
  {
    if s == [] then 0
    else
      assert IsDigit(s[|s| - 1]);
      10 * Value(s[..|s| - 1]) + DigitValue(s[|s| - 1])
  }

  /** The digits of a number denote it, and begin with a zero for the number zero only. */
  lemma {:induction false} DigitsDenote(n: nat)
    ensures forall k :: 0 <= k < |Digits(n)| ==> IsDigit(Digits(n)[k])
    ensures Value(Digits(n)) == n && (Digits(n)[0] == '0' <==> n == 0)
  {
    if n < 10 {
      assert [DigitChar(n)][..0] == [];
    } else {
      DigitsDenote(n / 10);
      var (front, last) := (Digits(n / 10), DigitChar(n % 10));
      assert (front + [last])[..|front|] == front && DigitValue(last) == n % 10;
    }
  }

  predicate IsNumeral(c: char) {
    IsDigit(c) || c == '-'
  }

  lemma DigitsAreDigits(n: nat)
    ensures forall k :: 0 <= k < |Digits(n)| ==> IsDigit(Digits(n)[k])
  {
    if n >= 10 {
      DigitsAreDigits(n / 10);
    }
  }

  lemma DecimalIsNumeral(n: int)
    ensures forall k :: 0 <= k < |Decimal(n)| ==> IsNumeral(Decimal(n)[k])
  {
    DigitsAreDigits(if n < 0 then -n else n);
  }

  lemma {:induction false} DigitsInjective(m: nat, n: nat)
    requires Digits(m) == Digits(n)
    ensures m == n
  {
    var s := Digits(m);
    assert (|s| == 1) <==> m < 10;
    assert (|s| == 1) <==> n < 10;
    assert s[|s| - 1] == DigitChar(m % 10) == DigitChar(n % 10);
    if m >= 10 {
      assert s[..|s| - 1] == Digits(m / 10) && s[..|s| - 1] == Digits(n / 10);
      DigitsInjective(m / 10, n / 10);
    }
  }

  lemma DecimalInjective(m: int, n: int)
    requires Decimal(m) == Decimal(n)
    ensures m == n
  {
    DigitsAreDigits(if m < 0 then -m else m);
    DigitsAreDigits(if n < 0 then -n else n);
    assert Decimal(m)[0] == '-' <==> m < 0;
    assert Decimal(n)[0] == '-' <==> n < 0;
    if m < 0 {
      assert Decimal(m)[1..] == Digits(-m) && Decimal(n)[1..] == Digits(-n);
      DigitsInjective(-m, -n);
    } else {
      DigitsInjective(m, n);
    }
  }

  ghost predicate FirstAt(s: string, i: nat, c: char) {
    i < |s| && s[i] == c && forall k :: 0 <= k < i ==> s[k] != c
  }

  ghost predicate LastAt(s: string, i: nat, c: char) {
    i < |s| && s[i] == c && forall k :: i < k < |s| ==> s[k] != c
  }

  /** A string splits uniquely at the first occurrence of a separator. */
  lemma SplitFirst(a: string, b: string, a': string, b': string, c: char)
    requires a + [c] + b == a' + [c] + b'
    requires c !in a && c !in a'
    ensures a == a' && b == b'
  {
    var s := a + [c] + b;
    assert FirstAt(s, |a|, c);
    assert FirstAt(a' + [c] + b', |a'|, c);
    assert a == s[..|a|] && a' == s[..|a'|];
    assert b == s[|a| + 1..] && b' == s[|a'| + 1..];
  }

  /** A string splits uniquely at the last occurrence of a separator. */
  lemma SplitLast(a: string, b: string, a': string, b': string, c: char)
    requires a + [c] + b == a' + [c] + b'
    requires c !in b && c !in b'
    ensures a == a' && b == b'
  {
    var s := a + [c] + b;
    assert LastAt(s, |a|, c);
    assert LastAt(a' + [c] + b', |a'|, c);
    assert a == s[..|a|] && a' == s[..|a'|];
    assert b == s[|a| + 1..] && b' == s[|a'| + 1..];
  }
}
