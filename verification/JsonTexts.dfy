/** What a canonical text spells, by the grammar of JSON (RFC 8259). */
module JsonTexts {
  import opened Collections
  import opened Text
  import opened CanonicalJson
  import Utf16

  // ----- Numbers and strings -----

  predicate AllDigits(t: string) {
    forall k :: 0 <= k < |t| ==> IsDigit(t[k])
  }

  /** Digits without a leading zero. */
  predicate SpellsNatural(t: string, n: int) {
    t != [] && AllDigits(t) && (|t| > 1 ==> t[0] != '0') && Value(t) == n
  }

  predicate SpellsNumber(t: string, n: int) {
    SpellsNatural(t, n) || (n < 0 && t != [] && t[0] == '-' && SpellsNatural(t[1..], -n))
  }

  /** A character as it is, after a backslash, or by its number in four hexadecimal digits. */
  predicate SpellsChar(t: string, c: char) {
    || (t == [c] && c >= 32 as char && c != '\"' && c != '\\')
    || (|t| == 2 && t[0] == '\\' && ShortEscape(t[1], c as int))
    || (|t| == 6 && t[..4] == "\\u00" && |HexValue(t[4])| == |HexValue(t[5])| == 1
        && c as int == 16 * HexValue(t[4])[0] + HexValue(t[5])[0])
  }

  predicate ShortEscape(e: char, v: int) {
    || (e == '\"' && v == 0x22) || (e == '\\' && v == 0x5C) || (e == '/' && v == 0x2F) || (e == 'b' && v == 8)
    || (e == 'f' && v == 12) || (e == 'n' && v == 10) || (e == 'r' && v == 13) || (e == 't' && v == 9)
  }

  /** The value of a digit, if it is one. */
  function HexValue(c: char): seq<nat> {
    if IsDigit(c) then [DigitValue(c)]
    else if 'a' <= c <= 'f' then [c as int - 'a' as int + 10]
    else if 'A' <= c <= 'F' then [c as int - 'A' as int + 10]
    else []
  }

  ghost predicate SpellsChars(t: string, s: string)
    decreases |s|
  {
    if s == [] then t == []
    else exists n: nat :: n <= |t| && SpellsChar(t[..n], s[0]) && SpellsChars(t[n..], s[1..])
  }

  ghost predicate SpellsString(t: string, s: string) {
    exists inner :: t == "\"" + inner + "\"" && SpellsChars(inner, s)
  }

  lemma NumberSpells(n: int)
    ensures SpellsNumber(Decimal(n), n)
  {
    DigitsDenote(if n < 0 then -n else n);
    if n < 0 {
      assert Decimal(n)[1..] == Digits(-n);
    }
  }

  lemma CharSpells(c: char)
    ensures SpellsChar(Escape(c), c)
  {
    if c < 32 as char {
      HexCharSpells(c as int / 16);
      HexCharSpells(c as int % 16);
    }
  }

  lemma HexCharSpells(d: nat)
    requires d < 16
    ensures HexValue(HexChar(d)) == [d]
  {
  }

  lemma {:induction false} CharsSpell(s: string)
    ensures SpellsChars(Escaped(s), s)
  {
    if s != [] {
      CharsSpell(s[1..]);
      CharSpells(s[0]);
      var (t, n) := (Escaped(s), |Escape(s[0])|);
      assert t[..n] == Escape(s[0]) && t[n..] == Escaped(s[1..]);
    }
  }

  lemma StringSpells(s: string)
    ensures SpellsString(Quote(s), s)
  {
    CharsSpell(s);
  }

  // ----- Values -----

  /** The parts with commas between them. */
  function Commas(parts: seq<string>): string {
    if parts == [] then "" else if |parts| == 1 then parts[0] else parts[0] + "," + Commas(parts[1..])
  }

  /** No array holds an undefined item. */
  ghost predicate Whole(x: Json)
    decreases x
  {
    match x
    case Arr(items) => forall k :: 0 <= k < |items| ==> !items[k].Undefined? && Whole(items[k])
    case Obj(fields) => forall k :: 0 <= k < |fields| ==> Whole(fields[k].value)
    case _ => true
  }

  /** The text is JSON for the value: an object's defined fields in the order of their keys. */
  ghost predicate Spells(t: string, x: Json)
    decreases x
  {
    match x
    case Undefined => false
    case Null => t == "null"
    case Bool(b) => t == if b then "true" else "false"
    case Number(n) => SpellsNumber(t, n)
    case Str(s) => SpellsString(t, s)
    case Arr(items) =>
      exists parts: seq<string> ::
        && |parts| == |items| && t == "[" + Commas(parts) + "]"
        && forall k :: 0 <= k < |items| ==> Spells(parts[k], items[k])
    case Obj(fields) =>
      exists names: seq<string>, values: seq<string>, at: seq<nat> ::
        && InKeyOrder(fields, at) && |names| == |values| == |at|
        && t == "{" + Commas(Pairs(names, values)) + "}"
        && forall k :: 0 <= k < |at| ==>
             SpellsString(names[k], fields[at[k]].key) && Spells(values[k], fields[at[k]].value)
  }

  function Pairs(names: seq<string>, values: seq<string>): (r: seq<string>)
    requires |names| == |values|
    ensures |r| == |names|
  {
    seq(|names|, k requires 0 <= k < |names| => names[k] + ":" + values[k])
  }

  /** The positions of the defined fields, in the order of the keys. */
  ghost predicate InKeyOrder(fields: seq<Field>, at: seq<nat>) {
    && (forall i: nat :: i in at <==> i < |fields| && !fields[i].value.Undefined?)
    && (forall k :: 0 <= k < |at| ==> at[k] < |fields|)
    && forall j, k :: 0 <= j < k < |at| ==> Less(fields[at[j]].key, fields[at[k]].key)
  }

  // ----- Arrays -----

  function Canons(items: seq<Json>): (r: seq<string>)
    ensures |r| == |items|
  {
    seq(|items|, k requires 0 <= k < |items| => Canon(items[k]))
  }

  lemma {:induction false} ItemsCommas(items: seq<Json>)
    requires forall k :: 0 <= k < |items| ==> !items[k].Undefined?
    ensures JoinItems(items) == Commas(Canons(items))
  {
    hide Canon;
    if items != [] {
      ItemsCommas(items[1..]);
      assert Canons(items)[1..] == Canons(items[1..]);
    }
  }

  // ----- Objects -----

  /** The list holds the fields at these positions. */
  ghost predicate FieldsAt(fields: seq<Field>, list: seq<Field>, at: seq<nat>) {
    |list| == |at| && forall k :: 0 <= k < |at| ==> at[k] < |fields| && list[k] == fields[at[k]]
  }

  lemma {:induction false} InsertAt(fields: seq<Field>, p: nat, list: seq<Field>, at: seq<nat>) returns (at': seq<nat>)
    requires p < |fields| && FieldsAt(fields, list, at)
    ensures FieldsAt(fields, Insert(fields[p], list), at')
    ensures forall i: nat :: i in at' <==> i == p || i in at
  {
    InsertIs(fields[p], list);
    if list == [] || Less(fields[p].key, list[0].key) {
      at' := [p] + at;
    } else {
      assert at == [at[0]] + at[1..];
      var rest := InsertAt(fields, p, list[1..], at[1..]);
      at' := [at[0]] + rest;
    }
    hide Insert, Less;
  }

  lemma {:induction false} MembersPositions(fields: seq<Field>) returns (at: seq<nat>)
    ensures FieldsAt(fields, Members(fields), at)
    ensures forall i: nat :: i in at <==> i < |fields| && !fields[i].value.Undefined?
  {
    if fields == [] {
      at := [];
    } else {
      var rest := MembersPositions(fields[1..]);
      MembersIs(fields);
      hide Members;
      at := seq(|rest|, k requires 0 <= k < |rest| => rest[k] + 1);
      forall i: nat ensures i in at <==> i > 0 && i - 1 in rest {
        MovedMember(rest, at, i);
      }
      if !fields[0].value.Undefined? {
        at := InsertAt(fields, 0, Members(fields[1..]), at);
      }
    }
  }

  lemma {:induction false} SortedPairs(list: seq<Field>, j: nat, k: nat)
    requires Sorted(list) && j < k < |list|
    ensures Less(list[j].key, list[k].key)
  {
    if j == 0 {
      assert list[k] == list[1..][k - 1];
    } else {
      SortedPairs(list[1..], j - 1, k - 1);
    }
  }

  function Names(list: seq<Field>): (r: seq<string>)
    ensures |r| == |list|
  {
    seq(|list|, k requires 0 <= k < |list| => Quote(list[k].key))
  }

  function Values(list: seq<Field>): (r: seq<string>)
    ensures |r| == |list|
  {
    seq(|list|, k requires 0 <= k < |list| => Canon(list[k].value))
  }

  lemma {:induction false} FieldsCommas(list: seq<Field>)
    ensures JoinFields(list) == Commas(Pairs(Names(list), Values(list)))
  {
    hide Canon, Quote;
    if list != [] {
      FieldsCommas(list[1..]);
      assert Pairs(Names(list), Values(list))[1..] == Pairs(Names(list[1..]), Values(list[1..]));
    }
  }

  // ----- Every value -----

  /** The text of a plain value whose arrays hold no undefined item is JSON for it, with
      the fields of every object in the order of their keys. */
  lemma {:induction false} CanonSpells(x: Json)
    requires Plain(x) && Whole(x)
    ensures Spells(Canon(x), x)
    decreases x
  {
    match x
    case Number(n) => NumberSpells(n);
    case Str(s) => StringSpells(s);
    case Arr(items) =>
      forall k | 0 <= k < |items| ensures Spells(Canon(items[k]), items[k]) {
        PlainItem(items, k);
        CanonSpells(items[k]);
      }
      ItemsCommas(items);
      ArraySpells(items);
    case Obj(fields) =>
      forall k | 0 <= k < |fields| && !fields[k].value.Undefined?
        ensures Spells(Canon(fields[k].value), fields[k].value)
      {
        PlainField(fields, k);
        CanonSpells(fields[k].value);
      }
      ObjectSpells(fields);
    case _ =>
  }

  lemma {:induction false} PlainItem(items: seq<Json>, k: nat)
    requires PlainItems(items) && k < |items| && !items[k].Undefined?
    ensures Plain(items[k])
  {
    if k > 0 {
      PlainItem(items[1..], k - 1);
    }
  }

  lemma {:induction false} PlainField(fields: seq<Field>, k: nat)
    requires PlainFields(fields) && k < |fields| && !fields[k].value.Undefined?
    ensures Plain(fields[k].value)
  {
    if k > 0 {
      PlainField(fields[1..], k - 1);
    }
  }

  lemma ArrayText(items: seq<Json>)
    ensures Canon(Arr(items)) == "[" + JoinItems(items) + "]"
  {
  }

  lemma ObjectText(fields: seq<Field>)
    ensures Canon(Obj(fields)) == "{" + JoinFields(Members(fields)) + "}"
  {
  }

  lemma CanonsAt(items: seq<Json>, k: nat)
    requires k < |items|
    ensures Canons(items)[k] == Canon(items[k])
  {
  }

  lemma ArraySpells(items: seq<Json>)
    requires JoinItems(items) == Commas(Canons(items))
    requires forall k :: 0 <= k < |items| ==> Spells(Canon(items[k]), items[k])
    ensures Spells(Canon(Arr(items)), Arr(items))
  {
    hide *;
    ArrayText(items);
    forall k | 0 <= k < |items| ensures Spells(Canons(items)[k], items[k]) {
      CanonsAt(items, k);
    }
    SpelledArray(Canon(Arr(items)), items, Canons(items));
  }

  lemma SpelledArray(t: string, items: seq<Json>, parts: seq<string>)
    requires |parts| == |items| && t == "[" + Commas(parts) + "]"
    requires forall k :: 0 <= k < |items| ==> Spells(parts[k], items[k])
    ensures Spells(t, Arr(items))
  {
    hide Commas, SpellsString, SpellsNumber, InKeyOrder, Pairs;
  }

  lemma SpelledObject(t: string, fields: seq<Field>, names: seq<string>, values: seq<string>, at: seq<nat>)
    requires InKeyOrder(fields, at) && |names| == |values| == |at| && t == "{" + Commas(Pairs(names, values)) + "}"
    requires forall k :: 0 <= k < |at| ==>
               SpellsString(names[k], fields[at[k]].key) && Spells(values[k], fields[at[k]].value)
    ensures Spells(t, Obj(fields))
  {
    hide Commas, SpellsString, SpellsNumber, Pairs;
  }

  lemma ObjectSpells(fields: seq<Field>)
    requires PlainFields(fields)
    requires forall k :: 0 <= k < |fields| && !fields[k].value.Undefined? ==>
               Spells(Canon(fields[k].value), fields[k].value)
    ensures Spells(Canon(Obj(fields)), Obj(fields))
  {
    hide Canon, JoinFields, Commas, Members, Quote, Less, SpellsString, SpellsNumber, Plain, PlainFields, Spells,
         Sorted, DenoteFields;
    var list := Members(fields);
    var at := MembersPositions(fields);
    MembersFacts(fields);
    FieldsCommas(list);
    ObjectText(fields);
    forall j, k | 0 <= j < k < |at| ensures Less(fields[at[j]].key, fields[at[k]].key) {
      SortedPairs(list, j, k);
    }
    forall k | 0 <= k < |at|
      ensures SpellsString(Names(list)[k], fields[at[k]].key) && Spells(Values(list)[k], fields[at[k]].value)
    {
      StringSpells(list[k].key);
      assert at[k] in at;
    }
    SpelledObject(Canon(Obj(fields)), fields, Names(list), Values(list), at);
  }

  /** An undefined item leaves a hole, which is not JSON: nothing stands between the brackets
      and the comma. */
  lemma HoleText()
    ensures Canon(Arr([Null, Undefined])) == "[null,]"
  {
    assert JoinItems([Undefined]) == "" && [Null, Undefined][1..] == [Undefined];
  }

  // ----- The order of keys -----

  /** They agree up to position n, where a ends or has the smaller number. */
  ghost predicate SmallerAt(a: seq<int>, b: seq<int>, n: nat) {
    n <= |a| && n < |b| && (forall k :: 0 <= k < n ==> a[k] == b[k]) && (n == |a| || a[n] < b[n])
  }

  ghost predicate Precedes(a: seq<int>, b: seq<int>) {
    exists n: nat :: SmallerAt(a, b, n)
  }

  lemma PrecedesCons(x: int, a: seq<int>, y: int, b: seq<int>)
    ensures Precedes([x] + a, [y] + b) <==> x < y || (x == y && Precedes(a, b))
  {
    var (a', b') := ([x] + a, [y] + b);
    if x < y {
      assert SmallerAt(a', b', 0);
    }
    if x == y && Precedes(a, b) {
      var n: nat :| SmallerAt(a, b, n);
      assert SmallerAt(a', b', n + 1);
    }
    if Precedes(a', b') {
      var n: nat :| SmallerAt(a', b', n);
      if n > 0 {
        assert a'[0] == b'[0] && forall k :: 0 <= k < n - 1 ==> a[k] == a'[k + 1] && b[k] == b'[k + 1];
        assert SmallerAt(a, b, n - 1);
      }
    }
  }

  lemma UnitsOrder(c: char, d: char, x: seq<int>, y: seq<int>)
    requires c != d
    ensures Precedes(Utf16.Units(c) + x, Utf16.Units(d) + y) <==> Rank(c) < Rank(d)
  {
    var (u, v) := (Utf16.Units(c), Utf16.Units(d));
    UnitsAre(c);
    UnitsAre(d);
    var (u', v') := (u[1..] + x, v[1..] + y);
    assert u + x == [u[0]] + u' && v + y == [v[0]] + v';
    PrecedesCons(u[0], u', v[0], v');
    if u[0] == v[0] {
      assert |u| == |v| == 2 && u' == [u[1]] + x && v' == [v[1]] + y;
      PrecedesCons(u[1], x, v[1], y);
    }
    hide Precedes, Utf16.Units;
  }

  lemma UnitsAre(c: char)
    ensures var (u, v) := (Utf16.Units(c), c as int);
            if v < 0x1_0000 then u == [v] && (v < 0xD800 || 0xE000 <= v)
            else |u| == 2 && 0xD800 <= u[0] < 0xDC00 <= u[1] < 0xE000
                 && v - 0x1_0000 == (u[0] as int - 0xD800) * 0x400 + (u[1] as int - 0xDC00)
  {
  }

  lemma SameUnits(c: char, x: seq<int>, y: seq<int>)
    ensures Precedes(Utf16.Units(c) + x, Utf16.Units(c) + y) <==> Precedes(x, y)
  {
    var u := Utf16.Units(c);
    UnitsAre(c);
    hide Precedes, Utf16.Units;
    var (x', y') := (u[1..] + x, u[1..] + y);
    assert u + x == [u[0]] + x' && u + y == [u[0]] + y';
    PrecedesCons(u[0], x', u[0], y');
    if |u| == 2 {
      assert x' == [u[1]] + x && y' == [u[1]] + y;
      PrecedesCons(u[1], x, u[1], y);
    } else {
      assert x' == x && y' == y;
    }
  }

  lemma EncodeNext(s: string)
    requires s != []
    ensures Utf16.Encode(s) == Utf16.Units(s[0]) + Utf16.Encode(s[1..]) && Utf16.Encode(s) != []
  {
    UnitsAre(s[0]);
  }

  lemma PrecedesEmpty(a: seq<int>, b: seq<int>)
    ensures b == [] ==> !Precedes(a, b)
    ensures a == [] && b != [] ==> Precedes(a, b)
  {
    if a == [] && b != [] {
      assert SmallerAt(a, b, 0);
    }
  }

  /** Keys are in the order of their UTF-16 code units, as `sort` puts them. */
  lemma {:induction false} LessExactly(a: string, b: string)
    ensures Less(a, b) <==> Precedes(Utf16.Encode(a), Utf16.Encode(b))
  {
    hide Precedes, Utf16.Units, Rank;
    PrecedesEmpty(Utf16.Encode(a), Utf16.Encode(b));
    if a != [] {
      EncodeNext(a);
    }
    if b != [] {
      EncodeNext(b);
    }
    if a != [] && b != [] {
      LessExactly(a[1..], b[1..]);
      if a[0] == b[0] {
        SameUnits(a[0], Utf16.Encode(a[1..]), Utf16.Encode(b[1..]));
      } else {
        UnitsOrder(a[0], b[0], Utf16.Encode(a[1..]), Utf16.Encode(b[1..]));
      }
    }
  }
}
