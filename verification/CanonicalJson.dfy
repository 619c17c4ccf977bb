/** The deterministic JSON text that is signed, and the frame around it. */
module CanonicalJson {
  import opened Bytes
  import opened Text

  /** A JavaScript value made of plain data, with integer numbers. The fields of an
      object are in insertion order. */
  datatype Json =
    | Undefined
    | Null
    | Bool(b: bool)
    | Number(n: int)
    | Str(s: string)
    | Arr(items: seq<Json>)
    | Obj(fields: seq<Field>)

  datatype Field = Field(key: string, value: Json)

  // ----- Sizes, for recursion over sorted fields -----

  function Height(x: Json): nat {
    match x
    case Arr(items) => 1 + ItemsHeight(items)
    case Obj(fields) => 1 + FieldsHeight(fields)
    case _ => 0
  }

  function ItemsHeight(items: seq<Json>): nat {
    if items == [] then 0 else Max(Height(items[0]), ItemsHeight(items[1..]))
  }

  function FieldsHeight(fields: seq<Field>): nat {
    if fields == [] then 0 else Max(Height(fields[0].value), FieldsHeight(fields[1..]))
  }

  function Max(a: nat, b: nat): nat {
    if a < b then b else a
  }

  // ----- Sorting -----

  /** The place of a character in the order of UTF-16 code units: characters outside
      the basic plane come before U+E000. */
  function Rank(c: char): int {
    var v := c as int;
    if 0xE000 <= v < 0x1_0000 then v + 0x20_0000 else v
  }

  /** The order in which `sort` puts keys. */
  predicate Less(a: string, b: string) {
    b != [] && (a == [] || Rank(a[0]) < Rank(b[0]) || (a[0] == b[0] && Less(a[1..], b[1..])))
  }

  function Insert(f: Field, fields: seq<Field>): (r: seq<Field>)
    ensures |r| == |fields| + 1
    ensures FieldsHeight(r) == Max(Height(f.value), FieldsHeight(fields))
  {
    if fields == [] || Less(f.key, fields[0].key) then [f] + fields
    else
      var rest := Insert(f, fields[1..]);
      assert ([fields[0]] + rest)[1..] == rest;
      [fields[0]] + rest
  }

  /** The defined fields, sorted by key. */
  function Members(fields: seq<Field>): (r: seq<Field>)
    ensures FieldsHeight(r) <= FieldsHeight(fields)
  {
    if fields == [] then []
    else if fields[0].value.Undefined? then Members(fields[1..])
    else Insert(fields[0], Members(fields[1..]))
  }

  // ----- The text -----

  function Escape(c: char): (r: string)
    ensures r != []
  {
    if c == '\"' then "\\\""
    else if c == '\\' then "\\\\"
    else if c == 8 as char then "\\b"
    else if c == 9 as char then "\\t"
    else if c == 10 as char then "\\n"
    else if c == 12 as char then "\\f"
    else if c == 13 as char then "\\r"
    else if c < 32 as char then "\\u00" + [HexChar(c as int / 16), HexChar(c as int % 16)]
    else [c]
  }

  function HexChar(d: nat): char
    requires d < 16
  {
    "0123456789abcdef"[d]
  }

  function Escaped(s: string): string {
    if s == [] then "" else Escape(s[0]) + Escaped(s[1..])
  }

  /** `JSON.stringify` of a string. */
  function Quote(s: string): string {
    "\"" + Escaped(s) + "\""
  }

  /** `canonicalJson`, as it appears in a template text. */
  function Canon(x: Json): string
    decreases Height(x), 0
  {
    match x
    case Undefined => "undefined"
    case Null => "null"
    case Bool(b) => if b then "true" else "false"
    case Number(n) => Decimal(n)
    case Str(s) => Quote(s)
    case Arr(items) => "[" + JoinItems(items) + "]"
    case Obj(fields) => "{" + JoinFields(Members(fields)) + "}"
  }

  /** `join` prints an undefined item as nothing. */
  function JoinItems(items: seq<Json>): string
    decreases ItemsHeight(items), |items|
  {
    if items == [] then ""
    else
      (if items[0].Undefined? then "" else Canon(items[0]))
      + if |items| == 1 then "" else "," + JoinItems(items[1..])
  }

  function JoinFields(fields: seq<Field>): string
    decreases FieldsHeight(fields), |fields|
  {
    if fields == [] then ""
    else
      Quote(fields[0].key) + ":" + Canon(fields[0].value)
      + if |fields| == 1 then "" else "," + JoinFields(fields[1..])
  }

  // ----- What a value means -----

  /** A value up to the order of keys, up to undefined fields, and with the list of one
      undefined item taken for the empty list. */
  datatype Meaning =
    | Nothing
    | IsNull
    | IsBool(b: bool)
    | IsNumber(n: int)
    | IsString(s: string)
    | IsArray(items: seq<Meaning>)
    | IsObject(fields: map<string, Meaning>)

  function Denote(x: Json): Meaning
    decreases Height(x), 0
  {
    match x
    case Undefined => Nothing
    case Null => IsNull
    case Bool(b) => IsBool(b)
    case Number(n) => IsNumber(n)
    case Str(s) => IsString(s)
    case Arr(items) => IsArray(if items == [Undefined] then [] else DenoteItems(items))
    case Obj(fields) => IsObject(DenoteFields(fields))
  }

  function DenoteItems(items: seq<Json>): (r: seq<Meaning>)
    ensures |r| == |items|
    decreases ItemsHeight(items), |items|
  {
    if items == [] then [] else [Denote(items[0])] + DenoteItems(items[1..])
  }

  function DenoteFields(fields: seq<Field>): map<string, Meaning>
    decreases FieldsHeight(fields), |fields|
  {
    if fields == [] then map[]
    else if fields[0].value.Undefined? then DenoteFields(fields[1..])
    else DenoteFields(fields[1..])[fields[0].key := Denote(fields[0].value)]
  }

  /** Plain data: objects have different keys, and the value itself is defined. */
  ghost predicate Plain(x: Json)
    decreases Height(x), 0
  {
    match x
    case Undefined => false
    case Arr(items) => PlainItems(items)
    case Obj(fields) => PlainFields(fields)
    case _ => true
  }

  ghost predicate PlainItems(items: seq<Json>)
    decreases ItemsHeight(items), |items|
  {
    items == [] || ((items[0].Undefined? || Plain(items[0])) && PlainItems(items[1..]))
  }

  ghost predicate PlainFields(fields: seq<Field>)
    decreases FieldsHeight(fields), |fields|
  {
    fields == [] ||
    (&& (fields[0].value.Undefined? || Plain(fields[0].value)) && PlainFields(fields[1..])
     && forall k :: 1 <= k < |fields| ==> fields[k].key != fields[0].key)
  }

  // ----- Sorted fields -----

  lemma {:induction false} LessOrder(a: string, b: string)
    ensures Less(a, b) ==> a != b && !Less(b, a)
    ensures a != b ==> Less(a, b) || Less(b, a)
    decreases |a| + |b|
  {
    if a != [] && b != [] {
      LessOrder(a[1..], b[1..]);
      assert a == [a[0]] + a[1..] && b == [b[0]] + b[1..];
      RankInjective(a[0], b[0]);
    }
  }

  lemma RankInjective(c: char, d: char)
    ensures Rank(c) == Rank(d) ==> c == d
  {
    assert c as int == d as int ==> c == d;
  }

  lemma {:induction false} LessTransitive(a: string, b: string, c: string)
    requires Less(a, b) && Less(b, c)
    ensures Less(a, c)
  {
    if a != [] && a[0] == b[0] == c[0] {
      LessTransitive(a[1..], b[1..], c[1..]);
    }
  }

  ghost predicate Before(key: string, fields: seq<Field>) {
    forall k :: 0 <= k < |fields| ==> Less(key, fields[k].key)
  }

  ghost predicate Sorted(fields: seq<Field>) {
    fields == [] || (Before(fields[0].key, fields[1..]) && Sorted(fields[1..]))
  }

  ghost predicate NoKey(key: string, fields: seq<Field>) {
    forall k :: 0 <= k < |fields| ==> fields[k].key != key
  }

  ghost predicate AllPlain(fields: seq<Field>) {
    forall k :: 0 <= k < |fields| ==> Plain(fields[k].value)
  }

  lemma BeforeAll(key: string, fields: seq<Field>)
    requires Sorted(fields) && (fields == [] || Less(key, fields[0].key))
    ensures Before(key, fields)
  {
    forall k | 0 <= k < |fields| ensures Less(key, fields[k].key) {
      if k > 0 {
        assert fields[k] == fields[1..][k - 1];
        LessTransitive(key, fields[0].key, fields[k].key);
      }
    }
  }

  lemma BeforeMeansNoKey(key: string, fields: seq<Field>)
    requires Before(key, fields)
    ensures NoKey(key, fields)
  {
    forall k | 0 <= k < |fields| ensures fields[k].key != key {
      LessOrder(key, fields[k].key);
    }
  }

  lemma Cons(f: Field, fields: seq<Field>)
    ensures ([f] + fields)[1..] == fields && ([f] + fields)[0] == f
    ensures Sorted([f] + fields) <==> Before(f.key, fields) && Sorted(fields)
    ensures AllPlain([f] + fields) <==> Plain(f.value) && AllPlain(fields)
    ensures forall key :: NoKey(key, [f] + fields) <==> f.key != key && NoKey(key, fields)
    ensures forall key :: Before(key, [f] + fields) <==> Less(key, f.key) && Before(key, fields)
  {
    hide Less, Plain;
    var all := [f] + fields;
    assert all[1..] == fields && all[0] == f;
    assert forall k :: 0 <= k < |fields| ==> fields[k] == all[k + 1];
  }

  lemma Uncons(fields: seq<Field>)
    requires fields != []
    ensures [fields[0]] + fields[1..] == fields
  {
  }

  lemma PlainDefined(x: Json)
    requires Plain(x)
    ensures !x.Undefined?
  {
  }

  lemma DenoteCons(f: Field, fields: seq<Field>)
    requires !f.value.Undefined?
    ensures DenoteFields([f] + fields) == DenoteFields(fields)[f.key := Denote(f.value)]
  {
    assert ([f] + fields)[1..] == fields;
  }

  lemma {:induction false} InsertFacts(f: Field, fields: seq<Field>)
    requires Sorted(fields) && NoKey(f.key, fields) && AllPlain(fields) && Plain(f.value)
    ensures Sorted(Insert(f, fields)) && AllPlain(Insert(f, fields))
    ensures forall key :: NoKey(key, Insert(f, fields)) <==> key != f.key && NoKey(key, fields)
    ensures forall key :: Before(key, fields) && Less(key, f.key) ==> Before(key, Insert(f, fields))
    ensures DenoteFields(Insert(f, fields)) == DenoteFields(fields)[f.key := Denote(f.value)]
  {
    hide *;
    PlainDefined(f.value);
    InsertIs(f, fields);
    if fields == [] || Less(f.key, fields[0].key) {
      BeforeAll(f.key, fields);
      Cons(f, fields);
      DenoteCons(f, fields);
    } else {
      var rest := fields[1..];
      Uncons(fields);
      Cons(fields[0], rest);
      InsertFacts(f, rest);
      LessOrder(f.key, fields[0].key);
      Cons(fields[0], Insert(f, rest));
      PlainDefined(fields[0].value);
      DenoteCons(fields[0], rest);
      DenoteCons(fields[0], Insert(f, rest));
    }
  }

  lemma InsertIs(f: Field, fields: seq<Field>)
    ensures Insert(f, fields) == if fields == [] || Less(f.key, fields[0].key) then [f] + fields
                                 else [fields[0]] + Insert(f, fields[1..])
  {
  }

  lemma MembersIs(fields: seq<Field>)
    requires fields != []
    ensures Members(fields) == if fields[0].value.Undefined? then Members(fields[1..])
                               else Insert(fields[0], Members(fields[1..]))
    ensures DenoteFields(fields) == if fields[0].value.Undefined? then DenoteFields(fields[1..])
                                    else DenoteFields(fields[1..])[fields[0].key := Denote(fields[0].value)]
    ensures PlainFields(fields) ==> (fields[0].value.Undefined? || Plain(fields[0].value)) && PlainFields(fields[1..])
                                    && NoKey(fields[0].key, fields[1..])
  {
    hide Insert, Plain, Denote;
  }

  lemma EmptyFields()
    ensures Members([]) == [] && Sorted([]) && AllPlain([]) && DenoteFields([]) == map[]
    ensures forall key :: NoKey(key, [])
  {
  }

  /** Sorting the defined fields changes nothing but their order. */
  lemma {:induction false} MembersFacts(fields: seq<Field>)
    requires PlainFields(fields)
    ensures Sorted(Members(fields)) && AllPlain(Members(fields))
    ensures DenoteFields(Members(fields)) == DenoteFields(fields)
    ensures forall key :: NoKey(key, fields) ==> NoKey(key, Members(fields))
  {
    hide *;
    if fields == [] {
      EmptyFields();
    } else {
      MembersIs(fields);
      MembersFacts(fields[1..]);
      Uncons(fields);
      Cons(fields[0], fields[1..]);
      if !fields[0].value.Undefined? {
        InsertFacts(fields[0], Members(fields[1..]));
      }
    }
  }

  // ----- Equal meanings have equal texts -----

  lemma {:induction false} KeysOfMembers(fields: seq<Field>)
    requires AllPlain(fields)
    ensures forall key :: key in DenoteFields(fields) <==> !NoKey(key, fields)
  {
    hide *;
    if fields == [] {
      EmptyFields();
    } else {
      Uncons(fields);
      Cons(fields[0], fields[1..]);
      PlainDefined(fields[0].value);
      DenoteCons(fields[0], fields[1..]);
      KeysOfMembers(fields[1..]);
    }
  }

  lemma FirstKeyLeast(fields: seq<Field>, key: string)
    requires fields != [] && Sorted(fields) && !NoKey(key, fields)
    ensures key == fields[0].key || Less(fields[0].key, key)
  {
    var k :| 0 <= k < |fields| && fields[k].key == key;
    if k > 0 {
      assert fields[1..][k - 1] == fields[k];
    }
  }

  /** Sorted lists of fields with one meaning have the same first field, and tails of one meaning. */
  lemma SameFirst(fs: seq<Field>, gs: seq<Field>)
    requires fs != [] && gs != [] && Sorted(fs) && Sorted(gs) && AllPlain(fs) && AllPlain(gs)
    requires DenoteFields(fs) == DenoteFields(gs)
    ensures fs[0].key == gs[0].key && Denote(fs[0].value) == Denote(gs[0].value)
    ensures DenoteFields(fs[1..]) == DenoteFields(gs[1..])
    ensures Sorted(fs[1..]) && Sorted(gs[1..]) && AllPlain(fs[1..]) && AllPlain(gs[1..])
    ensures Plain(fs[0].value) && Plain(gs[0].value)
  {
    hide *;
    Uncons(fs);
    Uncons(gs);
    Cons(fs[0], fs[1..]);
    Cons(gs[0], gs[1..]);
    KeysOfMembers(fs);
    KeysOfMembers(gs);
    FirstKeyLeast(fs, gs[0].key);
    FirstKeyLeast(gs, fs[0].key);
    LessOrder(fs[0].key, gs[0].key);
    PlainDefined(fs[0].value);
    PlainDefined(gs[0].value);
    DenoteCons(fs[0], fs[1..]);
    DenoteCons(gs[0], gs[1..]);
    TailMeaning(fs);
    TailMeaning(gs);
    assert DenoteFields(fs)[fs[0].key] == Denote(fs[0].value);
    assert DenoteFields(gs)[gs[0].key] == Denote(gs[0].value);
  }

  lemma TailMeaning(fs: seq<Field>)
    requires fs != [] && Sorted(fs) && AllPlain(fs)
    ensures DenoteFields(fs[1..]) == DenoteFields(fs) - {fs[0].key}
  {
    hide *;
    Uncons(fs);
    Cons(fs[0], fs[1..]);
    PlainDefined(fs[0].value);
    DenoteCons(fs[0], fs[1..]);
    BeforeMeansNoKey(fs[0].key, fs[1..]);
    KeysOfMembers(fs[1..]);
  }

  lemma FirstKeyMeant(fs: seq<Field>)
    requires AllPlain(fs) && fs != []
    ensures fs[0].key in DenoteFields(fs)
  {
    hide *;
    KeysOfMembers(fs);
    Uncons(fs);
    Cons(fs[0], fs[1..]);
    assert !NoKey(fs[0].key, fs);
  }

  lemma NoFieldsNoMeaning(fs: seq<Field>)
    requires AllPlain(fs) && DenoteFields(fs) == map[]
    ensures fs == []
  {
    if fs != [] {
      FirstKeyMeant(fs);
    }
  }

  lemma {:induction false} SameText(x: Json, y: Json)
    requires Plain(x) && Plain(y) && Denote(x) == Denote(y)
    ensures Canon(x) == Canon(y)
    decreases Height(x), 0
  {
    hide Sorted, AllPlain, NoKey, PlainFields, DenoteFields, PlainItems, DenoteItems, Members;
    if x.Arr? && y.Arr? {
      assert JoinItems([Undefined]) == "";
      if x.items != [Undefined] && y.items != [Undefined] {
        ItemsSameText(x.items, y.items);
      } else {
        NothingListed(x.items);
        NothingListed(y.items);
      }
    } else if x.Obj? && y.Obj? {
      MembersFacts(x.fields);
      MembersFacts(y.fields);
      FieldsSameText(Members(x.fields), Members(y.fields));
    }
  }

  lemma DefinedMeaning(x: Json)
    ensures Denote(x) == Nothing <==> x.Undefined?
  {
  }

  lemma NothingListed(items: seq<Json>)
    ensures DenoteItems(items) == [] <==> items == []
    ensures items == [] ==> JoinItems(items) == ""
  {
  }

  lemma {:induction false} ItemsSameText(xs: seq<Json>, ys: seq<Json>)
    requires PlainItems(xs) && PlainItems(ys) && DenoteItems(xs) == DenoteItems(ys)
    ensures JoinItems(xs) == JoinItems(ys)
    decreases ItemsHeight(xs), |xs|
  {
    hide Plain, Denote, Canon;
    if xs != [] {
      assert DenoteItems(xs)[0] == Denote(xs[0]) && DenoteItems(ys)[0] == Denote(ys[0]);
      assert DenoteItems(xs)[1..] == DenoteItems(xs[1..]) && DenoteItems(ys)[1..] == DenoteItems(ys[1..]);
      DefinedMeaning(xs[0]);
      DefinedMeaning(ys[0]);
      if !xs[0].Undefined? {
        SameText(xs[0], ys[0]);
      }
      ItemsSameText(xs[1..], ys[1..]);
    }
  }

  lemma {:induction false} FieldsSameText(fs: seq<Field>, gs: seq<Field>)
    requires Sorted(fs) && Sorted(gs) && AllPlain(fs) && AllPlain(gs) && DenoteFields(fs) == DenoteFields(gs)
    ensures JoinFields(fs) == JoinFields(gs)
    decreases FieldsHeight(fs), |fs|
  {
    hide Sorted, AllPlain, DenoteFields, Canon, Quote;
    EmptyFields();
    if fs == [] {
      NoFieldsNoMeaning(gs);
    } else if gs == [] {
      NoFieldsNoMeaning(fs);
    } else {
      SameFirst(fs, gs);
      SameText(fs[0].value, gs[0].value);
      FieldsSameText(fs[1..], gs[1..]);
      SameLength(fs, gs);
    }
  }

  lemma {:induction false} SameLength(fs: seq<Field>, gs: seq<Field>)
    requires Sorted(fs) && Sorted(gs) && AllPlain(fs) && AllPlain(gs) && DenoteFields(fs) == DenoteFields(gs)
    ensures |fs| == |gs|
  {
    hide *;
    EmptyFields();
    if fs == [] {
      NoFieldsNoMeaning(gs);
    } else if gs == [] {
      NoFieldsNoMeaning(fs);
    } else {
      SameFirst(fs, gs);
      SameLength(fs[1..], gs[1..]);
    }
  }

  // ----- Equal texts have equal meanings -----

  lemma Shift(a: string, b: string, c: string)
    ensures a + b + c == a + (b + c)
  {
  }

  lemma DropSame(a: string, x: string, y: string)
    requires a + x == a + y
    ensures x == y
  {
    assert (a + x)[|a|..] == x && (a + y)[|a|..] == y;
  }

  /** What follows a value: the end of the text, or of an item. */
  ghost predicate Ends(r: string) {
    r == [] || r[0] == ',' || r[0] == ']' || r[0] == '}'
  }

  /** How many characters an escape takes, from its first two. */
  function EscapeWidth(first: char, second: char): nat {
    if first != '\\' then 1 else if second == 'u' then 6 else 2
  }

  lemma EscapeShape(c: char)
    ensures var e := Escape(c);
            && e[0] != '\"' && (e[0] == '\\' ==> |e| >= 2)
            && |e| == EscapeWidth(e[0], if |e| >= 2 then e[1] else ' ')
  {
  }

  /** The number of the character that an escape stands for. */
  function Unescape(e: string): int
    requires |e| == 1 || |e| == 2 || |e| == 6
  {
    if |e| == 1 then e[0] as int
    else if |e| == 6 then HexValue(e[4]) * 16 + HexValue(e[5])
    else match e[1]
      case 'b' => 8
      case 't' => 9
      case 'n' => 10
      case 'f' => 12
      case 'r' => 13
      case c => c as int
  }

  function HexValue(c: char): int {
    if c <= '9' then c as int - '0' as int else c as int - 'a' as int + 10
  }

  lemma HexValueOf(d: nat)
    requires d < 16
    ensures HexValue(HexChar(d)) == d
  {
  }

  lemma UnescapeEscape(c: char)
    ensures |Escape(c)| == 1 || |Escape(c)| == 2 || |Escape(c)| == 6
    ensures Unescape(Escape(c)) == c as int
  {
    if c < 32 as char {
      HexValueOf(c as int / 16);
      HexValueOf(c as int % 16);
    }
    hide HexChar, HexValue;
  }

  lemma EscapeInjective(c: char, d: char)
    requires Escape(c) == Escape(d)
    ensures c == d
  {
    hide Escape, Unescape;
    UnescapeEscape(c);
    UnescapeEscape(d);
    assert c as int == d as int;
  }

  lemma EscapePrefix(c: char, d: char, x: string, y: string)
    requires Escape(c) + x == Escape(d) + y
    ensures c == d && x == y
  {
    hide Escape;
    var (s, t) := (Escape(c) + x, Escape(d) + y);
    EscapeShape(c);
    EscapeShape(d);
    assert s[0] == Escape(c)[0] && t[0] == Escape(d)[0];
    if s[0] == '\\' {
      assert s[1] == Escape(c)[1] && t[1] == Escape(d)[1];
    }
    assert Escape(c) == s[..|Escape(c)|] && Escape(d) == t[..|Escape(d)|];
    assert x == s[|Escape(c)|..] && y == t[|Escape(d)|..];
    EscapeInjective(c, d);
  }

  lemma EscapedStart(s: string, r: string)
    ensures (Escaped(s) + ("\"" + r))[0] == '\"' <==> s == []
  {
    if s != [] {
      EscapeShape(s[0]);
      assert (Escaped(s) + ("\"" + r))[0] == Escape(s[0])[0];
    }
  }

  /** A quoted string ends at the first quote that is not escaped. */
  lemma {:induction false} EscapedPrefix(s: string, t: string, r: string, q: string)
    requires Escaped(s) + ("\"" + r) == Escaped(t) + ("\"" + q)
    ensures s == t && r == q
  {
    EscapedStart(s, r);
    EscapedStart(t, q);
    hide Escape;
    if s == [] && t == [] {
      assert [] + ("\"" + r) == "\"" + r && [] + ("\"" + q) == "\"" + q;
      DropSame("\"", r, q);
    } else if s != [] && t != [] {
      Shift(Escape(s[0]), Escaped(s[1..]), "\"" + r);
      Shift(Escape(t[0]), Escaped(t[1..]), "\"" + q);
      EscapePrefix(s[0], t[0], Escaped(s[1..]) + ("\"" + r), Escaped(t[1..]) + ("\"" + q));
      EscapedPrefix(s[1..], t[1..], r, q);
      assert s == [s[0]] + s[1..] && t == [t[0]] + t[1..];
    }
  }

  lemma QuotePrefix(s: string, t: string, r: string, q: string)
    requires Quote(s) + r == Quote(t) + q
    ensures s == t && r == q
  {
    hide Escaped;
    assert Quote(s) + r == "\"" + (Escaped(s) + ("\"" + r));
    assert Quote(t) + q == "\"" + (Escaped(t) + ("\"" + q));
    DropSame("\"", Escaped(s) + ("\"" + r), Escaped(t) + ("\"" + q));
    EscapedPrefix(s, t, r, q);
  }

  /** A numeral ends where its characters end. */
  lemma NumberPrefix(m: int, n: int, r: string, q: string)
    requires Decimal(m) + r == Decimal(n) + q && Ends(r) && Ends(q)
    ensures m == n && r == q
  {
    DecimalIsNumeral(m);
    DecimalIsNumeral(n);
    hide Decimal;
    NumeralEnd(Decimal(m), Decimal(n), r, q);
    DecimalInjective(m, n);
  }

  lemma NumeralEnd(a: string, b: string, r: string, q: string)
    requires forall k :: 0 <= k < |a| ==> IsNumeral(a[k])
    requires forall k :: 0 <= k < |b| ==> IsNumeral(b[k])
    requires a + r == b + q && Ends(r) && Ends(q)
    ensures a == b && r == q
  {
    var (s, t) := (a + r, b + q);
    assert |a| < |s| ==> !IsNumeral(s[|a|]);
    assert |b| < |t| ==> !IsNumeral(t[|b|]);
    assert forall k :: 0 <= k < |a| ==> s[k] == a[k];
    assert forall k :: 0 <= k < |b| ==> t[k] == b[k];
    assert |a| == |b|;
    assert a == s[..|a|] && b == t[..|b|] && r == s[|a|..] && q == t[|b|..];
  }

  // ----- The prefix property of whole values -----

  /** The first character of a text tells what kind of value it is. */
  function Kind(c: char): nat {
    match c
    case 'n' => 1
    case 't' => 2
    case 'f' => 3
    case '\"' => 5
    case '[' => 6
    case '{' => 7
    case d => if IsNumeral(d) then 4 else 0
  }

  function KindOf(x: Json): nat {
    match x
    case Undefined => 0
    case Null => 1
    case Bool(b) => if b then 2 else 3
    case Number(_) => 4
    case Str(_) => 5
    case Arr(_) => 6
    case Obj(_) => 7
  }

  lemma CanonKind(x: Json)
    requires Plain(x)
    ensures Canon(x) != [] && Kind(Canon(x)[0]) == KindOf(x) != 0
  {
    hide JoinItems, JoinFields, Members, Escaped, Decimal, Plain;
    PlainDefined(x);
    if x.Number? {
      DecimalIsNumeral(x.n);
    }
  }

  lemma SameKind(x: Json, y: Json, r: string, q: string)
    requires Plain(x) && Plain(y) && Canon(x) + r == Canon(y) + q
    ensures KindOf(x) == KindOf(y) != 0
  {
    hide Canon, Plain, Kind, KindOf;
    CanonKind(x);
    CanonKind(y);
    assert (Canon(x) + r)[0] == Canon(x)[0] && (Canon(y) + q)[0] == Canon(y)[0];
  }

  /** What follows the first item of an array, up to the end of the text. */
  function ItemsTail(xs: seq<Json>, r: string): string
    requires xs != []
  {
    if |xs| == 1 then "]" + r else "," + (JoinItems(xs[1..]) + ("]" + r))
  }

  function ItemText(x: Json): string {
    if x.Undefined? then "" else Canon(x)
  }

  lemma JoinItemsFirst(xs: seq<Json>, r: string)
    requires xs != [] && PlainItems(xs)
    ensures JoinItems(xs) + ("]" + r) == ItemText(xs[0]) + ItemsTail(xs, r)
    ensures Ends(ItemsTail(xs, r)) && ItemsTail(xs, r) != []
    ensures (xs[0].Undefined? || Plain(xs[0])) && PlainItems(xs[1..])
  {
    hide Canon, Plain;
    var rest := if |xs| == 1 then "" else "," + JoinItems(xs[1..]);
    Shift(ItemText(xs[0]), rest, "]" + r);
    if |xs| > 1 {
      Shift(",", JoinItems(xs[1..]), "]" + r);
    } else {
      assert rest + ("]" + r) == "]" + r;
    }
  }

  /** Whether an item is defined shows in the first character. */
  lemma ItemStart(x: Json, tail: string)
    requires (x.Undefined? || Plain(x)) && Ends(tail) && tail != []
    ensures ItemText(x) + tail != [] && (Kind((ItemText(x) + tail)[0]) == 0 <==> x.Undefined?)
    ensures x.Undefined? ==> ItemText(x) + tail == tail
  {
    if x.Undefined? {
      assert ItemText(x) + tail == tail;
    } else {
      CanonKind(x);
      hide Canon, Plain;
    }
  }

  lemma ItemsStart(xs: seq<Json>, r: string)
    requires PlainItems(xs)
    ensures (JoinItems(xs) + ("]" + r))[0] == ']' <==> xs == [] || xs == [Undefined]
  {
    if xs != [] {
      JoinItemsFirst(xs, r);
      ItemStart(xs[0], ItemsTail(xs, r));
      hide JoinItems, ItemText, Plain;
      assert ItemsTail(xs, r)[0] == if |xs| == 1 then ']' else ',';
      if xs[0].Undefined? && |xs| == 1 {
        assert xs == [Undefined];
      }
    }
  }

  function FieldsTail(fs: seq<Field>, r: string): string
    requires fs != []
  {
    if |fs| == 1 then "}" + r else "," + (JoinFields(fs[1..]) + ("}" + r))
  }

  lemma JoinFieldsFirst(fs: seq<Field>, r: string)
    requires fs != [] && AllPlain(fs)
    ensures JoinFields(fs) + ("}" + r) == Quote(fs[0].key) + (":" + (Canon(fs[0].value) + FieldsTail(fs, r)))
    ensures Ends(FieldsTail(fs, r)) && Plain(fs[0].value) && AllPlain(fs[1..])
  {
    hide Canon, Plain, Quote;
    var (key, value) := (Quote(fs[0].key), Canon(fs[0].value));
    var rest := if |fs| == 1 then "" else "," + JoinFields(fs[1..]);
    assert JoinFields(fs) == key + ":" + value + rest;
    Parts(key, value, rest, "}" + r);
    if |fs| > 1 {
      Shift(",", JoinFields(fs[1..]), "}" + r);
    } else {
      assert rest + ("}" + r) == "}" + r;
    }
  }

  lemma Parts(key: string, value: string, rest: string, r: string)
    ensures key + ":" + value + rest + r == key + (":" + (value + (rest + r)))
  {
  }

  lemma FieldsStart(fs: seq<Field>, r: string)
    requires AllPlain(fs)
    ensures (JoinFields(fs) + ("}" + r))[0] == '}' <==> fs == []
  {
    if fs != [] {
      JoinFieldsFirst(fs, r);
      hide Canon, JoinFields, Escaped, FieldsTail;
      assert (JoinFields(fs) + ("}" + r))[0] == Quote(fs[0].key)[0];
    }
  }

  /** A text that begins with the texts of two values, each followed by the end of a
      value, begins with two values of one meaning. */
  lemma {:induction false} CanonPrefix(x: Json, y: Json, r: string, q: string)
    requires Plain(x) && Plain(y) && Canon(x) + r == Canon(y) + q && Ends(r) && Ends(q)
    ensures Denote(x) == Denote(y) && r == q
    decreases Height(x), 0, 0
  {
    hide JoinItems, JoinFields, PlainItems, PlainFields, DenoteItems, DenoteFields, Members, Ends, Decimal, Quote;
    SameKind(x, y, r, q);
    match x
    case Null => DropSame("null", r, q);
    case Bool(b) => DropSame(if b then "true" else "false", r, q);
    case Number(m) => NumberPrefix(m, y.n, r, q);
    case Str(s) => QuotePrefix(s, y.s, r, q);
    case Arr(items) =>
      Bracket("[", JoinItems(items), "]", r);
      Bracket("[", JoinItems(y.items), "]", q);
      DropSame("[", JoinItems(items) + ("]" + r), JoinItems(y.items) + ("]" + q));
      ItemsPrefix(items, y.items, r, q);
    case Obj(fields) =>
      var (fs, gs) := (Members(fields), Members(y.fields));
      Bracket("{", JoinFields(fs), "}", r);
      Bracket("{", JoinFields(gs), "}", q);
      DropSame("{", JoinFields(fs) + ("}" + r), JoinFields(gs) + ("}" + q));
      MembersFacts(fields);
      MembersFacts(y.fields);
      FieldsPrefix(fs, gs, r, q);
  }

  lemma Bracket(open: string, a: string, close: string, r: string)
    ensures open + a + close + r == open + (a + (close + r))
  {
  }

  lemma {:induction false} ItemsPrefix(xs: seq<Json>, ys: seq<Json>, r: string, q: string)
    requires PlainItems(xs) && PlainItems(ys) && JoinItems(xs) + ("]" + r) == JoinItems(ys) + ("]" + q)
    ensures Denote(Arr(xs)) == Denote(Arr(ys)) && r == q
    decreases ItemsHeight(xs), |xs|, 1
  {
    hide Plain, Canon, Ends;
    ItemsStart(xs, r);
    ItemsStart(ys, q);
    if xs == [] || xs == [Undefined] {
      NothingText(xs, r);
      NothingText(ys, q);
      DropSame("]", r, q);
    } else {
      NonemptyItemsPrefix(xs, ys, r, q);
    }
  }

  lemma NothingText(xs: seq<Json>, r: string)
    requires xs == [] || xs == [Undefined]
    ensures JoinItems(xs) + ("]" + r) == "]" + r
  {
    assert JoinItems(xs) == "" && "" + ("]" + r) == "]" + r;
  }

  lemma {:induction false} NonemptyItemsPrefix(xs: seq<Json>, ys: seq<Json>, r: string, q: string)
    requires xs != [] && ys != [] && PlainItems(xs) && PlainItems(ys)
    requires JoinItems(xs) + ("]" + r) == JoinItems(ys) + ("]" + q)
    ensures DenoteItems(xs) == DenoteItems(ys) && r == q
    decreases ItemsHeight(xs), |xs|, 0
  {
    hide Plain, Canon, Denote, Ends;
    JoinItemsFirst(xs, r);
    JoinItemsFirst(ys, q);
    hide JoinItems, ItemText;
    ItemPrefix(xs[0], ys[0], ItemsTail(xs, r), ItemsTail(ys, q));
    TailStart(xs, ys, r, q);
    if |xs| == 1 {
      DropSame("]", r, q);
    } else {
      DropSame(",", JoinItems(xs[1..]) + ("]" + r), JoinItems(ys[1..]) + ("]" + q));
      NonemptyItemsPrefix(xs[1..], ys[1..], r, q);
    }
  }

  lemma {:induction false} ItemPrefix(x: Json, y: Json, r: string, q: string)
    requires (x.Undefined? || Plain(x)) && (y.Undefined? || Plain(y)) && ItemText(x) + r == ItemText(y) + q
    requires Ends(r) && Ends(q) && r != [] && q != []
    ensures Denote(x) == Denote(y) && r == q
    decreases Height(x), 0, 1
  {
    hide Plain, Canon, Denote, Ends;
    ItemStart(x, r);
    ItemStart(y, q);
    if !x.Undefined? {
      CanonPrefix(x, y, r, q);
    }
  }

  lemma TailStart(xs: seq<Json>, ys: seq<Json>, r: string, q: string)
    requires xs != [] && ys != [] && ItemsTail(xs, r) == ItemsTail(ys, q)
    ensures |xs| == 1 <==> |ys| == 1
  {
    hide JoinItems;
    assert ItemsTail(xs, r)[0] == ']' <==> |xs| == 1;
    assert ItemsTail(ys, q)[0] == ']' <==> |ys| == 1;
  }

  lemma EmptyText(r: string)
    ensures "" + r == r
  {
  }

  lemma {:induction false} FieldsPrefix(fs: seq<Field>, gs: seq<Field>, r: string, q: string)
    requires AllPlain(fs) && AllPlain(gs) && JoinFields(fs) + ("}" + r) == JoinFields(gs) + ("}" + q)
    ensures DenoteFields(fs) == DenoteFields(gs) && r == q
    decreases FieldsHeight(fs), |fs|
  {
    hide Plain, Canon, Denote, Ends, Quote, AllPlain, DenoteFields;
    FieldsStart(fs, r);
    FieldsStart(gs, q);
    if fs == [] && gs == [] {
      EmptyText("}" + r);
      EmptyText("}" + q);
      DropSame("}", r, q);
    } else if fs != [] && gs != [] {
      JoinFieldsFirst(fs, r);
      JoinFieldsFirst(gs, q);
      hide JoinFields;
      var (v, w) := (Canon(fs[0].value) + FieldsTail(fs, r), Canon(gs[0].value) + FieldsTail(gs, q));
      QuotePrefix(fs[0].key, gs[0].key, ":" + v, ":" + w);
      DropSame(":", v, w);
      CanonPrefix(fs[0].value, gs[0].value, FieldsTail(fs, r), FieldsTail(gs, q));
      FieldsTailStart(fs, gs, r, q);
      if |fs| == 1 {
        DropSame("}", r, q);
      } else {
        DropSame(",", JoinFields(fs[1..]) + ("}" + r), JoinFields(gs[1..]) + ("}" + q));
        FieldsPrefix(fs[1..], gs[1..], r, q);
      }
      FirstAndRest(fs, gs);
    }
  }

  lemma FieldsTailStart(fs: seq<Field>, gs: seq<Field>, r: string, q: string)
    requires fs != [] && gs != [] && FieldsTail(fs, r) == FieldsTail(gs, q)
    ensures |fs| == 1 <==> |gs| == 1
  {
    hide JoinFields;
    assert FieldsTail(fs, r)[0] == '}' <==> |fs| == 1;
    assert FieldsTail(gs, q)[0] == '}' <==> |gs| == 1;
  }

  lemma FirstAndRest(fs: seq<Field>, gs: seq<Field>)
    requires fs != [] && gs != [] && AllPlain(fs) && AllPlain(gs) && fs[0].key == gs[0].key
    requires Denote(fs[0].value) == Denote(gs[0].value)
    requires |fs| == |gs| == 1 || DenoteFields(fs[1..]) == DenoteFields(gs[1..])
    ensures DenoteFields(fs) == DenoteFields(gs)
  {
    hide *;
    Uncons(fs);
    Uncons(gs);
    Cons(fs[0], fs[1..]);
    Cons(gs[0], gs[1..]);
    PlainDefined(fs[0].value);
    PlainDefined(gs[0].value);
    DenoteCons(fs[0], fs[1..]);
    DenoteCons(gs[0], gs[1..]);
  }

  /** Two values have the same text exactly if they are equal up to the order of keys,
      up to undefined fields and up to [undefined] for []. */
  lemma CanonDetermines(x: Json, y: Json)
    requires Plain(x) && Plain(y)
    ensures Canon(x) == Canon(y) <==> Denote(x) == Denote(y)
  {
    if Denote(x) == Denote(y) {
      SameText(x, y);
    }
    if Canon(x) == Canon(y) {
      CanonPrefix(x, y, "", "");
    }
  }

  /** The one confusion: a list of one undefined item has the text of the empty list. */
  lemma UndefinedItemIsLost()
    ensures Canon(Arr([Undefined])) == Canon(Arr([])) == "[]"
  {
    assert JoinItems([Undefined]) == "" && JoinItems([]) == "";
  }

  // ----- The signed message -----

  /** `message`: the bytes that are signed. */
  function Message(domain: string, signer: int, payload: Json): seq<byte> {
    Utf8("cipher-protocol/" + domain + "\n" + Decimal(signer) + "\n" + Canon(payload))
  }

  /** The signed bytes determine the domain, the signer and the payload: no message of
      one kind can be taken for a message of another kind, sender or content. */
  lemma MessageDetermines(domain: string, signer: int, payload: Json, domain': string, signer': int, payload': Json)
    requires '\n' !in domain && '\n' !in domain' && Plain(payload) && Plain(payload')
    ensures Message(domain, signer, payload) == Message(domain', signer', payload')
            <==> domain == domain' && signer == signer' && Denote(payload) == Denote(payload')
  {
    hide Canon, Decimal, Denote, Plain, Utf8;
    CanonDetermines(payload, payload');
    if Message(domain, signer, payload) == Message(domain', signer', payload') {
      var (a, b) := (Decimal(signer), Decimal(signer'));
      var (c, d) := (Canon(payload), Canon(payload'));
      Utf8Injective("cipher-protocol/" + domain + "\n" + a + "\n" + c,
                    "cipher-protocol/" + domain' + "\n" + b + "\n" + d);
      Frame(domain, a, c);
      Frame(domain', b, d);
      DropSame("cipher-protocol/", domain + ['\n'] + (a + ['\n'] + c), domain' + ['\n'] + (b + ['\n'] + d));
      SplitFirst(domain, a + ['\n'] + c, domain', b + ['\n'] + d, '\n');
      DecimalIsNumeral(signer);
      DecimalIsNumeral(signer');
      SplitFirst(a, c, b, d, '\n');
      DecimalInjective(signer, signer');
    }
  }

  /** Domain, signer and payload, one under the other. */
  lemma MessageExample()
    ensures Message("result", 12, Null) == Utf8("cipher-protocol/result\n12\nnull")
  {
    hide Utf8;
    Twelve();
    hide Decimal, Digits;
    assert "cipher-protocol/" + "result" + "\n" + "12" + "\n" + Canon(Null) == "cipher-protocol/result\n12\nnull";
  }

  lemma Twelve()
    ensures Decimal(12) == "12"
  {
    assert Digits(12) == Digits(1) + ['2'] && Digits(1) == ['1'];
  }

  lemma Frame(domain: string, a: string, c: string)
    ensures "cipher-protocol/" + domain + "\n" + a + "\n" + c
            == "cipher-protocol/" + (domain + ['\n'] + (a + ['\n'] + c))
  {
  }
}
