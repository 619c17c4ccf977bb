/** The commitment that seals a batch, the write-once ledgers that hold it, and the
    check every validator makes before it releases shares. */
module Sealing {
  import opened Collections
  import opened Outcomes
  import opened Bytes
  import opened Hex
  import Utf16

  // ----- The commitment -----

  const DOMAIN: seq<byte> := Utf8("cipher-protocol/batch-commitment/v1")

  /** SHA-256, as far as it is used: different preimages have different digests. */
  datatype Digest = Sha256(preimage: seq<byte>)

  /** One text with its length before it. */
  function Item(text: string): Outcome<seq<byte>> {
    var length :- U32be(|Utf8(text)|);
    Returns(length + Utf8(text))
  }

  function Items(texts: seq<string>): Outcome<seq<byte>> {
    if texts == [] then Returns([])
    else
      var front :- Items(texts[..|texts| - 1]);
      var last :- Item(texts[|texts| - 1]);
      Returns(front + last)
  }

  function Preimage(texts: seq<string>): Outcome<seq<byte>> {
    var count :- U32be(|texts|);
    var items :- Items(texts);
    Returns(DOMAIN + count + items)
  }

  function Commitment(texts: seq<string>): Outcome<Digest> {
    var p :- Preimage(texts);
    Returns(Sha256(p))
  }

  /** `batchCommitment`: feeds the hash piece by piece. */
  method BatchCommitment(texts: seq<string>) returns (r: Outcome<Digest>)
    ensures r == Commitment(texts)
  {
    hide Utf8, U32be, Items, Item;
    var fed := DOMAIN;
    var count :- U32be(|texts|);
    fed := fed + count;
    assert texts[..0] == [] && fed + [] == fed;
    NoItems();
    for k := 0 to |texts|
      invariant Items(texts[..k]).Returns? && fed == DOMAIN + count + Items(texts[..k]).value
    {
      var bytes := Utf8(texts[k]);
      var length := U32be(|bytes|);
      ItemsThen(texts, k);
      ItemParts(texts[k]);
      if length.Throws? {
        ItemsThrow(texts, k + 1);
        return Throws;
      }
      Regroup(DOMAIN + count, Items(texts[..k]).value, length.value, bytes);
      fed := fed + length.value + bytes;
    }
    assert texts[..|texts|] == texts;
    return Returns(Sha256(fed));
  }

  lemma Regroup(a: seq<byte>, b: seq<byte>, c: seq<byte>, d: seq<byte>)
    ensures a + b + c + d == a + (b + (c + d))
  {
  }

  lemma NoItems()
    ensures Items([]) == Returns([])
  {
  }

  lemma ItemParts(text: string)
    ensures var length := U32be(|Utf8(text)|);
            Item(text) == if length.Throws? then Throws else Returns(length.value + Utf8(text))
  {
  }

  lemma ItemsThen(texts: seq<string>, k: nat)
    requires k < |texts| && Items(texts[..k]).Returns?
    ensures Items(texts[..k + 1]) == if Item(texts[k]).Throws? then Throws
                                     else Returns(Items(texts[..k]).value + Item(texts[k]).value)
  {
    hide Item;
    assert texts[..k + 1][..k] == texts[..k];
  }

  lemma {:induction false} ItemsThrow(texts: seq<string>, n: nat)
    requires n <= |texts| && Items(texts[..n]).Throws?
    ensures Items(texts).Throws?
  {
    if n == |texts| {
      assert texts[..n] == texts;
    } else {
      assert texts[..|texts| - 1][..n] == texts[..n];
      ItemsThrow(texts[..|texts| - 1], n);
    }
  }

  /** No item begins another: the length says where the text ends. */
  lemma ItemPrefix(s: string, t: string, x: seq<byte>, y: seq<byte>)
    requires Item(s).Returns? && Item(t).Returns? && Item(s).value + x == Item(t).value + y
    ensures s == t && x == y
  {
    var (a, b) := (Item(s).value, Item(t).value);
    var (m, n) := (|Utf8(s)|, |Utf8(t)|);
    assert U32be(m).value == (a + x)[..4] && U32be(n).value == (b + y)[..4];
    U32beInjective(m, n);
    assert Utf8(s) == (a + x)[4..4 + m] && Utf8(t) == (b + y)[4..4 + n];
    assert x == (a + x)[4 + m..] && y == (b + y)[4 + n..];
    Utf8Injective(s, t);
  }

  lemma ItemsSnoc(texts: seq<string>, n: nat)
    requires |texts| == n + 1
    ensures Items(texts).Returns? <==> Items(texts[..n]).Returns? && Item(texts[n]).Returns?
    ensures Items(texts).Returns? ==> Items(texts).value == Items(texts[..n]).value + Item(texts[n]).value
  {
    hide Item;
  }

  lemma {:induction false} ItemsFront(texts: seq<string>)
    requires texts != [] && Items(texts).Returns?
    ensures Item(texts[0]).Returns? && Items(texts[1..]).Returns?
    ensures Items(texts).value == Item(texts[0]).value + Items(texts[1..]).value
  {
    hide *;
    var n := |texts| - 1;
    ItemsSnoc(texts, n);
    NoItems();
    if n == 0 {
      assert texts[..0] == [] && texts[1..] == [];
      Empty(Item(texts[0]).value);
    } else {
      var tail := texts[1..];
      assert texts[..n][1..] == tail[..n - 1] && tail[n - 1] == texts[n] && texts[..n][0] == texts[0];
      ItemsFront(texts[..n]);
      ItemsSnoc(tail, n - 1);
      Associate(Item(texts[0]).value, Items(tail[..n - 1]).value, Item(texts[n]).value);
    }
  }

  lemma Empty(a: seq<byte>)
    ensures [] + a == a == a + []
  {
  }

  lemma Associate(a: seq<byte>, b: seq<byte>, c: seq<byte>)
    ensures a + b + c == a + (b + c)
  {
  }

  /** Equally many items in a row determine every one of them, and what follows. */
  lemma {:induction false} ItemsPrefix(s: seq<string>, t: seq<string>, x: seq<byte>, y: seq<byte>)
    requires |s| == |t| && Items(s).Returns? && Items(t).Returns? && Items(s).value + x == Items(t).value + y
    ensures s == t && x == y
  {
    hide *;
    if s == [] {
      NoItems();
      assert [] + x == x && [] + y == y && t == [];
    } else {
      ItemsFront(s);
      ItemsFront(t);
      var (a, b) := (Items(s[1..]).value, Items(t[1..]).value);
      Associate(Item(s[0]).value, a, x);
      Associate(Item(t[0]).value, b, y);
      ItemPrefix(s[0], t[0], a + x, b + y);
      ItemsPrefix(s[1..], t[1..], x, y);
      assert s == [s[0]] + s[1..] && t == [t[0]] + t[1..];
    }
  }

  lemma SameHeader(d: seq<byte>, a: seq<byte>, b: seq<byte>, p: seq<byte>, q: seq<byte>, x: seq<byte>, y: seq<byte>)
    requires |a| == |b| == 4 && d + a + p + x == d + b + q + y
    ensures a == b && p + x == q + y
  {
    var (s, t) := (d + a + p + x, d + b + q + y);
    assert a == s[|d|..|d| + 4] && b == t[|d|..|d| + 4];
    assert p + x == s[|d| + 4..] && q + y == t[|d| + 4..];
  }

  /** The preimage is a prefix code: two of them that start one text are of the same list. */
  lemma PreimagePrefix(s: seq<string>, t: seq<string>, x: seq<byte>, y: seq<byte>)
    requires Preimage(s).Returns? && Preimage(t).Returns? && Preimage(s).value + x == Preimage(t).value + y
    ensures s == t && x == y
  {
    hide Items, Utf8, U32be;
    var (a, b) := (U32be(|s|).value, U32be(|t|).value);
    U32beDenotes(|s|);
    U32beDenotes(|t|);
    SameHeader(DOMAIN, a, b, Items(s).value, Items(t).value, x, y);
    U32beInjective(|s|, |t|);
    ItemsPrefix(s, t, x, y);
  }

  /** A length of four bytes and the bytes of the text. */
  ghost predicate ItemAt(b: seq<byte>, text: string, from: nat, to: nat) {
    && from + 4 + |Utf8(text)| == to <= |b|
    && Number(b[from..from + 4]) == |Utf8(text)| && b[from + 4..to] == Utf8(text)
  }

  /** The items lie side by side, beginning at these positions. */
  ghost predicate LaidOutAt(b: seq<byte>, texts: seq<string>, at: seq<nat>) {
    && |at| == |texts| + 1 && at[0] == 0 && at[|texts|] == |b|
    && forall k :: 0 <= k < |texts| ==> ItemAt(b, texts[k], at[k], at[k + 1])
  }

  ghost predicate LaidOut(b: seq<byte>, texts: seq<string>) {
    exists at: seq<nat> :: LaidOutAt(b, texts, at)
  }

  lemma {:induction false} ItemsExactly(texts: seq<string>)
    ensures Items(texts).Returns? <==> forall k :: 0 <= k < |texts| ==> |Utf8(texts[k])| < 0x1_0000_0000
    ensures Items(texts).Returns? ==> LaidOut(Items(texts).value, texts)
  {
    hide Utf8, U32be, ItemAt;
    if texts == [] {
      assert LaidOutAt([], texts, [0]);
    } else {
      var n := |texts| - 1;
      ItemsExactly(texts[..n]);
      U32beDenotes(|Utf8(texts[n])|);
      assert forall k :: 0 <= k < n ==> texts[..n][k] == texts[k];
      if Items(texts).Returns? {
        NextLaidOut(Items(texts[..n]).value, texts, U32be(|Utf8(texts[n])|).value);
      }
    }
  }

  lemma NextLaidOut(b: seq<byte>, texts: seq<string>, length: seq<byte>)
    requires texts != [] && LaidOut(b, texts[..|texts| - 1])
    requires |length| == 4 && Number(length) == |Utf8(texts[|texts| - 1])|
    ensures LaidOut(b + (length + Utf8(texts[|texts| - 1])), texts)
  {
    hide Utf8, Number, ItemAt;
    var n := |texts| - 1;
    var b' := b + (length + Utf8(texts[n]));
    var at: seq<nat> :| LaidOutAt(b, texts[..n], at);
    var at': seq<nat> := at + [|b'|];
    forall k | 0 <= k < |texts| ensures ItemAt(b', texts[k], at'[k], at'[k + 1]) {
      if k < n {
        assert ItemAt(b, texts[..n][k], at[k], at[k + 1]);
        ItemStays(b, length + Utf8(texts[n]), texts[k], at[k], at[k + 1]);
      } else {
        LastItem(b, length, texts[n]);
      }
    }
    assert LaidOutAt(b', texts, at');
  }

  lemma ItemStays(b: seq<byte>, more: seq<byte>, text: string, from: nat, to: nat)
    requires ItemAt(b, text, from, to)
    ensures ItemAt(b + more, text, from, to)
  {
    hide Utf8, Number;
    assert (b + more)[from..from + 4] == b[from..from + 4] && (b + more)[from + 4..to] == b[from + 4..to];
  }

  lemma LastItem(b: seq<byte>, length: seq<byte>, text: string)
    requires |length| == 4 && Number(length) == |Utf8(text)|
    ensures ItemAt(b + (length + Utf8(text)), text, |b|, |b + (length + Utf8(text))|)
  {
    hide Utf8, Number;
    var b' := b + (length + Utf8(text));
    assert b'[|b|..|b| + 4] == length && b'[|b| + 4..|b'|] == Utf8(text);
  }

  /** The domain, the number of texts in four bytes, and the items; refused exactly if a
      number does not fit four bytes. */
  lemma PreimageLayout(texts: seq<string>)
    ensures Preimage(texts).Returns?
            <==> |texts| < 0x1_0000_0000 && forall k :: 0 <= k < |texts| ==> |Utf8(texts[k])| < 0x1_0000_0000
    ensures Preimage(texts).Returns? ==>
              var (p, d) := (Preimage(texts).value, |DOMAIN|);
              && |p| >= d + 4 && p[..d] == DOMAIN && Number(p[d..d + 4]) == |texts| && LaidOut(p[d + 4..], texts)
  {
    hide Utf8, U32be, Items, LaidOut;
    ItemsExactly(texts);
    U32beDenotes(|texts|);
    if Preimage(texts).Returns? {
      Parts(DOMAIN, U32be(|texts|).value, Items(texts).value);
    }
  }

  lemma Parts(d: seq<byte>, count: seq<byte>, items: seq<byte>)
    ensures (d + count + items)[..|d|] == d && (d + count + items)[|d|..|d| + |count|] == count
    ensures (d + count + items)[|d| + |count|..] == items
  {
  }

  /** Two lists of texts have the same commitment exactly when they are the same list. */
  lemma CommitmentDeterminesList(s: seq<string>, t: seq<string>)
    requires Commitment(s).Returns? && Commitment(t).Returns?
    ensures Commitment(s) == Commitment(t) <==> s == t
  {
    if Commitment(s) == Commitment(t) {
      assert Preimage(s).value + [] == Preimage(s).value && Preimage(t).value + [] == Preimage(t).value;
      PreimagePrefix(s, t, [], []);
    }
  }

  /** The texts as JavaScript has them, with the characters that are encoded. */
  function Decoded(texts: seq<seq<Utf16.unit>>): (r: seq<string>)
    ensures |r| == |texts|
  {
    seq(|texts|, k requires 0 <= k < |texts| => Utf16.Decode(texts[k]))
  }

  /** The same lists, once every lone surrogate is replaced by the replacement character. */
  ghost predicate SameOnceRepaired(s: seq<seq<Utf16.unit>>, t: seq<seq<Utf16.unit>>) {
    |s| == |t| && forall k :: 0 <= k < |s| ==> Utf16.Repaired(s[k]) == Utf16.Repaired(t[k])
  }

  lemma DecodedExactly(s: seq<seq<Utf16.unit>>, t: seq<seq<Utf16.unit>>)
    ensures Decoded(s) == Decoded(t) <==> SameOnceRepaired(s, t)
  {
    hide Utf16.Decode, Utf16.Repaired;
    forall k | 0 <= k < |s| && k < |t|
      ensures Decoded(s)[k] == Decoded(t)[k] <==> Utf16.Repaired(s[k]) == Utf16.Repaired(t[k])
    {
      Utf16.DecodeExactly(s[k], t[k]);
    }
    if SameOnceRepaired(s, t) {
      assert forall k :: 0 <= k < |s| ==> Decoded(s)[k] == Decoded(t)[k];
    }
  }

  /** Over all texts the commitments are the same exactly when the lists are, once they
      are repaired. */
  lemma CommitmentDeterminesTexts(s: seq<seq<Utf16.unit>>, t: seq<seq<Utf16.unit>>)
    requires Commitment(Decoded(s)).Returns? && Commitment(Decoded(t)).Returns?
    ensures Commitment(Decoded(s)) == Commitment(Decoded(t)) <==> SameOnceRepaired(s, t)
  {
    hide *;
    CommitmentDeterminesList(Decoded(s), Decoded(t));
    DecodedExactly(s, t);
  }

  // ----- Batch ids -----

  function Stripped(s: string): string {
    if s == [] then []
    else (if s[0] == '-' then [] else [s[0]]) + Stripped(s[1..])
  }

  /** `batchIdBytes`: the sixteen bytes of a UUID. */
  function BatchIdBytes(id: string): Outcome<seq<byte>> {
    var hex := Stripped(id);
    if |hex| != 32 then Throws else HexToBytes(hex)
  }

  ghost function NoHyphens(s: string): set<nat> {
    set i: nat | i < |s| && s[i] != '-'
  }

  lemma {:induction false} StrippedExactly(s: string)
    ensures Picked(s, Stripped(s), NoHyphens(s))
  {
    if s == [] {
      PickedNone<char>(NoHyphens(s));
    } else {
      StrippedExactly(s[1..]);
      PickedNext(s, Stripped(s[1..]), NoHyphens(s[1..]), NoHyphens(s));
    }
  }

  /** Sixteen bytes, of which the id has the digits, apart from hyphens. */
  ghost predicate NamedBy(id: string, b: seq<byte>) {
    |b| == 16 && exists digits: string :: Picked(id, digits, NoHyphens(id)) && DigitsOf(digits, b)
  }

  /** An id names just the bytes that are computed from it, or none if that throws. */
  lemma BatchIdExactly(id: string, b: seq<byte>)
    ensures BatchIdBytes(id) == Returns(b) <==> NamedBy(id, b)
  {
    StrippedExactly(id);
    hide Picked, HexToBytes, NoHyphens, DigitsOf;
    HexExactly(Stripped(id), b);
    forall digits: string | Picked(id, digits, NoHyphens(id)) ensures digits == Stripped(id) {
      PickedUnique(id, digits, Stripped(id), NoHyphens(id));
    }
    if DigitsOf(Stripped(id), b) {
      DigitsLength(Stripped(id), b);
    }
  }

  /** Two ids name the same batch exactly if they differ only in hyphens and case. */
  lemma SameBatch(id: string, id': string)
    requires BatchIdBytes(id).Returns? && BatchIdBytes(id').Returns?
    ensures BatchIdBytes(id) == BatchIdBytes(id') <==> Lower(Stripped(id)) == Lower(Stripped(id'))
    ensures |BatchIdBytes(id).value| == 16
  {
    SameBytes(Stripped(id), Stripped(id'));
  }

  // ----- Ledgers -----

  datatype BatchRecord = BatchRecord(orderCount: nat, contentHash: Digest, timestamp: nat)

  type Address = nat

  datatype VaultError = AlreadyInitialized | NotInitialized | Unauthorized | BatchAlreadyExists

  datatype Vault = Vault(admin: Option<Address>, batches: map<seq<byte>, BatchRecord>) {

    function Initialize(admin: Address): (Vault, Option<VaultError>) {
      if this.admin.Some? then (this, Some(AlreadyInitialized)) else (this.(admin := Some(admin)), None)
    }

    /** `create_batch` by a caller: the admin only, and once for each id. */
    function CreateBatch(caller: Address, id: seq<byte>, count: nat, hash: Digest, now: nat)
      : (Vault, Option<VaultError>)
    {
      if admin.None? then (this, Some(NotInitialized))
      else if admin.value != caller then (this, Some(Unauthorized))
      else if id in batches then (this, Some(BatchAlreadyExists))
      else (this.(batches := batches[id := BatchRecord(count, hash, now)]), None)
    }

    function GetBatch(id: seq<byte>): Option<BatchRecord> {
      if id in batches then Some(batches[id]) else None
    }
  }

  /** The vault contract, with its storage. */
  class OrderVault {
    var admin: Option<Address>
    var batches: map<seq<byte>, BatchRecord>

    function View(): Vault
      reads this
    {
      Vault(admin, batches)
    }

    constructor ()
      ensures View() == Vault(None, map[])
    {
      admin, batches := None, map[];
    }

    method Initialize(admin: Address) returns (error: Option<VaultError>)
      modifies this
      ensures (View(), error) == old(View()).Initialize(admin)
      ensures if old(this.admin).Some? then error == Some(AlreadyInitialized) && this.admin == old(this.admin)
              else error == None && this.admin == Some(admin)
      ensures batches == old(batches)
    {
      if this.admin.Some? {
        return Some(AlreadyInitialized);
      }
      this.admin := Some(admin);
      return None;
    }

    method CreateBatch(caller: Address, id: seq<byte>, count: nat, hash: Digest, now: nat)
      returns (error: Option<VaultError>)
      modifies this
      ensures (View(), error) == old(View()).CreateBatch(caller, id, count, hash, now)
      ensures admin == old(admin) && (error == Some(NotInitialized) <==> admin.None?)
      ensures error == Some(Unauthorized) <==> admin.Some? && admin.value != caller
      ensures error == Some(BatchAlreadyExists) <==> admin == Some(caller) && id in old(batches)
      ensures batches == if error.Some? then old(batches) else old(batches)[id := BatchRecord(count, hash, now)]
    {
      if admin.None? {
        return Some(NotInitialized);
      }
      if admin.value != caller {
        return Some(Unauthorized);
      }
      if id in batches {
        return Some(BatchAlreadyExists);
      }
      batches := batches[id := BatchRecord(count, hash, now)];
      return None;
    }
  }

  /** The stand-in for the chain: keyed by the id text as it is. */
  class InMemoryCommitmentLedger {
    var batches: map<string, BatchRecord>

    constructor ()
      ensures batches == map[]
    {
      batches := map[];
    }

    method GetBatch(id: string) returns (r: Option<BatchRecord>)
      ensures r == if id in batches then Some(batches[id]) else None
    {
      return if id in batches then Some(batches[id]) else None;
    }

    method Record(id: string, count: nat, hash: Digest, now: nat) returns (r: Outcome<()>)
      modifies this
      ensures id in old(batches) ==> r == Throws && batches == old(batches)
      ensures id !in old(batches) ==> r == Returns(()) && batches == old(batches)[id := BatchRecord(count, hash, now)]
    {
      if id in batches {
        return Throws;
      }
      batches := batches[id := BatchRecord(count, hash, now)];
      return Returns(());
    }
  }

  // ----- The release check -----

  /** `assertBatchSealed`, on what the ledger answered. */
  function AssertSealed(record: Option<BatchRecord>, texts: seq<string>): Outcome<BatchRecord> {
    if record.None? || record.value.orderCount != |texts| then Throws
    else
      var hash :- Commitment(texts);
      if record.value.contentHash != hash then Throws else Returns(record.value)
  }

  /** The check passes for a record exactly if it has the number and the commitment of the texts. */
  lemma SealedExactly(record: Option<BatchRecord>, texts: seq<string>)
    ensures AssertSealed(record, texts).Returns?
            <==> record.Some? && record.value.orderCount == |texts|
                 && Commitment(texts) == Returns(record.value.contentHash)
  {
    hide Preimage;
  }

  /** So a record passes the check for at most one list. */
  lemma SealedListUnique(record: BatchRecord, s: seq<string>, t: seq<string>)
    requires AssertSealed(Some(record), s).Returns? && AssertSealed(Some(record), t).Returns?
    ensures s == t
  {
    CommitmentDeterminesList(s, t);
  }
}
