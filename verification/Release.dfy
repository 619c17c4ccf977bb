/** When validators release decryption shares: over every run of sealing and
    requests, only for the one sealed list of a batch, and only after it was sealed. */
module Release {
  import opened Residues
  import opened Outcomes
  import opened Bytes
  import opened Group
  import opened Threshold
  import opened WireFormat
  import opened Sealing

  /** Which ledger a validator was configured to read, if any. */
  datatype LedgerChoice = Unconfigured | Chain | InMemory

  /** A validator, as far as releasing shares is concerned. */
  datatype Holder = Holder(keyShare: Option<KeyShare>, ledger: LedgerChoice)

  /** The slot of a ledger that an id names. */
  datatype Slot = VaultSlot(id: seq<byte>) | MemorySlot(text: string)

  datatype Ledgers = Ledgers(vault: Vault, memory: map<string, BatchRecord>) {

    function At(slot: Slot): Option<BatchRecord> {
      match slot
      case VaultSlot(id) => vault.GetBatch(id)
      case MemorySlot(text) => if text in memory then Some(memory[text]) else None
    }
  }

  function SlotOf(choice: LedgerChoice, id: string): Outcome<Slot> {
    match choice
    case Unconfigured => Throws
    case Chain => (var bytes :- BatchIdBytes(id); Returns(VaultSlot(bytes)))
    case InMemory => Returns(MemorySlot(id))
  }

  predicate GoodNonces(nonces: seq<int>) {
    forall k :: 0 <= k < |nonces| ==> 0 < nonces[k] < L
  }

  /** One share for every ciphertext, or none at all if one of them does not parse. */
  function SharesFor(c: Suite, h: PointHash, share: KeyShare, texts: seq<string>, nonces: seq<int>)
    : Outcome<seq<DecryptionShare>>
    requires |nonces| == |texts| && GoodNonces(nonces)
  {
    if texts == [] then Returns([])
    else
      var n := |texts| - 1;
      var front :- SharesFor(c, h, share, texts[..n], nonces[..n]);
      var p :- ParseCiphertext(c, texts[n]);
      var last :- PartialDecrypt(h, share, c.decode(p.r), nonces[n]);
      Returns(front + [last])
  }

  /** `requestDecryptionShares`: with a key, with a ledger, and for a sealed list only. */
  function RequestShares(c: Suite, h: PointHash, v: Holder, l: Ledgers, id: string, texts: seq<string>,
                         nonces: seq<int>)
    : Outcome<seq<DecryptionShare>>
    requires |nonces| == |texts| && GoodNonces(nonces)
  {
    if v.keyShare.None? then Throws
    else
      var slot :- SlotOf(v.ledger, id);
      var _ :- AssertSealed(l.At(slot), texts);
      SharesFor(c, h, v.keyShare.value, texts, nonces)
  }

  // ----- One request -----

  lemma {:induction false} ShareAt(c: Suite, h: PointHash, share: KeyShare, texts: seq<string>, nonces: seq<int>,
                                   k: nat)
    requires |nonces| == |texts| && GoodNonces(nonces) && k < |texts|
    requires SharesFor(c, h, share, texts, nonces).Returns?
    ensures |SharesFor(c, h, share, texts, nonces).value| == |texts|
    ensures ParseCiphertext(c, texts[k]).Returns?
    ensures PartialDecrypt(h, share, c.decode(ParseCiphertext(c, texts[k]).value.r), nonces[k])
            == Returns(SharesFor(c, h, share, texts, nonces).value[k])
  {
    hide ParseCiphertext, PartialDecrypt;
    ShareCount(c, h, share, texts, nonces);
    var n := |texts| - 1;
    ShareCount(c, h, share, texts[..n], nonces[..n]);
    if k < n {
      ShareAt(c, h, share, texts[..n], nonces[..n], k);
    }
  }

  lemma {:induction false} ShareCount(c: Suite, h: PointHash, share: KeyShare, texts: seq<string>, nonces: seq<int>)
    requires |nonces| == |texts| && GoodNonces(nonces)
    requires SharesFor(c, h, share, texts, nonces).Returns?
    ensures |SharesFor(c, h, share, texts, nonces).value| == |texts|
  {
    hide ParseCiphertext, PartialDecrypt;
    if texts != [] {
      ShareCount(c, h, share, texts[..|texts| - 1], nonces[..|texts| - 1]);
    }
  }

  /** An honest validator with a key answers exactly if every ciphertext of the list
      parses: one that does not makes it refuse the whole batch. */
  lemma {:induction false} AllOrNothing(c: Suite, h: PointHash, share: KeyShare, texts: seq<string>, nonces: seq<int>)
    requires |nonces| == |texts| && GoodNonces(nonces) && HexToScalar(share.secret).Returns?
    ensures SharesFor(c, h, share, texts, nonces).Returns? <==> AllParse(c, texts)
  {
    if texts != [] {
      var n := |texts| - 1;
      AllOrNothing(c, h, share, texts[..n], nonces[..n]);
      if ParseCiphertext(c, texts[n]).Returns? {
        ParsedR(c, texts[n]);
        AlwaysAnswers(h, share, c.decode(ParseCiphertext(c, texts[n]).value.r), nonces[n]);
      }
      hide ParseCiphertext, PartialDecrypt;
      AllParseLast(c, texts);
    }
  }

  ghost predicate AllParse(c: Suite, texts: seq<string>) {
    forall k :: 0 <= k < |texts| ==> ParseCiphertext(c, texts[k]).Returns?
  }

  lemma AllParseLast(c: Suite, texts: seq<string>)
    requires texts != []
    ensures AllParse(c, texts) <==> AllParse(c, texts[..|texts| - 1]) && ParseCiphertext(c, texts[|texts| - 1]).Returns?
  {
    hide ParseCiphertext;
    if AllParse(c, texts[..|texts| - 1]) && ParseCiphertext(c, texts[|texts| - 1]).Returns? {
      forall k | 0 <= k < |texts| ensures ParseCiphertext(c, texts[k]).Returns? {
        if k < |texts| - 1 {
          assert texts[k] == texts[..|texts| - 1][k];
        }
      }
    }
  }

  lemma ParsedR(c: Suite, text: string)
    requires ParseCiphertext(c, text).Returns?
    ensures ParsePoint(c.decode(ParseCiphertext(c, text).value.r)).Returns?
  {
  }

  lemma AlwaysAnswers(h: PointHash, share: KeyShare, r: PointText, k: int)
    requires 0 < k < L && HexToScalar(share.secret).Returns? && ParsePoint(r).Returns?
    ensures PartialDecrypt(h, share, r, k).Returns?
  {
  }

  /** The record that the validator's ledger holds for the batch. */
  ghost predicate Recorded(choice: LedgerChoice, l: Ledgers, id: string, record: BatchRecord) {
    match choice
    case Unconfigured => false
    case Chain => exists b :: b in l.vault.batches && NamedBy(id, b) && l.vault.batches[b] == record
    case InMemory => id in l.memory && l.memory[id] == record
  }

  /** The share for a ciphertext: y·R under the validator's index. */
  ghost predicate ShareFor(c: Suite, share: KeyShare, text: string, s: DecryptionShare) {
    && share.secret.Hex? && s.index == share.index && ParseCiphertext(c, text).Returns?
    && var r := c.decode(ParseCiphertext(c, text).value.r);
       r.Encoded? && s.share == Encoded(Scale(r.point, share.secret.number))
  }

  lemma SharesExactly(c: Suite, h: PointHash, share: KeyShare, texts: seq<string>, nonces: seq<int>)
    requires |nonces| == |texts| && GoodNonces(nonces)
    ensures SharesFor(c, h, share, texts, nonces).Returns?
            <==> AllParse(c, texts) && (texts != [] ==> HexToScalar(share.secret).Returns?)
    ensures SharesFor(c, h, share, texts, nonces).Returns? ==>
              var shares := SharesFor(c, h, share, texts, nonces).value;
              && |shares| == |texts| && forall k :: 0 <= k < |texts| ==> ShareFor(c, share, texts[k], shares[k])
  {
    hide SharesFor, ParseCiphertext, PartialDecrypt, ShareFor;
    if HexToScalar(share.secret).Returns? {
      AllOrNothing(c, h, share, texts, nonces);
    } else {
      NothingWithoutKey(c, h, share, texts, nonces);
    }
    if SharesFor(c, h, share, texts, nonces).Returns? {
      ShareCount(c, h, share, texts, nonces);
      forall k | 0 <= k < |texts|
        ensures ShareFor(c, share, texts[k], SharesFor(c, h, share, texts, nonces).value[k])
      {
        ShareAt(c, h, share, texts, nonces, k);
        PartialIs(c, h, share, texts[k], nonces[k]);
      }
    }
  }

  lemma NothingWithoutKey(c: Suite, h: PointHash, share: KeyShare, texts: seq<string>, nonces: seq<int>)
    requires |nonces| == |texts| && GoodNonces(nonces) && HexToScalar(share.secret).Throws?
    ensures SharesFor(c, h, share, texts, nonces).Returns? <==> texts == []
  {
    hide ParseCiphertext;
  }

  lemma PartialIs(c: Suite, h: PointHash, share: KeyShare, text: string, nonce: int)
    requires 0 < nonce < L && ParseCiphertext(c, text).Returns?
    requires PartialDecrypt(h, share, c.decode(ParseCiphertext(c, text).value.r), nonce).Returns?
    ensures ShareFor(c, share, text, PartialDecrypt(h, share, c.decode(ParseCiphertext(c, text).value.r), nonce).value)
  {
    hide ParseCiphertext, Scale, Challenge;
  }

  lemma RecordedExactly(choice: LedgerChoice, l: Ledgers, id: string, record: BatchRecord)
    ensures Recorded(choice, l, id, record)
            <==> SlotOf(choice, id).Returns? && l.At(SlotOf(choice, id).value) == Some(record)
  {
    hide BatchIdBytes, NamedBy;
    forall b ensures BatchIdBytes(id) == Returns(b) <==> NamedBy(id, b) {
      BatchIdExactly(id, b);
    }
  }

  /** The record that the ledger holds has the number and the commitment of the texts. */
  ghost predicate RecordedAs(choice: LedgerChoice, l: Ledgers, id: string, texts: seq<string>) {
    exists record :: && Recorded(choice, l, id, record) && record.orderCount == |texts|
                     && Commitment(texts) == Returns(record.contentHash)
  }

  /** A validator answers if and only if it has a key, every ciphertext parses, and its
      ledger's record of the batch has the number and the commitment of the ciphertexts;
      it then returns its share for every one of them. */
  lemma ReleasedExactly(c: Suite, h: PointHash, v: Holder, l: Ledgers, id: string, texts: seq<string>,
                        nonces: seq<int>)
    requires |nonces| == |texts| && GoodNonces(nonces)
    ensures RequestShares(c, h, v, l, id, texts, nonces).Returns?
            <==> && v.keyShare.Some? && (texts != [] ==> HexToScalar(v.keyShare.value.secret).Returns?)
                 && AllParse(c, texts) && RecordedAs(v.ledger, l, id, texts)
    ensures RequestShares(c, h, v, l, id, texts, nonces).Returns? ==>
              var shares := RequestShares(c, h, v, l, id, texts, nonces).value;
              && |shares| == |texts|
              && forall k :: 0 <= k < |texts| ==> ShareFor(c, v.keyShare.value, texts[k], shares[k])
  {
    hide SharesFor, AllParse, ShareFor, HexToScalar, AssertSealed, SlotOf, Recorded, Commitment, Ledgers.At;
    CheckedExactly(v.ledger, l, id, texts);
    if v.keyShare.Some? {
      SharesExactly(c, h, v.keyShare.value, texts, nonces);
    }
  }

  lemma CheckedExactly(choice: LedgerChoice, l: Ledgers, id: string, texts: seq<string>)
    ensures RecordedAs(choice, l, id, texts)
            <==> SlotOf(choice, id).Returns? && AssertSealed(l.At(SlotOf(choice, id).value), texts).Returns?
  {
    hide Recorded, Commitment, AssertSealed, SlotOf, Ledgers.At;
    forall record ensures Recorded(choice, l, id, record)
                          <==> SlotOf(choice, id).Returns? && l.At(SlotOf(choice, id).value) == Some(record)
    {
      RecordedExactly(choice, l, id, record);
    }
    if SlotOf(choice, id).Returns? {
      SealedExactly(l.At(SlotOf(choice, id).value), texts);
    }
  }

  // ----- Runs -----

  /** A list of ciphertexts for which a validator handed out shares. */
  datatype Released = Released(slot: Slot, texts: seq<string>)

  datatype World = World(ledgers: Ledgers, released: set<Released>)

  datatype Event =
    | Initialize(admin: Address)
    | Create(caller: Address, id: seq<byte>, count: nat, hash: Digest, now: nat)
    | Record(text: string, count: nat, hash: Digest, now: nat)
    | Request(holder: Holder, batch: string, texts: seq<string>, nonces: seq<int>)

  predicate Enabled(e: Event) {
    e.Request? ==> |e.nonces| == |e.texts| && GoodNonces(e.nonces)
  }

  function Step(c: Suite, h: PointHash, w: World, e: Event): World
    requires Enabled(e)
  {
    var l := w.ledgers;
    match e
    case Initialize(admin) => w.(ledgers := l.(vault := l.vault.Initialize(admin).0))
    case Create(caller, id, count, hash, now) =>
      w.(ledgers := l.(vault := l.vault.CreateBatch(caller, id, count, hash, now).0))
    case Record(text, count, hash, now) =>
      if text in l.memory then w else w.(ledgers := l.(memory := l.memory[text := BatchRecord(count, hash, now)]))
    case Request(holder, id, texts, nonces) =>
      if RequestShares(c, h, holder, l, id, texts, nonces).Returns?
      then w.(released := w.released + {Released(SlotOf(holder.ledger, id).value, texts)})
      else w
  }

  ghost predicate IsRun(c: Suite, h: PointHash, ws: seq<World>, es: seq<Event>) {
    && |ws| == |es| + 1 && ws[0] == World(Ledgers(Vault(None, map[]), map[]), {})
    && forall k :: 0 <= k < |es| ==> Enabled(es[k]) && ws[k + 1] == Step(c, h, ws[k], es[k])
  }

  /** Every list for which shares were handed out passes the check of its slot's record. */
  ghost predicate Inv(w: World) {
    forall r :: r in w.released ==> AssertSealed(w.ledgers.At(r.slot), r.texts).Returns?
  }

  /** Records and releases are never taken back or changed. */
  ghost predicate Grows(w: World, w': World) {
    && w.released <= w'.released
    && forall slot :: w.ledgers.At(slot).Some? ==> w'.ledgers.At(slot) == w.ledgers.At(slot)
  }

  lemma StepGrows(c: Suite, h: PointHash, w: World, e: Event)
    requires Enabled(e)
    ensures Grows(w, Step(c, h, w, e))
  {
    hide RequestShares;
  }

  lemma StepKeeps(c: Suite, h: PointHash, w: World, e: Event)
    requires Enabled(e) && Inv(w)
    ensures Inv(Step(c, h, w, e))
  {
    StepGrows(c, h, w, e);
    hide SharesFor, Commitment;
    var w' := Step(c, h, w, e);
    forall r | r in w'.released ensures AssertSealed(w'.ledgers.At(r.slot), r.texts).Returns? {
      if r in w.released {
        assert w.ledgers.At(r.slot).Some?;
      }
    }
  }

  lemma {:induction false} RunKeeps(c: Suite, h: PointHash, ws: seq<World>, es: seq<Event>, k: nat)
    requires IsRun(c, h, ws, es) && k < |ws|
    ensures Inv(ws[k])
  {
    if k > 0 {
      RunKeeps(c, h, ws, es, k - 1);
      StepKeeps(c, h, ws[k - 1], es[k - 1]);
    }
  }

  lemma {:induction false} RunGrows(c: Suite, h: PointHash, ws: seq<World>, es: seq<Event>, i: nat, j: nat)
    requires IsRun(c, h, ws, es) && i <= j < |ws|
    ensures Grows(ws[i], ws[j])
  {
    if i < j {
      RunGrows(c, h, ws, es, i, j - 1);
      StepGrows(c, h, ws[j - 1], es[j - 1]);
      GrowsThen(ws[i], ws[j - 1], ws[j]);
    }
  }

  lemma GrowsThen(w: World, w': World, w'': World)
    requires Grows(w, w') && Grows(w', w'')
    ensures Grows(w, w'')
  {
  }

  /** For each batch there is at most one list of ciphertexts for which any validator
      ever hands out shares, whoever asks and whenever. */
  lemma OneListPerBatch(c: Suite, h: PointHash, ws: seq<World>, es: seq<Event>, i: nat, j: nat, r: Released,
                        s: Released)
    requires IsRun(c, h, ws, es) && i <= j < |ws|
    requires r in ws[i].released && s in ws[j].released && r.slot == s.slot
    ensures r.texts == s.texts
  {
    hide *;
    RunGrows(c, h, ws, es, i, j);
    RunKeeps(c, h, ws, es, j);
    StillReleased(ws[i], ws[j], r);
    SealedRelease(ws[j], r);
    SealedRelease(ws[j], s);
    SealedListUnique(ws[j].ledgers.At(r.slot).value, r.texts, s.texts);
  }

  lemma StillReleased(w: World, w': World, r: Released)
    requires Grows(w, w') && r in w.released
    ensures r in w'.released
  {
  }

  lemma SealedRelease(w: World, r: Released)
    requires Inv(w) && r in w.released
    ensures w.ledgers.At(r.slot).Some? && AssertSealed(w.ledgers.At(r.slot), r.texts).Returns?
  {
    hide Commitment;
  }

  /** The event writes this record into this slot. */
  ghost predicate Writes(l: Ledgers, e: Event, slot: Slot, record: BatchRecord) {
    l.At(slot).None?
    && match slot
       case VaultSlot(id) =>
         && e.Create? && e.id == id && l.vault.admin == Some(e.caller)
         && record == BatchRecord(e.count, e.hash, e.now)
       case MemorySlot(text) => e.Record? && e.text == text && record == BatchRecord(e.count, e.hash, e.now)
  }

  lemma RecordWritten(c: Suite, h: PointHash, w: World, e: Event, slot: Slot)
    requires Enabled(e) && Step(c, h, w, e).ledgers.At(slot).Some?
    ensures w.ledgers.At(slot) == Step(c, h, w, e).ledgers.At(slot)
            || Writes(w.ledgers, e, slot, Step(c, h, w, e).ledgers.At(slot).value)
  {
    hide RequestShares;
  }

  /** Every record was written once, by the admin or the backend, at an earlier event. */
  lemma {:induction false} RecordsAreWritten(c: Suite, h: PointHash, ws: seq<World>, es: seq<Event>, k: nat, slot: Slot)
    requires IsRun(c, h, ws, es) && k < |ws| && ws[k].ledgers.At(slot).Some?
    ensures exists i :: 0 <= i < k && Writes(ws[i].ledgers, es[i], slot, ws[k].ledgers.At(slot).value)
  {
    if k > 0 {
      RecordWritten(c, h, ws[k - 1], es[k - 1], slot);
      if ws[k - 1].ledgers.At(slot).Some? {
        RecordsAreWritten(c, h, ws, es, k - 1, slot);
      }
    }
  }

  /** The event writes the record into the ledger of this kind, under the id, where there was none. */
  ghost predicate Seals(l: Ledgers, e: Event, choice: LedgerChoice, id: string, record: BatchRecord) {
    match choice
    case Unconfigured => false
    case Chain =>
      && e.Create? && NamedBy(id, e.id) && e.id !in l.vault.batches && l.vault.admin == Some(e.caller)
      && record == BatchRecord(e.count, e.hash, e.now)
    case InMemory =>
      e.Record? && e.text == id && id !in l.memory && record == BatchRecord(e.count, e.hash, e.now)
  }

  lemma SealsExactly(l: Ledgers, e: Event, choice: LedgerChoice, id: string, record: BatchRecord)
    ensures Seals(l, e, choice, id, record)
            <==> SlotOf(choice, id).Returns? && Writes(l, e, SlotOf(choice, id).value, record)
  {
    hide BatchIdBytes, NamedBy;
    if e.Create? {
      BatchIdExactly(id, e.id);
    }
  }

  /** Shares are only ever handed out for a list whose commitment was written, under that
      batch, to the ledger that the validator reads, at an earlier event. */
  lemma NeverBeforeSealing(c: Suite, h: PointHash, ws: seq<World>, es: seq<Event>, k: nat)
    requires IsRun(c, h, ws, es) && k < |es| && es[k].Request?
    requires RequestShares(c, h, es[k].holder, ws[k].ledgers, es[k].batch, es[k].texts, es[k].nonces).Returns?
    ensures exists i, record :: && 0 <= i < k
                                && Seals(ws[i].ledgers, es[i], es[k].holder.ledger, es[k].batch, record)
                                && record.orderCount == |es[k].texts|
                                && Returns(record.contentHash) == Commitment(es[k].texts)
  {
    hide SharesFor, Commitment, Writes, Seals, SlotOf, Ledgers.At, AssertSealed;
    var slot := SlotOf(es[k].holder.ledger, es[k].batch).value;
    SealedExactly(ws[k].ledgers.At(slot), es[k].texts);
    RecordsAreWritten(c, h, ws, es, k, slot);
    var record := ws[k].ledgers.At(slot).value;
    var i :| 0 <= i < k && Writes(ws[i].ledgers, es[i], slot, record);
    SealsExactly(ws[i].ledgers, es[i], es[k].holder.ledger, es[k].batch, record);
  }

  /** Once a batch is sealed with the commitment to a list, every share ever handed out
      for that batch, before or after, is for that list. */
  lemma SealedListOnly(c: Suite, h: PointHash, ws: seq<World>, es: seq<Event>, i: nat, j: nat, r: Released,
                       record: BatchRecord, sealed: seq<string>)
    requires IsRun(c, h, ws, es) && i < |es| && j < |ws|
    requires Writes(ws[i].ledgers, es[i], r.slot, record) && Returns(record.contentHash) == Commitment(sealed)
    requires r in ws[j].released
    ensures i < j && r.texts == sealed
  {
    RunKeeps(c, h, ws, es, j);
    SealedRelease(ws[j], r);
    if j <= i {
      RunGrows(c, h, ws, es, j, i);
      assert false;
    }
    RunGrows(c, h, ws, es, i + 1, j);
    WrittenRecord(c, h, ws[i], es[i], r.slot, record);
    hide *;
    SameHash(record, ws[j], r, ws[i + 1]);
    CommitmentDeterminesList(r.texts, sealed);
  }

  lemma WrittenRecord(c: Suite, h: PointHash, w: World, e: Event, slot: Slot, record: BatchRecord)
    requires Enabled(e) && Writes(w.ledgers, e, slot, record)
    ensures Step(c, h, w, e).ledgers.At(slot) == Some(record)
  {
  }

  /** Once the commitment to a list of ciphertexts that parse is written for a batch, every
      validator with a key that reads this ledger answers every later request for it. */
  lemma SealedIsAnswered(c: Suite, h: PointHash, ws: seq<World>, es: seq<Event>, i: nat, j: nat, v: Holder, id: string,
                         texts: seq<string>, nonces: seq<int>, record: BatchRecord)
    requires IsRun(c, h, ws, es) && i < |es| && i < j < |ws| && |nonces| == |texts| && GoodNonces(nonces)
    requires Seals(ws[i].ledgers, es[i], v.ledger, id, record)
    requires record.orderCount == |texts| && Commitment(texts) == Returns(record.contentHash)
    requires v.keyShare.Some? && HexToScalar(v.keyShare.value.secret).Returns? && AllParse(c, texts)
    ensures RequestShares(c, h, v, ws[j].ledgers, id, texts, nonces).Returns?
  {
    hide *;
    SealsExactly(ws[i].ledgers, es[i], v.ledger, id, record);
    var slot := SlotOf(v.ledger, id).value;
    RunEnabled(c, h, ws, es, i);
    WrittenRecord(c, h, ws[i], es[i], slot, record);
    RunGrows(c, h, ws, es, i + 1, j);
    StillRecorded(ws[i + 1], ws[j], slot);
    RecordedExactly(v.ledger, ws[j].ledgers, id, record);
    assert RecordedAs(v.ledger, ws[j].ledgers, id, texts) by {
      IsRecordedAs(v.ledger, ws[j].ledgers, id, texts, record);
    }
    ReleasedExactly(c, h, v, ws[j].ledgers, id, texts, nonces);
  }

  lemma RunEnabled(c: Suite, h: PointHash, ws: seq<World>, es: seq<Event>, k: nat)
    requires IsRun(c, h, ws, es) && k < |es|
    ensures |ws| == |es| + 1 && Enabled(es[k]) && ws[k + 1] == Step(c, h, ws[k], es[k])
  {
    hide Step, Enabled;
  }

  lemma StillRecorded(w: World, w': World, slot: Slot)
    requires Grows(w, w') && w.ledgers.At(slot).Some?
    ensures w'.ledgers.At(slot) == w.ledgers.At(slot)
  {
  }

  lemma IsRecordedAs(choice: LedgerChoice, l: Ledgers, id: string, texts: seq<string>, record: BatchRecord)
    requires Recorded(choice, l, id, record) && record.orderCount == |texts|
    requires Commitment(texts) == Returns(record.contentHash)
    ensures RecordedAs(choice, l, id, texts)
  {
    hide Recorded, Commitment;
  }

  /** A list counts as released exactly if an earlier request for it was answered. */
  lemma {:induction false} ReleasesAreAnswers(c: Suite, h: PointHash, ws: seq<World>, es: seq<Event>, k: nat,
                                              r: Released)
    requires IsRun(c, h, ws, es) && k < |ws|
    ensures r in ws[k].released <==> exists i :: 0 <= i < k && Answers(c, h, ws[i], es[i], r)
  {
    hide Enabled, Step, Answers;
    if k > 0 {
      ReleasesAreAnswers(c, h, ws, es, k - 1, r);
      ReleasedNow(c, h, ws[k - 1], es[k - 1], r);
    }
  }

  /** The event is an answered request for the list. */
  ghost predicate Answers(c: Suite, h: PointHash, w: World, e: Event, r: Released) {
    && Enabled(e) && e.Request? && r.texts == e.texts && SlotOf(e.holder.ledger, e.batch) == Returns(r.slot)
    && RequestShares(c, h, e.holder, w.ledgers, e.batch, e.texts, e.nonces).Returns?
  }

  lemma ReleasedNow(c: Suite, h: PointHash, w: World, e: Event, r: Released)
    requires Enabled(e)
    ensures r in Step(c, h, w, e).released <==> r in w.released || Answers(c, h, w, e, r)
  {
    hide AssertSealed, SharesFor;
  }

  lemma SameHash(record: BatchRecord, w: World, r: Released, earlier: World)
    requires Grows(earlier, w) && earlier.ledgers.At(r.slot) == Some(record)
    requires AssertSealed(w.ledgers.At(r.slot), r.texts).Returns?
    ensures Commitment(r.texts) == Returns(record.contentHash)
  {
    hide Commitment;
  }
}
