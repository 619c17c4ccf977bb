/** Runs of the key generation among honest validators under a router that drops,
    reorders, replays and injects messages at will but cannot forge signatures. */
module ProtocolRuns {
  import opened Residues
  import opened Outcomes
  import opened Group
  import opened Threshold
  import opened OrderCipher
  import opened Dkg
  import opened Participants
  import opened KeyGeneration
  import opened Robustness
  import opened Validators

  /** What an identity key signed. The constructor is the signature domain. */
  datatype Statement =
    | SignedKey(session: string, key: TransportKey)
    | SignedBroadcast(session: string, broadcast: Broadcast)
    | SignedShare(session: string, share: EncryptedShare)
    | SignedComplaint(session: string, complaint: Complaint)
    | SignedDisclosure(session: string, disclosure: Reveal)
    | SignedResult(session: string, result: ResultStatement)

  type Signatures = set<(int, Statement)>

  /** The honest validators, everything their identity keys ever signed, and the
      participant each of them created for each session. */
  datatype World = World(honest: map<int, Validator>, signed: Signatures, begun: map<(int, string), Participant>)

  datatype Event =
    | Begin(who: int, session: string, threshold: int, participants: seq<int>, secret: int, coeffs: seq<int>)
    | Deal(who: int, keys: seq<Signed<TransportKey>>, randoms: seq<int>)
    | Receive(who: int, broadcasts: seq<Signed<Broadcast>>, shares: seq<Signed<EncryptedShare>>)
    | Respond(who: int, complaints: seq<Signed<Complaint>>)
    | Finalize(who: int, transcript: SignedTranscript)

  // The router can deliver a message as genuine from an honest validator only
  // if that validator signed it. All other messages are arbitrary.

  ghost predicate KeysUnforged(w: World, ms: seq<Signed<TransportKey>>) {
    forall m :: m in ms && m.genuine && m.signer in w.honest ==> (m.signer, SignedKey(m.session, m.body)) in w.signed
  }

  ghost predicate BroadcastsUnforged(w: World, ms: seq<Signed<Broadcast>>) {
    forall m :: m in ms && m.genuine && m.signer in w.honest ==>
      (m.signer, SignedBroadcast(m.session, m.body)) in w.signed
  }

  ghost predicate SharesUnforged(w: World, ms: seq<Signed<EncryptedShare>>) {
    forall m :: m in ms && m.genuine && m.signer in w.honest ==> (m.signer, SignedShare(m.session, m.body)) in w.signed
  }

  ghost predicate ComplaintsUnforged(w: World, ms: seq<Signed<Complaint>>) {
    forall m :: m in ms && m.genuine && m.signer in w.honest ==>
      (m.signer, SignedComplaint(m.session, m.body)) in w.signed
  }

  ghost predicate DisclosuresUnforged(w: World, ms: seq<Signed<Reveal>>) {
    forall m :: m in ms && m.genuine && m.signer in w.honest ==>
      (m.signer, SignedDisclosure(m.session, m.body)) in w.signed
  }

  ghost predicate RandomScalars(s: seq<int>) {
    forall k :: 0 <= k < |s| ==> 0 < s[k] < L
  }

  /** What can happen next. A validator begins a session id at most once, its
      scalars are nonzero, and so are its shares for honest participants. */
  ghost predicate Enabled(w: World, e: Event) {
    && e.who in w.honest
    && match e
       case Begin(who, session, threshold, participants, secret, coeffs) =>
         && (who, session) !in w.begun
         && 0 < secret < L && RandomScalars(coeffs) && |coeffs| == threshold
         && forall j :: j in participants && j in w.honest ==> Horner(coeffs, j) != 0
       case Deal(who, keys, randoms) =>
         && KeysUnforged(w, keys) && RandomScalars(randoms)
         && (w.honest[who].dkg.Some? ==> |randoms| == |w.honest[who].dkg.value.participants|)
       case Receive(who, broadcasts, shares) => BroadcastsUnforged(w, broadcasts) && SharesUnforged(w, shares)
       case Respond(who, complaints) => ComplaintsUnforged(w, complaints)
       case Finalize(who, t) =>
         && BroadcastsUnforged(w, t.broadcasts) && ComplaintsUnforged(w, t.complaints)
         && DisclosuresUnforged(w, t.disclosed)
  }

  ghost function SharesSigned(ms: seq<Signed<EncryptedShare>>): Signatures {
    set m | m in ms :: (m.signer, SignedShare(m.session, m.body))
  }

  ghost function ComplaintsSigned(ms: seq<Signed<Complaint>>): Signatures {
    set m | m in ms :: (m.signer, SignedComplaint(m.session, m.body))
  }

  ghost function DisclosuresSigned(ms: seq<Signed<Reveal>>): Signatures {
    set m | m in ms :: (m.signer, SignedDisclosure(m.session, m.body))
  }

  ghost function Step(w: World, e: Event): World
    requires Enabled(w, e)
  {
    var v := w.honest[e.who];
    match e
    case Begin(who, session, threshold, participants, secret, coeffs) =>
      (match v.Begin(session, threshold, participants, secret, coeffs)
       case Throws => w
       case Returns((v', m)) =>
         World(w.honest[who := v'], w.signed + {(who, SignedKey(session, m.body))},
               w.begun[(who, session) := v'.dkg.value]))
    case Deal(who, keys, randoms) =>
      (match v.Deal(keys, randoms)
       case Throws => w
       case Returns((b, shares)) =>
         w.(signed := w.signed + {(who, SignedBroadcast(b.session, b.body))} + SharesSigned(shares)))
    case Receive(who, broadcasts, shares) =>
      var (v', out) := v.Receive(broadcasts, shares);
      World(w.honest[who := v'], w.signed + (if out.Returns? then ComplaintsSigned(out.value) else {}), w.begun)
    case Respond(who, complaints) =>
      (match v.Respond(complaints)
       case Throws => w
       case Returns(answers) => w.(signed := w.signed + DisclosuresSigned(answers)))
    case Finalize(who, transcript) =>
      (match v.Finalize(transcript)
       case Throws => w
       case Returns((v', m)) =>
         World(w.honest[who := v'], w.signed + {(who, SignedResult(m.session, m.body))}, w.begun))
  }

  // ----- The invariant -----

  /** The ciphertext seals the dealer's share for r, to the transport key of r. */
  ghost predicate SealedTo(d: Participant, r: Participant, ct: Ciphertext<ScalarText>, e: int) {
    && 0 < e < L
    && Encrypt(Hex(d.ShareFor(r.index)), Encoded(r.TransportPublicKey()), ShareContext(d.session, d.index, r.index), e)
       == Returns(ct)
  }

  ghost predicate StatementOk(w: World, i: int, s: Statement) {
    match s
    case SignedKey(session, k) =>
      (i, session) in w.begun && k == TransportKey(i, Encoded(w.begun[(i, session)].TransportPublicKey()))
    case SignedBroadcast(session, b) => (i, session) in w.begun && b == w.begun[(i, session)].OwnBroadcast()
    case SignedShare(session, m) =>
      && (i, session) in w.begun && m.dealer == i
      && (m.recipient in w.honest ==>
            && m.recipient in w.begun[(i, session)].participants
            && (m.recipient, session) in w.begun
            && exists e :: SealedTo(w.begun[(i, session)], w.begun[(m.recipient, session)], m.ciphertext, e))
    case SignedComplaint(session, c) => c.complainer == i && c.dealer !in w.honest
    case SignedDisclosure(session, r) => r.dealer == i && r.recipient !in w.honest
    case SignedResult(session, r) => true
  }

  ghost predicate SignedOk(w: World) {
    forall i, s :: (i, s) in w.signed && i in w.honest ==> StatementOk(w, i, s)
  }

  ghost predicate BegunOk(w: World, i: int, session: string) {
    (i, session) in w.begun ==>
      var p := w.begun[(i, session)];
      && p.Valid() && p.index == i && p.session == session && p.received == map[]
      && forall j :: j in p.participants && j in w.honest ==> p.ShareFor(j) != 0
  }

  ghost predicate StateOk(w: World, i: int) {
    i in w.honest ==>
      && w.honest[i].index == i
      && (w.honest[i].dkg.Some? ==>
            var p := w.honest[i].dkg.value;
            (i, p.session) in w.begun && w.begun[(i, p.session)] == p.(received := map[]))
  }

  ghost predicate Inv(w: World) {
    && SignedOk(w)
    && (forall i, s :: BegunOk(w, i, s))
    && (forall i :: StateOk(w, i))
  }

  /** Before anything happened. */
  ghost predicate Initial(w: World) {
    && w.signed == {} && w.begun == map[]
    && forall i :: i in w.honest ==> w.honest[i].index == i && w.honest[i].dkg.None?
  }

  ghost predicate IsRun(ws: seq<World>, es: seq<Event>) {
    && |ws| == |es| + 1 && Initial(ws[0])
    && forall k :: 0 <= k < |es| ==> Enabled(ws[k], es[k]) && ws[k + 1] == Step(ws[k], es[k])
  }

  /** A larger history keeps what was true of a statement. */
  ghost predicate Extends(w: World, w': World) {
    && w'.honest.Keys == w.honest.Keys
    && forall k :: k in w.begun ==> k in w'.begun && w'.begun[k] == w.begun[k]
  }

  lemma StatementExtends(w: World, w': World, i: int, s: Statement)
    requires Extends(w, w') && StatementOk(w, i, s)
    ensures StatementOk(w', i, s)
  {
  }

  // ----- One honest validator's share, as seen by another -----

  lemma HonestShareOpens(d: Participant, r: Participant, ct: Ciphertext<ScalarText>, e: int)
    requires 0 < r.transportSecret < L && d.session == r.session && SealedTo(d, r, ct, e)
    ensures r.Open(ct, d.index) == Returns(Hex(d.ShareFor(r.index)))
  {
    var y := r.transportSecret;
    CongUniqueIfZero(y);
    ScaleNonzero(BASE, y);
    OpensOnlyWithSharedPoint(Hex(d.ShareFor(r.index)), y, ShareContext(d.session, d.index, r.index), e,
                             Scale(Scale(BASE, e), y), ShareContext(d.session, d.index, r.index));
  }

  lemma {:induction false} VerifiedBroadcastOrigin(v: Validator, ms: seq<Signed<Broadcast>>, b: Broadcast)
    requires b in v.VerifiedBroadcasts(ms)
    ensures exists m :: m in ms && m.body == b && v.Accepts(m, b.dealer)
  {
    if !(v.Accepts(ms[0], ms[0].body.dealer) && ms[0].body == b) {
      VerifiedBroadcastOrigin(v, ms[1..], b);
    }
  }

  lemma {:induction false} VerifiedShareOrigin(v: Validator, ms: seq<Signed<EncryptedShare>>, s: EncryptedShare)
    requires s in v.VerifiedShares(ms)
    ensures exists m :: m in ms && m.body == s && v.Accepts(m, s.dealer) && s.recipient == v.index
  {
    if !(ms[0].body.recipient == v.index && v.Accepts(ms[0], ms[0].body.dealer) && ms[0].body == s) {
      VerifiedShareOrigin(v, ms[1..], s);
    }
  }

  lemma {:induction false} VerifiedComplaintOrigin(v: Validator, ms: seq<Signed<Complaint>>, c: Complaint)
    requires c in v.VerifiedComplaints(ms)
    ensures exists m :: m in ms && m.body == c && v.Accepts(m, c.complainer)
  {
    if !(v.Accepts(ms[0], ms[0].body.complainer) && ms[0].body == c) {
      VerifiedComplaintOrigin(v, ms[1..], c);
    }
  }

  lemma {:induction false} KeysForOrigin(v: Validator, ms: seq<Signed<TransportKey>>, p: int, k: TransportKey)
    requires k in v.KeysFor(p, ms)
    ensures k.index == p && exists m :: m in ms && m.body == k && v.Accepts(m, p)
  {
    if !(ms[0].body == k && k.index == p && v.Accepts(ms[0], p)) {
      KeysForOrigin(v, ms[1..], p, k);
    }
  }

  lemma {:induction false} FromMember(bs: seq<Broadcast>, d: int, b: Broadcast)
    ensures b in From(bs, d) <==> b in bs && b.dealer == d
  {
    if bs != [] {
      FromMember(bs[1..], d, b);
      assert bs == [bs[0]] + bs[1..];
    }
  }

  lemma {:induction false} AddressedMember(ms: seq<EncryptedShare>, d: int, r: int, m: EncryptedShare)
    ensures m in Addressed(ms, d, r) <==> m in ms && m.dealer == d && m.recipient == r
  {
    if ms != [] {
      AddressedMember(ms[1..], d, r, m);
      assert ms == [ms[0]] + ms[1..];
    }
  }

  /** Round 2 for an honest dealer: its commitments and its share can only be its
      own, so they match, or nothing is stored. Nothing else is stored for it, and it is
      not accused. */
  lemma HonestDealerAccepted(w: World, i: int, bms: seq<Signed<Broadcast>>, sms: seq<Signed<EncryptedShare>>,
                             before: Progress, d: int)
    requires Inv(w) && i in w.honest && w.honest[i].dkg.Some? && d in w.honest
    requires BroadcastsUnforged(w, bms) && SharesUnforged(w, sms)
    ensures var v, p := w.honest[i], w.honest[i].dkg.value;
            var after := p.ReceiveFrom(v.VerifiedBroadcasts(bms), v.VerifiedShares(sms), before, d);
            && after.complaints == before.complaints
            && (after.received == before.received
                || ((d, p.session) in w.begun
                    && after.received == before.received[d := Hex(w.begun[(d, p.session)].ShareFor(i))]))
  {
    var v, p := w.honest[i], w.honest[i].dkg.value;
    var bs, shares := v.VerifiedBroadcasts(bms), v.VerifiedShares(sms);
    assert StateOk(w, i);
    var own := From(bs, d);
    var mine := Addressed(shares, d, p.index);
    if ParseCommitments(First(own), p.threshold).Some? && mine != [] {
      FromMember(bs, d, own[0]);
      VerifiedBroadcastOrigin(v, bms, own[0]);
      assert (d, SignedBroadcast(p.session, own[0])) in w.signed;
      assert StatementOk(w, d, SignedBroadcast(p.session, own[0]));
      AddressedMember(shares, d, p.index, mine[0]);
      VerifiedShareOrigin(v, sms, mine[0]);
      assert (d, SignedShare(p.session, mine[0])) in w.signed;
      assert StatementOk(w, d, SignedShare(p.session, mine[0]));
      HonestShareMatches(w, i, d, own[0], mine[0]);
    }
  }

  lemma HonestShareMatches(w: World, i: int, d: int, b: Broadcast, m: EncryptedShare)
    requires Inv(w) && i in w.honest && w.honest[i].dkg.Some? && d in w.honest
    requires var p := w.honest[i].dkg.value;
             && StatementOk(w, d, SignedBroadcast(p.session, b)) && StatementOk(w, d, SignedShare(p.session, m))
             && m.recipient == i && ParseCommitments(Some(b), p.threshold).Some?
    ensures var p := w.honest[i].dkg.value;
            var share := p.Open(m.ciphertext, d);
            && (d, p.session) in w.begun && share == Returns(Hex(w.begun[(d, p.session)].ShareFor(i)))
            && ShareMatches(share.value, ParseCommitments(Some(b), p.threshold).value, i)
  {
    var p := w.honest[i].dkg.value;
    assert StateOk(w, i) && BegunOk(w, i, p.session) && BegunOk(w, d, p.session);
    var dealer, recipient := w.begun[(d, p.session)], w.begun[(i, p.session)];
    var e :| SealedTo(dealer, recipient, m.ciphertext, e);
    HonestShareOpens(dealer, recipient, m.ciphertext, e);
    assert p.Open(m.ciphertext, d) == recipient.Open(m.ciphertext, d);
    OwnCommitmentsParse(dealer);
    OwnShareMatches(dealer, i, dealer.ShareFor(i));
  }

  lemma {:induction false} NoComplaintAgainstHonest(w: World, i: int, bms: seq<Signed<Broadcast>>,
                                                    sms: seq<Signed<EncryptedShare>>, dealers: seq<int>)
    requires Inv(w) && i in w.honest && w.honest[i].dkg.Some?
    requires BroadcastsUnforged(w, bms) && SharesUnforged(w, sms)
    ensures var v, p := w.honest[i], w.honest[i].dkg.value;
            forall c :: c in p.Receive(v.VerifiedBroadcasts(bms), v.VerifiedShares(sms), dealers).complaints
              ==> c.complainer == i && c.dealer !in w.honest
  {
    assert StateOk(w, i);
    if dealers != [] {
      var n := |dealers| - 1;
      NoComplaintAgainstHonest(w, i, bms, sms, dealers[..n]);
      var v, p := w.honest[i], w.honest[i].dkg.value;
      var before := p.Receive(v.VerifiedBroadcasts(bms), v.VerifiedShares(sms), dealers[..n]);
      assert BegunOk(w, i, p.session);
      if dealers[n] in w.honest {
        HonestDealerAccepted(w, i, bms, sms, before, dealers[n]);
      }
    }
  }

  // ----- Every step keeps the invariant -----

  lemma BeginKeeps(w: World, e: Event)
    requires Inv(w) && e.Begin? && Enabled(w, e)
    ensures Inv(Step(w, e))
  {
    var w' := Step(w, e);
    var v := w.honest[e.who];
    if v.Begin(e.session, e.threshold, e.participants, e.secret, e.coeffs).Returns? {
      assert StateOk(w, e.who);
      assert Extends(w, w');
      forall i, s | (i, s) in w'.signed && i in w'.honest ensures StatementOk(w', i, s) {
        if (i, s) in w.signed {
          StatementExtends(w, w', i, s);
        }
      }
      forall i, s ensures BegunOk(w', i, s) {
        assert BegunOk(w, i, s);
      }
      forall i ensures StateOk(w', i) {
        assert StateOk(w, i);
      }
    }
  }

  lemma {:induction false} SealedSharesOrigin(p: Participant, keys: map<int, PointText>, randoms: seq<int>,
                                              js: seq<int>,
                                              m: EncryptedShare)
    requires |js| == |randoms| && p.SealedShares(keys, randoms, js).Returns?
    requires m in p.SealedShares(keys, randoms, js).value
    requires RandomScalars(randoms)
    ensures m.dealer == p.index && m.recipient in js && m.recipient in keys
    ensures exists e :: 0 < e < L && p.SealedShare(keys, m.recipient, e) == Returns(m)
  {
    var n := |js| - 1;
    var init, last := p.SealedShares(keys, randoms[..n], js[..n]).value, p.SealedShare(keys, js[n], randoms[n]).value;
    if m in init {
      SealedSharesOrigin(p, keys, randoms[..n], js[..n], m);
    } else {
      assert m == last;
    }
  }

  /** The transport key that a validator accepts for an honest one is that one's own. */
  lemma HonestKey(w: World, v: Validator, keys: seq<Signed<TransportKey>>, j: int, key: PointText)
    requires Inv(w) && j in w.honest && v.dkg.Some? && KeysUnforged(w, keys)
    requires TransportKey(j, key) in v.KeysFor(j, keys)
    ensures var session := v.dkg.value.session;
            (j, session) in w.begun && key == Encoded(w.begun[(j, session)].TransportPublicKey())
  {
    KeysForOrigin(v, keys, j, TransportKey(j, key));
    var m :| m in keys && m.body == TransportKey(j, key) && v.Accepts(m, j);
    assert StatementOk(w, j, SignedKey(m.session, m.body));
  }

  ghost function KeyTable(v: Validator, keys: seq<Signed<TransportKey>>): map<int, PointText>
    requires v.dkg.Some? && v.HasEveryKey(keys)
  {
    map p | p in v.dkg.value.participants :: v.KeysFor(p, keys)[0].key
  }

  lemma TableEntry(v: Validator, keys: seq<Signed<TransportKey>>, j: int)
    requires v.dkg.Some? && v.HasEveryKey(keys) && j in v.dkg.value.participants
    ensures j in KeyTable(v, keys) && TransportKey(j, KeyTable(v, keys)[j]) in v.KeysFor(j, keys)
  {
    assert |v.KeysFor(j, keys)| == 1;
    KeysForOrigin(v, keys, j, v.KeysFor(j, keys)[0]);
  }

  lemma OwnSession(w: World, i: int)
    requires Inv(w) && i in w.honest && w.honest[i].dkg.Some?
    ensures var p := w.honest[i].dkg.value;
            p.index == i && (i, p.session) in w.begun && w.begun[(i, p.session)] == p.(received := map[])
  {
    assert StateOk(w, i) && BegunOk(w, i, w.honest[i].dkg.value.session);
  }

  lemma DealtShareOk(w: World, e: Event, m: EncryptedShare)
    requires Inv(w) && e.Deal? && Enabled(w, e) && w.honest[e.who].dkg.Some? && w.honest[e.who].HasEveryKey(e.keys)
    requires var p := w.honest[e.who].dkg.value;
             && p.SealedShares(KeyTable(w.honest[e.who], e.keys), e.randoms, p.participants).Returns?
             && m in p.SealedShares(KeyTable(w.honest[e.who], e.keys), e.randoms, p.participants).value
    ensures StatementOk(w, e.who, SignedShare(w.honest[e.who].dkg.value.session, m))
  {
    var v, p := w.honest[e.who], w.honest[e.who].dkg.value;
    var table := KeyTable(v, e.keys);
    SealedSharesOrigin(p, table, e.randoms, p.participants, m);
    OwnSession(w, e.who);
    if m.recipient in w.honest {
      TableEntry(v, e.keys, m.recipient);
      hide KeyTable, Encrypt, SealedTo, Inv, Enabled;
      HonestKey(w, v, e.keys, m.recipient, table[m.recipient]);
      SealedToHonest(w, e.who, m, table);
    }
  }

  lemma SealedToHonest(w: World, i: int, m: EncryptedShare, table: map<int, PointText>)
    requires Inv(w) && i in w.honest && w.honest[i].dkg.Some? && m.recipient in w.honest
    requires var p, j := w.honest[i].dkg.value, m.recipient;
             && (j, p.session) in w.begun && j in table
             && table[j] == Encoded(w.begun[(j, p.session)].TransportPublicKey())
             && exists e :: 0 < e < L && p.SealedShare(table, j, e) == Returns(m)
    ensures var session := w.honest[i].dkg.value.session;
            && (i, session) in w.begun
            && exists e :: SealedTo(w.begun[(i, session)], w.begun[(m.recipient, session)], m.ciphertext, e)
  {
    var p, j := w.honest[i].dkg.value, m.recipient;
    assert StateOk(w, i) && BegunOk(w, j, p.session) && BegunOk(w, i, p.session);
    var e :| 0 < e < L && p.SealedShare(table, j, e) == Returns(m);
    hide Encrypt, ShareContext, Horner;
    assert SealedTo(w.begun[(i, p.session)], w.begun[(j, p.session)], m.ciphertext, e);
  }

  lemma DealKeeps(w: World, e: Event)
    requires Inv(w) && e.Deal? && Enabled(w, e)
    ensures Inv(Step(w, e))
  {
    var w', v := Step(w, e), w.honest[e.who];
    if v.Deal(e.keys, e.randoms).Returns? {
      var p := v.dkg.value;
      var sealed := p.SealedShares(KeyTable(v, e.keys), e.randoms, p.participants).value;
      var (b, ms) := v.Deal(e.keys, e.randoms).value;
      assert ms == v.SignAll(p.session, sealed);
      assert StateOk(w, e.who);
      assert Extends(w, w');
      forall i, s | (i, s) in w'.signed && i in w'.honest ensures StatementOk(w', i, s) {
        if (i, s) in w.signed {
          StatementExtends(w, w', i, s);
        } else if s.SignedShare? {
          DealtShareOk(w, e, s.share) by {
            var m :| m in ms && (i, s) == (m.signer, SignedShare(m.session, m.body));
          }
          StatementExtends(w, w', i, s);
        } else {
          assert s == SignedBroadcast(p.session, p.OwnBroadcast());
        }
      }
      forall i, s ensures BegunOk(w', i, s) {
        assert BegunOk(w, i, s);
      }
      forall i ensures StateOk(w', i) {
        assert StateOk(w, i);
      }
    }
  }

  lemma ReceiveKeeps(w: World, e: Event)
    requires Inv(w) && e.Receive? && Enabled(w, e)
    ensures Inv(Step(w, e))
  {
    var w', v := Step(w, e), w.honest[e.who];
    assert StateOk(w, e.who);
    if v.dkg.Some? {
      NoComplaintAgainstHonest(w, e.who, e.broadcasts, e.shares, v.dkg.value.participants);
    }
    assert Extends(w, w');
    forall i, s | (i, s) in w'.signed && i in w'.honest ensures StatementOk(w', i, s) {
      if (i, s) in w.signed {
        StatementExtends(w, w', i, s);
      }
    }
    forall i, s ensures BegunOk(w', i, s) {
      assert BegunOk(w, i, s);
    }
    forall i ensures StateOk(w', i) {
      assert StateOk(w, i);
    }
  }

  lemma {:induction false} RespondOrigin(p: Participant, cs: seq<Complaint>, r: Reveal)
    requires r in p.Respond(cs)
    ensures Complaint(r.recipient, p.index) in cs && r == Reveal(p.index, r.recipient, Hex(p.ShareFor(r.recipient)))
  {
    if !(cs[0].dealer == p.index && r == Reveal(p.index, cs[0].complainer, ScalarToHex(p.ShareFor(cs[0].complainer)))) {
      RespondOrigin(p, cs[1..], r);
    }
  }

  lemma HonestComplaint(w: World, i: int, session: string, c: Complaint)
    requires Inv(w) && i in w.honest && (i, SignedComplaint(session, c)) in w.signed
    ensures c.dealer !in w.honest
  {
    assert StatementOk(w, i, SignedComplaint(session, c));
  }

  lemma RespondKeeps(w: World, e: Event)
    requires Inv(w) && e.Respond? && Enabled(w, e)
    ensures Inv(Step(w, e))
  {
    var w', v := Step(w, e), w.honest[e.who];
    assert StateOk(w, e.who);
    forall i, s | (i, s) in w'.signed && i in w'.honest ensures StatementOk(w', i, s) {
      if (i, s) in w.signed {
        StatementExtends(w, w', i, s);
      } else {
        var p := v.dkg.value;
        var r := s.disclosure;
        var cs := v.VerifiedComplaints(e.complaints);
        assert BegunOk(w, e.who, p.session);
        RespondOrigin(p, cs, r);
        VerifiedComplaintOrigin(v, e.complaints, Complaint(r.recipient, p.index));
        if r.recipient in w.honest {
          HonestComplaint(w, r.recipient, p.session, Complaint(r.recipient, p.index));
        }
      }
    }
    forall i, s ensures BegunOk(w', i, s) {
      assert BegunOk(w, i, s);
    }
    forall i ensures StateOk(w', i) {
      assert StateOk(w, i);
    }
  }

  lemma FinalizeKeeps(w: World, e: Event)
    requires Inv(w) && e.Finalize? && Enabled(w, e)
    ensures Inv(Step(w, e))
  {
    var w' := Step(w, e);
    assert Extends(w, w');
    forall i, s | (i, s) in w'.signed && i in w'.honest ensures StatementOk(w', i, s) {
      if (i, s) in w.signed {
        StatementExtends(w, w', i, s);
      }
    }
    forall i, s ensures BegunOk(w', i, s) {
      assert BegunOk(w, i, s);
    }
    forall i ensures StateOk(w', i) {
      assert StateOk(w, i);
      assert StateOk(w, e.who);
    }
  }

  lemma StepKeeps(w: World, e: Event)
    requires Inv(w) && Enabled(w, e)
    ensures Inv(Step(w, e))
  {
    match e
    case Begin(_, _, _, _, _, _) => BeginKeeps(w, e);
    case Deal(_, _, _) => DealKeeps(w, e);
    case Receive(_, _, _) => ReceiveKeeps(w, e);
    case Respond(_, _) => RespondKeeps(w, e);
    case Finalize(_, _) => FinalizeKeeps(w, e);
  }

  lemma {:induction false} RunKeeps(ws: seq<World>, es: seq<Event>, k: nat)
    requires IsRun(ws, es) && k < |ws|
    ensures Inv(ws[k])
  {
    if k > 0 {
      RunKeeps(ws, es, k - 1);
      StepKeeps(ws[k - 1], es[k - 1]);
    }
  }

  /** Over every run, no honest validator signs a complaint against an honest one,
      and no honest dealer discloses the share of an honest recipient. */
  lemma HonestSharesStayPrivate(ws: seq<World>, es: seq<Event>, k: nat, i: int, s: Statement)
    requires IsRun(ws, es) && k < |ws| && i in ws[k].honest && (i, s) in ws[k].signed
    ensures s.SignedComplaint? ==> s.complaint.complainer == i && s.complaint.dealer !in ws[k].honest
    ensures s.SignedDisclosure? ==> s.disclosure.dealer == i && s.disclosure.recipient !in ws[k].honest
  {
    RunKeeps(ws, es, k);
    assert StatementOk(ws[k], i, s);
  }

  // ----- Whose calls a run is made of -----

  /** The validator's call signs the statement. */
  ghost predicate Signs(v: Validator, e: Event, s: Statement)
    requires e.Deal? && v.dkg.Some? ==> |e.randoms| == |v.dkg.value.participants|
  {
    match e
    case Begin(_, session, threshold, participants, secret, coeffs) =>
      var out := v.Begin(session, threshold, participants, secret, coeffs);
      out.Returns? && s == SignedKey(out.value.1.session, out.value.1.body)
    case Deal(_, keys, randoms) =>
      var out := v.Deal(keys, randoms);
      && out.Returns?
      && (|| s == SignedBroadcast(out.value.0.session, out.value.0.body)
          || exists m :: m in out.value.1 && s == SignedShare(m.session, m.body))
    case Receive(_, broadcasts, shares) =>
      var out := v.Receive(broadcasts, shares).1;
      out.Returns? && exists m :: m in out.value && s == SignedComplaint(m.session, m.body)
    case Respond(_, complaints) =>
      var out := v.Respond(complaints);
      out.Returns? && exists m :: m in out.value && s == SignedDisclosure(m.session, m.body)
    case Finalize(_, t) =>
      var out := v.Finalize(t);
      out.Returns? && s == SignedResult(out.value.1.session, out.value.1.body)
  }

  /** The validator's state after its call. */
  ghost predicate Becomes(v: Validator, e: Event, v': Validator) {
    match e
    case Begin(_, session, threshold, participants, secret, coeffs) =>
      var out := v.Begin(session, threshold, participants, secret, coeffs);
      v' == if out.Returns? then out.value.0 else v
    case Deal(_, _, _) => v' == v
    case Receive(_, broadcasts, shares) => v' == v.Receive(broadcasts, shares).0
    case Respond(_, _) => v' == v
    case Finalize(_, t) =>
      var out := v.Finalize(t);
      v' == if out.Returns? then out.value.0 else v
  }

  /** One validator calls, and signs just what its call returns; nobody else moves. */
  lemma StepIsCall(w: World, e: Event, i: int, s: Statement)
    requires Enabled(w, e) && w.honest[e.who].index == e.who
    ensures (i, s) in Step(w, e).signed <==> (i, s) in w.signed || (i == e.who && Signs(w.honest[i], e, s))
    ensures Step(w, e).honest.Keys == w.honest.Keys && Becomes(w.honest[e.who], e, Step(w, e).honest[e.who])
    ensures i in w.honest && i != e.who ==> Step(w, e).honest[i] == w.honest[i]
  {
    hide Horner, KeysUnforged, BroadcastsUnforged, SharesUnforged, ComplaintsUnforged, DisclosuresUnforged,
         Participant.Receive, Participant.Respond, Participant.Finalize, Participant.SealedShares;
  }

  /** What a validator has signed is exactly what its earlier calls returned. */
  lemma {:induction false} SignedExactly(ws: seq<World>, es: seq<Event>, k: nat, i: int, s: Statement)
    requires IsRun(ws, es) && k < |ws|
    ensures (i, s) in ws[k].signed <==> exists n :: 0 <= n < k && SignedAt(ws[n], es[n], i, s)
  {
    hide Enabled, Step, SignedAt;
    if k > 0 {
      SignedExactly(ws, es, k - 1, i, s);
      RunKeeps(ws, es, k - 1);
      SignedNow(ws[k - 1], es[k - 1], i, s);
    }
  }

  ghost predicate SignedAt(w: World, e: Event, i: int, s: Statement) {
    Enabled(w, e) && i == e.who && Signs(w.honest[i], e, s)
  }

  lemma SignedNow(w: World, e: Event, i: int, s: Statement)
    requires Inv(w) && Enabled(w, e)
    ensures (i, s) in Step(w, e).signed <==> (i, s) in w.signed || SignedAt(w, e, i, s)
  {
    assert StateOk(w, e.who);
    StepIsCall(w, e, i, s);
    hide Step, Enabled, Signs, Inv;
  }
}
