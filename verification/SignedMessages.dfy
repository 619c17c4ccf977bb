/** Which signed messages count for a validator, in terms of their fields, and what that
    means for honest dealers and honest runs whose messages a router carries. */
module SignedMessages {
  import opened Collections
  import opened Residues
  import opened Lagrange
  import opened Outcomes
  import opened Group
  import opened Threshold
  import opened OrderCipher
  import opened Dkg
  import opened Participants
  import opened KeyGeneration
  import opened Robustness
  import opened HonestRun
  import opened Validators
  import ProtocolRuns

  /** A message of the present session from a known peer, with its valid signature. */
  ghost predicate SignedBy<T>(v: Validator, m: Signed<T>, sender: int) {
    && m.signer == sender && sender in v.peers && m.genuine
    && v.dkg.Some? && m.session == v.dkg.value.session
  }

  // ----- What the filters keep -----

  function Bodies<T>(ms: seq<Signed<T>>): (r: seq<T>)
    ensures |r| == |ms|
  {
    seq(|ms|, k requires 0 <= k < |ms| => ms[k].body)
  }

  lemma NextBody<T>(ms: seq<Signed<T>>, rest: seq<T>, goodRest: set<nat>, good: set<nat>)
    requires ms != [] && Picked(Bodies(ms[1..]), rest, goodRest)
    requires forall i: nat :: i + 1 in good <==> i in goodRest
    ensures Picked(Bodies(ms), (if 0 in good then [ms[0].body] else []) + rest, good)
  {
    hide Picked;
    assert Bodies(ms)[1..] == Bodies(ms[1..]);
    PickedNext(Bodies(ms), rest, goodRest, good);
  }

  lemma BodyMembers<T>(ms: seq<Signed<T>>, kept: seq<T>, good: set<nat>, b: T)
    requires Picked(Bodies(ms), kept, good)
    ensures b in kept <==> exists i: nat :: i in good && i < |ms| && ms[i].body == b
  {
    PickedMembers(Bodies(ms), kept, good, b);
    forall i: nat | i < |ms| ensures Bodies(ms)[i] == ms[i].body {
    }
    assert (exists i: nat :: i in good && i < |ms| && ms[i].body == b)
        == (exists i: nat :: i in good && i < |ms| && Bodies(ms)[i] == b);
  }

  /** Those that the dealer itself signed. */
  ghost function GoodBroadcasts(v: Validator, ms: seq<Signed<Broadcast>>): set<nat> {
    set i: nat | i < |ms| && SignedBy(v, ms[i], ms[i].body.dealer)
  }

  lemma {:induction false} BroadcastsExactly(v: Validator, ms: seq<Signed<Broadcast>>)
    ensures Picked(Bodies(ms), v.VerifiedBroadcasts(ms), GoodBroadcasts(v, ms))
  {
    if ms == [] {
      PickedNone<Broadcast>(GoodBroadcasts(v, ms));
    } else {
      BroadcastsExactly(v, ms[1..]);
      NextBody(ms, v.VerifiedBroadcasts(ms[1..]), GoodBroadcasts(v, ms[1..]), GoodBroadcasts(v, ms));
    }
  }

  /** Those that the complainer signed. */
  ghost function GoodComplaints(v: Validator, ms: seq<Signed<Complaint>>): set<nat> {
    set i: nat | i < |ms| && SignedBy(v, ms[i], ms[i].body.complainer)
  }

  lemma {:induction false} ComplaintsExactly(v: Validator, ms: seq<Signed<Complaint>>)
    ensures Picked(Bodies(ms), v.VerifiedComplaints(ms), GoodComplaints(v, ms))
  {
    if ms == [] {
      PickedNone<Complaint>(GoodComplaints(v, ms));
    } else {
      ComplaintsExactly(v, ms[1..]);
      NextBody(ms, v.VerifiedComplaints(ms[1..]), GoodComplaints(v, ms[1..]), GoodComplaints(v, ms));
    }
  }

  /** Those that the dealer signed. */
  ghost function GoodDisclosures(v: Validator, ms: seq<Signed<Reveal>>): set<nat> {
    set i: nat | i < |ms| && SignedBy(v, ms[i], ms[i].body.dealer)
  }

  lemma {:induction false} DisclosuresExactly(v: Validator, ms: seq<Signed<Reveal>>)
    ensures Picked(Bodies(ms), v.VerifiedDisclosures(ms), GoodDisclosures(v, ms))
  {
    if ms == [] {
      PickedNone<Reveal>(GoodDisclosures(v, ms));
    } else {
      DisclosuresExactly(v, ms[1..]);
      NextBody(ms, v.VerifiedDisclosures(ms[1..]), GoodDisclosures(v, ms[1..]), GoodDisclosures(v, ms));
    }
  }

  /** Those for this validator that the dealer signed. */
  ghost function GoodShares(v: Validator, ms: seq<Signed<EncryptedShare>>): set<nat> {
    set i: nat | i < |ms| && ms[i].body.recipient == v.index && SignedBy(v, ms[i], ms[i].body.dealer)
  }

  lemma {:induction false} SharesExactly(v: Validator, ms: seq<Signed<EncryptedShare>>)
    ensures Picked(Bodies(ms), v.VerifiedShares(ms), GoodShares(v, ms))
  {
    if ms == [] {
      PickedNone<EncryptedShare>(GoodShares(v, ms));
    } else {
      SharesExactly(v, ms[1..]);
      NextBody(ms, v.VerifiedShares(ms[1..]), GoodShares(v, ms[1..]), GoodShares(v, ms));
    }
  }

  /** The transcript that a validator verifies: each kind of message in its order, and
      nothing that its rightful sender did not sign for this session. */
  lemma TranscriptExactly(v: Validator, st: SignedTranscript)
    ensures var t := v.VerifyTranscript(st);
            && Picked(Bodies(st.broadcasts), t.broadcasts, GoodBroadcasts(v, st.broadcasts))
            && Picked(Bodies(st.complaints), t.complaints, GoodComplaints(v, st.complaints))
            && Picked(Bodies(st.disclosed), t.disclosed, GoodDisclosures(v, st.disclosed))
  {
    hide *;
    BroadcastsExactly(v, st.broadcasts);
    ComplaintsExactly(v, st.complaints);
    DisclosuresExactly(v, st.disclosed);
    VerifiedParts(v, st);
  }

  lemma VerifiedParts(v: Validator, st: SignedTranscript)
    ensures v.VerifyTranscript(st)
            == Transcript(v.VerifiedBroadcasts(st.broadcasts), v.VerifiedComplaints(st.complaints),
                          v.VerifiedDisclosures(st.disclosed))
  {
  }

  /** Membership, message by message. */
  lemma VerifiedExactly(v: Validator, st: SignedTranscript)
    ensures forall b :: b in v.VerifyTranscript(st).broadcasts
              <==> exists m :: m in st.broadcasts && m.body == b && SignedBy(v, m, b.dealer)
    ensures forall c :: c in v.VerifyTranscript(st).complaints
              <==> exists m :: m in st.complaints && m.body == c && SignedBy(v, m, c.complainer)
    ensures forall r :: r in v.VerifyTranscript(st).disclosed
              <==> exists m :: m in st.disclosed && m.body == r && SignedBy(v, m, r.dealer)
  {
    var t := v.VerifyTranscript(st);
    TranscriptExactly(v, st);
    hide Picked, SignedBy;
    forall b ensures b in t.broadcasts
                     <==> exists m :: m in st.broadcasts && m.body == b && SignedBy(v, m, b.dealer)
    {
      BodyMembers(st.broadcasts, t.broadcasts, GoodBroadcasts(v, st.broadcasts), b);
    }
    forall c ensures c in t.complaints
                     <==> exists m :: m in st.complaints && m.body == c && SignedBy(v, m, c.complainer)
    {
      BodyMembers(st.complaints, t.complaints, GoodComplaints(v, st.complaints), c);
    }
    forall r ensures r in t.disclosed
                     <==> exists m :: m in st.disclosed && m.body == r && SignedBy(v, m, r.dealer)
    {
      BodyMembers(st.disclosed, t.disclosed, GoodDisclosures(v, st.disclosed), r);
    }
  }

  // ----- An honest dealer -----

  /** Where the signed broadcasts of the dealer are. */
  ghost function Copies(v: Validator, ms: seq<Signed<Broadcast>>, dealer: int): set<nat> {
    set i: nat | i < |ms| && ms[i].body.dealer == dealer && SignedBy(v, ms[i], dealer)
  }

  lemma {:induction false} CopiesExactly(v: Validator, ms: seq<Signed<Broadcast>>, dealer: int)
    ensures Picked(Bodies(ms), From(v.VerifiedBroadcasts(ms), dealer), Copies(v, ms, dealer))
  {
    if ms == [] {
      PickedNone<Broadcast>(Copies(v, ms, dealer));
    } else {
      CopiesExactly(v, ms[1..], dealer);
      FromNext(v, ms, dealer);
      hide Picked, From;
      NextBody(ms, From(v.VerifiedBroadcasts(ms[1..]), dealer), Copies(v, ms[1..], dealer), Copies(v, ms, dealer));
    }
  }

  lemma FromNext(v: Validator, ms: seq<Signed<Broadcast>>, dealer: int)
    requires ms != []
    ensures From(v.VerifiedBroadcasts(ms), dealer)
            == (if 0 in Copies(v, ms, dealer) then [ms[0].body] else [])
               + From(v.VerifiedBroadcasts(ms[1..]), dealer)
  {
    var rest := v.VerifiedBroadcasts(ms[1..]);
    assert ([ms[0].body] + rest)[1..] == rest && [] + rest == rest;
    assert [] + From(rest, dealer) == From(rest, dealer);
  }

  /** What the dealer p signed for this session is its own broadcast and its own shares. */
  ghost predicate OnlyOwn(v: Validator, p: Participant, st: SignedTranscript) {
    && (forall m :: m in st.broadcasts && SignedBy(v, m, p.index) && m.body.dealer == p.index ==>
          m.body == p.OwnBroadcast())
    && (forall m :: m in st.disclosed && SignedBy(v, m, p.index) && m.body.dealer == p.index ==>
          m.body.share == Hex(p.ShareFor(m.body.recipient)))
  }

  ghost predicate AccusedBy(v: Validator, p: Participant, st: SignedTranscript, j: int) {
    exists m :: m in st.complaints && SignedBy(v, m, j) && m.body == Complaint(j, p.index)
  }

  /** Everyone who accused the dealer is answered. */
  ghost predicate AllAnswers(v: Validator, p: Participant, st: SignedTranscript) {
    forall j :: AccusedBy(v, p, st, j) ==>
      exists m :: m in st.disclosed && SignedBy(v, m, p.index)
                  && m.body == Reveal(p.index, j, Hex(p.ShareFor(j)))
  }

  lemma SignedDealerInQual(v: Validator, p: Participant, st: SignedTranscript)
    requires p.Valid() && OnlyOwn(v, p, st) && AllAnswers(v, p, st)
    ensures Qualifies(v.VerifyTranscript(st), p.participants, p.threshold, p.index)
            <==> |Copies(v, st.broadcasts, p.index)| == 1
                 && forall j :: j in p.participants && AccusedBy(v, p, st, j) ==> p.ShareFor(j) != 0
  {
    var t := v.VerifyTranscript(st);
    OwnBroadcasts(v, p, st);
    OwnDisclosures(v, p, st);
    Accusations(v, p, st);
    hide OnlyOwn, AllAnswers, OnlyOwnDisclosures, Copies, AccusedBy;
    if |Copies(v, st.broadcasts, p.index)| == 1 {
      HonestDealerQualifies(p, t);
    }
  }

  lemma OwnBroadcasts(v: Validator, p: Participant, st: SignedTranscript)
    requires OnlyOwn(v, p, st)
    ensures var own := From(v.VerifyTranscript(st).broadcasts, p.index);
            |own| == |Copies(v, st.broadcasts, p.index)| && forall k :: 0 <= k < |own| ==> own[k] == p.OwnBroadcast()
  {
    var own := From(v.VerifyTranscript(st).broadcasts, p.index);
    CopiesExactly(v, st.broadcasts, p.index);
    PickedSize(Bodies(st.broadcasts), own, Copies(v, st.broadcasts, p.index));
    forall k | 0 <= k < |own| ensures own[k] == p.OwnBroadcast() {
      BodyMembers(st.broadcasts, own, Copies(v, st.broadcasts, p.index), own[k]);
    }
  }

  lemma OwnDisclosures(v: Validator, p: Participant, st: SignedTranscript)
    requires OnlyOwn(v, p, st) && AllAnswers(v, p, st)
    ensures var t := v.VerifyTranscript(st);
            OnlyOwnDisclosures(p, t.disclosed) && forall r :: r in p.Respond(t.complaints) ==> r in t.disclosed
  {
    var t := v.VerifyTranscript(st);
    VerifiedExactly(v, st);
    forall r | r in p.Respond(t.complaints) ensures r in t.disclosed {
      ProtocolRuns.RespondOrigin(p, t.complaints, r);
      assert AccusedBy(v, p, st, r.recipient);
    }
  }

  lemma Accusations(v: Validator, p: Participant, st: SignedTranscript)
    ensures forall j :: Accuses(v.VerifyTranscript(st), p.participants, p.index, j)
                        <==> j in p.participants && AccusedBy(v, p, st, j)
  {
    VerifiedExactly(v, st);
    hide SignedBy;
    forall j ensures AccusedBy(v, p, st, j) <==> Complaint(j, p.index) in v.VerifyTranscript(st).complaints {
    }
  }

  lemma FinalizedQualified(v: Validator, st: SignedTranscript)
    requires v.dkg.Some? && v.Finalize(st).Returns?
    ensures var d := v.dkg.value;
            forall i :: i in v.Finalize(st).value.1.body.result.qualified
                        <==> i in d.participants && Qualifies(v.VerifyTranscript(st), d.participants, d.threshold, i)
  {
    hide Qualifies, SumAt, KeysAt;
  }

  /** An honest dealer that answered everyone is in the qualified set of everyone who
      finalizes with this transcript, if and only if the transcript holds its signed
      broadcast exactly once and no participant with a zero share accused it. */
  lemma SignedDealerQualifies(v: Validator, p: Participant, st: SignedTranscript)
    requires p.Valid() && v.dkg.Some?
    requires v.dkg.value.participants == p.participants && v.dkg.value.threshold == p.threshold
    requires OnlyOwn(v, p, st) && AllAnswers(v, p, st)
    ensures v.Finalize(st).Returns? ==>
              (p.index in v.Finalize(st).value.1.body.result.qualified
               <==> |Copies(v, st.broadcasts, p.index)| == 1
                    && forall j :: j in p.participants && AccusedBy(v, p, st, j) ==> p.ShareFor(j) != 0)
  {
    var t := v.VerifyTranscript(st);
    SignedDealerInQual(v, p, st);
    hide Qualifies, OnlyOwn, AllAnswers, Copies, AccusedBy;
    if v.Finalize(st).Returns? {
      FinalizedQualified(v, st);
    }
  }

  // ----- An honest run -----

  /** What the router hands to the validator of participant j: among any other messages,
      one signed broadcast of every participant, and its share from every dealer. */
  ghost predicate Carried(v: Validator, ps: seq<Participant>, j: nat, bms: seq<Signed<Broadcast>>,
                          sms: seq<Signed<EncryptedShare>>, delivered: seq<EncryptedShare>, es: seq<int>)
    requires j < |ps|
  {
    && Picked(Bodies(bms), Broadcasts(ps), GoodBroadcasts(v, bms))
    && Picked(Bodies(sms), delivered, GoodShares(v, sms)) && Ready(ps, j, delivered, es)
  }

  /** The signed transcript holds the broadcasts, and no complaint or disclosure that counts. */
  ghost predicate Undisputed(v: Validator, ps: seq<Participant>, st: SignedTranscript) {
    && Picked(Bodies(st.broadcasts), Broadcasts(ps), GoodBroadcasts(v, st.broadcasts))
    && GoodComplaints(v, st.complaints) == {} && GoodDisclosures(v, st.disclosed) == {}
  }

  /** Honest participants whose signed messages arrive, whatever else arrives with them:
      the validator complains about nobody, and finalizes with everyone qualified, unless
      the sum of the polynomials is zero at 0 or at its own index. */
  lemma SignedRunCompletes(v: Validator, ps: seq<Participant>, j: nat, bms: seq<Signed<Broadcast>>,
                           sms: seq<Signed<EncryptedShare>>, delivered: seq<EncryptedShare>, es: seq<int>,
                           st: SignedTranscript)
    requires j < |ps| && v.dkg == Some(ps[j])
    requires Carried(v, ps, j, bms, sms, delivered, es) && Undisputed(v, ps, st)
    ensures var (after, complaints) := v.Receive(bms, sms);
            var f := ResultPolynomial(Transcript(Broadcasts(ps), [], []), IndexList(ps), ps[j].threshold);
            && complaints == Returns([])
            && (after.Finalize(st).Returns?
                <==> Scale(BASE, Eval(f, 0)) != ZERO && Mod(Eval(f, ps[j].index)) != 0)
            && (after.Finalize(st).Returns? ==>
                  after.Finalize(st).value.1.body.result.qualified == IndexList(ps))
  {
    var (after, complaints) := v.Receive(bms, sms);
    CarriedMessages(v, ps, j, bms, sms, delivered, es);
    UndisputedTranscript(v, after, ps, st);
    HonestRunCompletes(ps, j, delivered, es);
    SessionOf(ps, j, delivered, es);
    hide Ready, Carried, Undisputed, PublicResultOf, Qualified, ResultPolynomial, IndexList, Broadcasts;
    assert v.SignAll<Complaint>(ps[j].session, []) == [];
    if after.Finalize(st).Returns? {
      FinalizedSet(after, st);
    }
  }

  lemma CarriedMessages(v: Validator, ps: seq<Participant>, j: nat, bms: seq<Signed<Broadcast>>,
                        sms: seq<Signed<EncryptedShare>>, delivered: seq<EncryptedShare>, es: seq<int>)
    requires j < |ps| && Carried(v, ps, j, bms, sms, delivered, es)
    ensures v.VerifiedBroadcasts(bms) == Broadcasts(ps) && v.VerifiedShares(sms) == delivered
    ensures Ready(ps, j, delivered, es)
  {
    BroadcastsExactly(v, bms);
    SharesExactly(v, sms);
    hide Picked, Ready, Broadcasts;
    PickedUnique(Bodies(bms), v.VerifiedBroadcasts(bms), Broadcasts(ps), GoodBroadcasts(v, bms));
    PickedUnique(Bodies(sms), v.VerifiedShares(sms), delivered, GoodShares(v, sms));
  }

  lemma UndisputedTranscript(v: Validator, after: Validator, ps: seq<Participant>, st: SignedTranscript)
    requires Undisputed(v, ps, st) && after.peers == v.peers
    requires v.dkg.Some? && after.dkg.Some? && after.dkg.value.session == v.dkg.value.session
    ensures after.VerifyTranscript(st) == Transcript(Broadcasts(ps), [], [])
  {
    TranscriptExactly(after, st);
    assert GoodBroadcasts(after, st.broadcasts) == GoodBroadcasts(v, st.broadcasts);
    assert GoodComplaints(after, st.complaints) == {} && GoodDisclosures(after, st.disclosed) == {};
    hide Picked, Broadcasts;
    var t := after.VerifyTranscript(st);
    PickedUnique(Bodies(st.broadcasts), t.broadcasts, Broadcasts(ps), GoodBroadcasts(v, st.broadcasts));
    PickedSize(Bodies(st.complaints), t.complaints, {});
    PickedSize(Bodies(st.disclosed), t.disclosed, {});
  }

  lemma FinalizedSet(v: Validator, st: SignedTranscript)
    requires v.dkg.Some? && v.Finalize(st).Returns?
    ensures var d := v.dkg.value;
            v.Finalize(st).value.1.body.result.qualified
            == Qualified(v.VerifyTranscript(st), d.participants, d.threshold, d.participants)
  {
    hide Qualified, SumAt, KeysAt;
  }

  // ----- Dealing -----

  /** Where the signed transport keys of participant p are. */
  ghost function KeyPositions(v: Validator, ms: seq<Signed<TransportKey>>, p: int): set<nat> {
    set i: nat | i < |ms| && ms[i].body.index == p && SignedBy(v, ms[i], p)
  }

  lemma {:induction false} KeysExactly(v: Validator, ms: seq<Signed<TransportKey>>, p: int)
    ensures Picked(Bodies(ms), v.KeysFor(p, ms), KeyPositions(v, ms, p))
  {
    if ms == [] {
      PickedNone<TransportKey>(KeyPositions(v, ms, p));
    } else {
      KeysExactly(v, ms[1..], p);
      NextBody(ms, v.KeysFor(p, ms[1..]), KeyPositions(v, ms[1..], p), KeyPositions(v, ms, p));
    }
  }

  /** One signed transport key of p is among the messages, and it holds this point. */
  ghost predicate OneKey(v: Validator, ms: seq<Signed<TransportKey>>, p: int, key: PointText) {
    |KeyPositions(v, ms, p)| == 1 && exists m :: m in ms && SignedBy(v, m, p) && m.body == TransportKey(p, key)
  }

  lemma OneKeyExactly(v: Validator, ms: seq<Signed<TransportKey>>, p: int)
    ensures |v.KeysFor(p, ms)| == |KeyPositions(v, ms, p)|
    ensures |v.KeysFor(p, ms)| == 1 ==> OneKey(v, ms, p, v.KeysFor(p, ms)[0].key)
    ensures forall key :: OneKey(v, ms, p, key) ==> v.KeysFor(p, ms) == [TransportKey(p, key)]
  {
    var keys := v.KeysFor(p, ms);
    KeysExactly(v, ms, p);
    PickedSize(Bodies(ms), keys, KeyPositions(v, ms, p));
    hide Picked;
    if |keys| == 1 {
      BodyMembers(ms, keys, KeyPositions(v, ms, p), keys[0]);
    }
    forall key | OneKey(v, ms, p, key) ensures keys == [TransportKey(p, key)] {
      BodyMembers(ms, keys, KeyPositions(v, ms, p), TransportKey(p, key));
    }
  }

  lemma SealedShareReturns(p: Participant, keys: map<int, PointText>, j: int, e: int)
    requires 0 < e < L
    ensures p.SealedShare(keys, j, e).Returns? <==> j in keys && ParsePoint(keys[j]).Returns?
    ensures p.SealedShare(keys, j, e).Returns? ==>
              var m := p.SealedShare(keys, j, e).value;
              && m.dealer == p.index && m.recipient == j
              && Encrypt(Hex(p.ShareFor(j)), keys[j], ShareContext(p.session, p.index, j), e) == Returns(m.ciphertext)
  {
    hide Horner, ShareContext;
  }

  lemma {:induction false} SealedSharesReturn(p: Participant, keys: map<int, PointText>, es: seq<int>, js: seq<int>)
    requires |js| == |es|
    ensures p.SealedShares(keys, es, js).Returns?
            <==> forall k :: 0 <= k < |js| ==> p.SealedShare(keys, js[k], es[k]).Returns?
    ensures p.SealedShares(keys, es, js).Returns? ==>
              var shares := p.SealedShares(keys, es, js).value;
              |shares| == |js| && forall k :: 0 <= k < |js| ==> p.SealedShare(keys, js[k], es[k]) == Returns(shares[k])
  {
    hide Participant.SealedShare;
    if js != [] {
      var n := |js| - 1;
      SealedSharesReturn(p, keys, es[..n], js[..n]);
      assert forall k :: 0 <= k < n ==> js[..n][k] == js[k] && es[..n][k] == es[k];
    }
  }

  /** The message carries the dealer's share for p, sealed to the one signed key of p. */
  ghost predicate DealtTo(v: Validator, ms: seq<Signed<TransportKey>>, p: int, m: Signed<EncryptedShare>, e: int)
    requires v.dkg.Some?
  {
    var d := v.dkg.value;
    && m.signer == v.index && m.session == d.session && m.genuine && m.body.dealer == d.index && m.body.recipient == p
    && exists key :: OneKey(v, ms, p, key)
                     && Encrypt(Hex(d.ShareFor(p)), key, ShareContext(d.session, d.index, p), e)
                        == Returns(m.body.ciphertext)
  }

  ghost predicate UsableKey(v: Validator, ms: seq<Signed<TransportKey>>, p: int) {
    exists key :: OneKey(v, ms, p, key) && ParsePoint(key).Returns?
  }

  lemma TableKeys(v: Validator, ms: seq<Signed<TransportKey>>, p: int)
    requires v.dkg.Some? && v.HasEveryKey(ms) && p in v.dkg.value.participants
    ensures p in ProtocolRuns.KeyTable(v, ms) && OneKey(v, ms, p, ProtocolRuns.KeyTable(v, ms)[p])
    ensures UsableKey(v, ms, p) <==> ParsePoint(ProtocolRuns.KeyTable(v, ms)[p]).Returns?
  {
    OneKeyExactly(v, ms, p);
    hide OneKey, ParsePoint;
    assert |v.KeysFor(p, ms)| == 1;
  }

  lemma EveryKey(v: Validator, ms: seq<Signed<TransportKey>>)
    requires v.dkg.Some? && forall p :: p in v.dkg.value.participants ==> UsableKey(v, ms, p)
    ensures v.HasEveryKey(ms)
  {
    forall p | p in v.dkg.value.participants ensures |v.KeysFor(p, ms)| == 1 {
      OneKeyExactly(v, ms, p);
      assert UsableKey(v, ms, p);
    }
  }

  lemma DealUnfolds(v: Validator, ms: seq<Signed<TransportKey>>, es: seq<int>)
    requires v.dkg.Some? && |es| == |v.dkg.value.participants|
    ensures var d := v.dkg.value;
            v.Deal(ms, es)
            == if !v.HasEveryKey(ms) then Throws
               else
                 match d.SealedShares(ProtocolRuns.KeyTable(v, ms), es, d.participants)
                 case Throws => Throws
                 case Returns(shares) =>
                   Returns((Signed(v.index, d.session, d.OwnBroadcast(), true), v.SignAll(d.session, shares)))
  {
  }

  lemma ShareDealt(v: Validator, ms: seq<Signed<TransportKey>>, p: int, e: int)
    requires v.dkg.Some? && v.HasEveryKey(ms) && p in v.dkg.value.participants && 0 < e < L
    ensures var (d, share) := (v.dkg.value, v.dkg.value.SealedShare(ProtocolRuns.KeyTable(v, ms), p, e));
            && (share.Returns? <==> UsableKey(v, ms, p))
            && (share.Returns? ==> DealtTo(v, ms, p, Signed(v.index, d.session, share.value, true), e))
  {
    TableKeys(v, ms, p);
    SealedShareReturns(v.dkg.value, ProtocolRuns.KeyTable(v, ms), p, e);
    hide OneKey, UsableKey, ParsePoint, Encrypt, Horner, ShareContext, Participant.SealedShare, ProtocolRuns.KeyTable;
  }

  /** A validator that has begun deals if and only if every participant's one signed
      transport key is a point. Its broadcast and its shares are then signed, each share
      the participant's own and sealed to that key. */
  lemma DealExactly(v: Validator, ms: seq<Signed<TransportKey>>, es: seq<int>)
    requires v.dkg.Some? && |es| == |v.dkg.value.participants| && ProtocolRuns.RandomScalars(es)
    ensures v.Deal(ms, es).Returns? <==> forall p :: p in v.dkg.value.participants ==> UsableKey(v, ms, p)
    ensures v.Deal(ms, es).Returns? ==>
              var (d, (b, shares)) := (v.dkg.value, v.Deal(ms, es).value);
              && b == Signed(v.index, d.session, d.OwnBroadcast(), true) && |shares| == |d.participants|
              && forall k :: 0 <= k < |shares| ==> DealtTo(v, ms, d.participants[k], shares[k], es[k])
  {
    var d := v.dkg.value;
    DealUnfolds(v, ms, es);
    hide Validator.Deal, Validator.HasEveryKey, Participant.SealedShare, Participant.SealedShares, DealtTo, UsableKey;
    if !v.HasEveryKey(ms) {
      if forall p :: p in d.participants ==> UsableKey(v, ms, p) {
        EveryKey(v, ms);
      }
    } else {
      SealedSharesReturn(d, ProtocolRuns.KeyTable(v, ms), es, d.participants);
      forall k | 0 <= k < |d.participants|
        ensures var (p, share) := (d.participants[k],
                                   d.SealedShare(ProtocolRuns.KeyTable(v, ms), d.participants[k], es[k]));
                && (share.Returns? <==> UsableKey(v, ms, p))
                && (share.Returns? ==> DealtTo(v, ms, p, Signed(v.index, d.session, share.value, true), es[k]))
      {
        ShareDealt(v, ms, d.participants[k], es[k]);
      }
    }
  }

  // ----- Beginning and ending a session -----

  /** A validator begins a session if and only if it holds no key share, knows all
      participants, is one of them, and the threshold is between 1 and their number. It
      then has a fresh participant, and signs the image of its transport secret. */
  lemma BeginExactly(v: Validator, session: string, threshold: int, participants: seq<int>, secret: int,
                     coeffs: seq<int>)
    ensures v.Begin(session, threshold, participants, secret, coeffs).Returns?
            <==> && v.keyShare.None? && v.index in participants && 1 <= threshold <= |participants|
                 && forall k :: 0 <= k < |participants| ==> participants[k] in v.peers
    ensures v.Begin(session, threshold, participants, secret, coeffs).Returns? ==>
              var (after, m) := v.Begin(session, threshold, participants, secret, coeffs).value;
              && after.dkg.Some? && after == v.(dkg := after.dkg)
              && var d := after.dkg.value;
                 && d.index == v.index && d.session == session && d.threshold == threshold
                 && d.participants == participants && d.transportSecret == secret && d.coeffs == coeffs
                 && d.received == map[]
                 && m.signer == v.index && m.genuine && m.session == session && m.body.index == v.index
                 && m.body.key == Encoded(Scale(BASE, secret))
  {
    hide Horner;
  }

  /** What a validator keeps at the end is what it signed: the keys of the result of the
      transcript that it hashed, and the secret behind its own verification key. */
  lemma KeptIsSigned(v: Validator, st: SignedTranscript)
    requires v.dkg.Some? && v.dkg.value.index == v.index && v.Finalize(st).Returns?
    ensures var (d, t, (after, m)) := (v.dkg.value, v.VerifyTranscript(st), v.Finalize(st).value);
            && m.signer == v.index && m.genuine && m.session == d.session && m.body.hash == TranscriptHash(t)
            && PublicResultOf(t, d.participants, d.threshold) == Returns(m.body.result)
            && after.index == v.index && after.peers == v.peers && after.dkg.None?
            && after.keyInfo == Some(KeyInfo(d.threshold, d.participants, m.body.result.groupPublicKey,
                                             m.body.result.verificationKeys))
            && after.keyShare.Some? && after.keyShare.value.index == v.index
            && HexToScalar(after.keyShare.value.secret).Returns?
            && v.index in m.body.result.verificationKeys
            && Scale(BASE, after.keyShare.value.secret.number) == m.body.result.verificationKeys[v.index]
            && after.keyShare.value.verificationKey == Encoded(m.body.result.verificationKeys[v.index])
  {
    hide Qualified, SumAt, KeysAt, Scale, Validator.VerifyTranscript, Participant.SumShares;
  }
}
