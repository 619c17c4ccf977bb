/** The objects that run the key generation, refining the state machine on values. */
module LocalValidators {
  import opened Residues
  import opened Outcomes
  import opened Group
  import opened Threshold
  import opened OrderCipher
  import opened Dkg
  import opened Participants
  import opened Validators
  import KeyGeneration
  import ProtocolRuns

  class DkgParticipant {
    const index: int
    const threshold: nat
    const participants: seq<int>
    const session: string
    const transportSecret: int
    const coeffs: seq<int>
    var received: map<int, ScalarText>

    function View(): Participant
      reads this
    {
      Participant(index, threshold, participants, session, transportSecret, coeffs, received)
    }

    constructor (index: int, threshold: nat, participants: seq<int>, session: string, secret: int, coeffs: seq<int>)
      requires CanBegin(index, threshold, participants)
      ensures View() == Participant(index, threshold, participants, session, secret, coeffs, map[])
    {
      this.index, this.threshold, this.participants, this.session := index, threshold, participants, session;
      this.transportSecret, this.coeffs, this.received := secret, coeffs, map[];
    }

    /** Round 1: one sealed share per participant, in participant order. */
    method Deal(keys: map<int, PointText>, randoms: seq<int>) returns (r: Outcome<(Broadcast, seq<EncryptedShare>)>)
      requires |randoms| == |participants|
      ensures r == (match View().SealedShares(keys, randoms, participants)
                    case Throws => Throws
                    case Returns(shares) => Returns((View().OwnBroadcast(), shares)))
    {
      hide Encrypt, ShareContext, Horner;
      var shares: seq<EncryptedShare> := [];
      for n := 0 to |participants|
        invariant View().SealedShares(keys, randoms[..n], participants[..n]) == Returns(shares)
      {
        assert participants[..n + 1][..n] == participants[..n] && randoms[..n + 1][..n] == randoms[..n];
        var s := View().SealedShare(keys, participants[n], randoms[n]);
        if s.Throws? {
          SealedPrefix(View(), keys, randoms, participants, n + 1);
          return Throws;
        }
        shares := shares + [s.value];
      }
      assert participants[..|participants|] == participants && randoms[..|participants|] == randoms;
      return Returns((View().OwnBroadcast(), shares));
    }

    /** Round 2: decrypts and checks the share of every dealer, and complains. */
    method Receive(broadcasts: seq<Broadcast>, shares: seq<EncryptedShare>) returns (r: Outcome<seq<Complaint>>)
      modifies this
      ensures var p := old(View()).Receive(broadcasts, shares, participants);
              received == p.received && r == if p.aborted then Throws else Returns(p.complaints)
    {
      var complaints: seq<Complaint> := [];
      ghost var start := View();
      for n := 0 to |participants|
        invariant start.Receive(broadcasts, shares, participants[..n]) == Progress(received, complaints, false)
      {
        assert participants[..n + 1][..n] == participants[..n];
        ReceivePrefix(start, broadcasts, shares, participants, n + 1);
        var dealer := participants[n];
        var commitments := ParseCommitments(First(From(broadcasts, dealer)), threshold);
        var msg := First(Addressed(shares, dealer, index));
        if commitments.Some? && msg.None? {
          return Throws;
        }
        var share := None;
        if commitments.Some? && msg.Some? {
          var opened' := View().Open(msg.value.ciphertext, dealer);
          if opened'.Returns? {
            share := Some(opened'.value);
          }
        }
        if share.Some? && commitments.Some? && ShareMatches(share.value, commitments.value, index) {
          received := received[dealer := share.value];
        } else if commitments.Some? {
          complaints := complaints + [Complaint(index, dealer)];
        }
      }
      assert participants[..|participants|] == participants;
      return Returns(complaints);
    }

    /** Round 4: the public result, then the sum of the shares of the qualified dealers. */
    method Finalize(t: Transcript) returns (r: Outcome<(KeyShare, PublicResult)>)
      ensures r == View().Finalize(t)
    {
      var result := ComputePublicResult(t, participants, threshold);
      if result.Throws? {
        return Throws;
      }
      var sum := SumShares(t, result.value.qualified);
      if sum.Throws? || sum.value <= 0 || sum.value >= L {
        return Throws;
      }
      var vk := Scale(BASE, sum.value);
      if index !in result.value.verificationKeys || vk != result.value.verificationKeys[index] {
        return Throws;
      }
      return Returns((KeyShare(index, ScalarToHex(sum.value), Encoded(vk)), result.value));
    }

    /** The loop of `Finalize` over the qualified dealers. */
    method SumShares(t: Transcript, q: seq<int>) returns (r: Outcome<int>)
      ensures r == View().SumShares(t, q)
    {
      var y := 0;
      for n := 0 to |q|
        invariant View().SumShares(t, q[..n]) == Returns(y)
      {
        assert q[..n + 1][..n] == q[..n];
        SumPrefixThrows(View(), t, q, n + 1);
        var s := View().ShareFrom(t, q[n]);
        if s.None? {
          return Throws;
        }
        var number := HexToScalar(s.value);
        if number.Throws? {
          return Throws;
        }
        y := Mod(y + number.value);
      }
      assert q[..|q|] == q;
      return Returns(y);
    }
  }

  lemma {:induction false} SealedPrefix(p: Participant, keys: map<int, PointText>, randoms: seq<int>, js: seq<int>,
                                        n: nat)
    requires |js| == |randoms| && n <= |js| && p.SealedShares(keys, randoms[..n], js[..n]).Throws?
    ensures p.SealedShares(keys, randoms, js).Throws?
  {
    hide Encrypt, ShareContext, Horner;
    if n == |js| {
      assert js[..n] == js && randoms[..n] == randoms;
    } else {
      var m := |js| - 1;
      assert js[..m][..n] == js[..n] && randoms[..m][..n] == randoms[..n];
      SealedPrefix(p, keys, randoms[..m], js[..m], n);
    }
  }

  lemma {:induction false} ReceivePrefix(p: Participant, bs: seq<Broadcast>, ms: seq<EncryptedShare>, js: seq<int>,
                                         n: nat)
    requires n <= |js|
    ensures p.Receive(bs, ms, js[..n]).aborted ==> p.Receive(bs, ms, js) == p.Receive(bs, ms, js[..n])
  {
    if n == |js| {
      assert js[..n] == js;
    } else {
      var m := |js| - 1;
      assert js[..m][..n] == js[..n];
      ReceivePrefix(p, bs, ms, js[..m], n);
    }
  }

  lemma {:induction false} SumPrefixThrows(p: Participant, t: Transcript, js: seq<int>, n: nat)
    requires n <= |js|
    ensures p.SumShares(t, js[..n]).Throws? ==> p.SumShares(t, js).Throws?
  {
    if n == |js| {
      assert js[..n] == js;
    } else {
      var m := |js| - 1;
      assert js[..m][..n] == js[..n];
      SumPrefixThrows(p, t, js[..m], n);
    }
  }

  /** The complainer signed, for this session, a complaint against the dealer. */
  ghost predicate Accuses(v: Validator, complaints: seq<Signed<Complaint>>, complainer: int, dealer: int) {
    exists m :: m in complaints && v.Accepts(m, complainer) && m.body == Complaint(complainer, dealer)
  }

  lemma {:induction false} VerifiedHas(v: Validator, ms: seq<Signed<Complaint>>, m: Signed<Complaint>)
    requires m in ms && v.Accepts(m, m.body.complainer)
    ensures m.body in v.VerifiedComplaints(ms)
  {
    if m != ms[0] {
      VerifiedHas(v, ms[1..], m);
    }
  }

  /** Every disclosure is signed for this session, is the dealer's share, and answers
      someone who genuinely accused this dealer. */
  ghost predicate OnlyAnswers(v: Validator, complaints: seq<Signed<Complaint>>, ms: seq<Signed<Reveal>>)
    requires v.dkg.Some?
  {
    var d := v.dkg.value;
    forall m :: m in ms ==>
      && m.genuine && m.signer == v.index && m.session == d.session
      && m.body == Reveal(d.index, m.body.recipient, Hex(d.ShareFor(m.body.recipient)))
      && Accuses(v, complaints, m.body.recipient, d.index)
  }

  /** Everyone who genuinely accused this dealer is answered. */
  ghost predicate AllAnswered(v: Validator, complaints: seq<Signed<Complaint>>, ms: seq<Signed<Reveal>>)
    requires v.dkg.Some?
  {
    forall j :: Accuses(v, complaints, j, v.dkg.value.index) ==> exists m :: m in ms && m.body.recipient == j
  }

  lemma OnlyGenuineAnswered(v: Validator, complaints: seq<Signed<Complaint>>)
    requires v.dkg.Some?
    ensures OnlyAnswers(v, complaints, v.Respond(complaints).value)
    ensures AllAnswered(v, complaints, v.Respond(complaints).value)
  {
    hide Horner;
    var (d, verified) := (v.dkg.value, v.VerifiedComplaints(complaints));
    var (answers, ms) := (d.Respond(verified), v.Respond(complaints).value);
    forall m | m in ms
      ensures m.body == Reveal(d.index, m.body.recipient, Hex(d.ShareFor(m.body.recipient)))
      ensures Accuses(v, complaints, m.body.recipient, d.index)
    {
      ProtocolRuns.RespondOrigin(d, verified, m.body);
      ProtocolRuns.VerifiedComplaintOrigin(v, complaints, Complaint(m.body.recipient, d.index));
    }
    forall j | Accuses(v, complaints, j, d.index) ensures exists m :: m in ms && m.body.recipient == j {
      var m :| m in complaints && v.Accepts(m, j) && m.body == Complaint(j, d.index);
      VerifiedHas(v, complaints, m);
      KeyGeneration.RespondAnswers(d, verified, j);
      var k :| 0 <= k < |answers| && answers[k] == Reveal(d.index, j, Hex(d.ShareFor(j)));
      assert ms[k].body == answers[k];
    }
  }

  class LocalValidator {
    const index: int
    const peers: set<int>
    var keyShare: Option<KeyShare>
    var keyInfo: Option<KeyInfo>
    var dkg: DkgParticipant?

    function View(): Validator
      reads this, dkg
    {
      Validator(index, peers, keyShare, keyInfo, if dkg == null then None else Some(dkg.View()))
    }

    constructor (index: int, peers: set<int>)
      ensures View() == Validator(index, peers, None, None, None)
    {
      this.index, this.peers := index, peers;
      keyShare, keyInfo, dkg := None, None, null;
    }

    method DkgBegin(session: string, threshold: int, participants: seq<int>, secret: int, coeffs: seq<int>)
      returns (r: Outcome<Signed<TransportKey>>)
      modifies this
      ensures match old(View()).Begin(session, threshold, participants, secret, coeffs)
              case Throws => r == Throws && View() == old(View())
              case Returns((v, m)) => r == Returns(m) && View() == v && fresh(dkg)
    {
      if keyShare.Some? {
        return Throws;
      }
      for k := 0 to |participants|
        invariant forall n :: 0 <= n < k ==> participants[n] in peers
      {
        if participants[k] !in peers {
          return Throws;
        }
      }
      if threshold < 1 || !CanBegin(index, threshold, participants) {
        return Throws;
      }
      dkg := new DkgParticipant(index, threshold, participants, session, secret, coeffs);
      return Returns(Signed(index, session, TransportKey(index, Encoded(dkg.View().TransportPublicKey())), true));
    }

    method DkgDeal(keys: seq<Signed<TransportKey>>, randoms: seq<int>)
      returns (r: Outcome<(Signed<Broadcast>, seq<Signed<EncryptedShare>>)>)
      requires dkg != null ==> |randoms| == |dkg.participants|
      ensures r == View().Deal(keys, randoms)
    {
      if dkg == null {
        return Throws;
      }
      var table: map<int, PointText> := map[];
      for n := 0 to |dkg.participants|
        invariant forall p :: p in dkg.participants[..n] ==> |View().KeysFor(p, keys)| == 1
        invariant table.Keys == set p | p in dkg.participants[..n]
        invariant forall p :: p in dkg.participants[..n] ==> table[p] == View().KeysFor(p, keys)[0].key
      {
        var p := dkg.participants[n];
        var mine := View().KeysFor(p, keys);
        if |mine| != 1 {
          assert p in dkg.participants;
          return Throws;
        }
        table := table[p := mine[0].key];
        assert dkg.participants[..n + 1] == dkg.participants[..n] + [p];
      }
      assert dkg.participants[..|dkg.participants|] == dkg.participants;
      assert table == map p | p in dkg.participants :: View().KeysFor(p, keys)[0].key;
      var dealt := dkg.Deal(table, randoms);
      if dealt.Throws? {
        return Throws;
      }
      var (b, shares) := dealt.value;
      return Returns((Signed(index, dkg.session, b, true), View().SignAll(dkg.session, shares)));
    }

    method DkgReceive(broadcasts: seq<Signed<Broadcast>>, shares: seq<Signed<EncryptedShare>>)
      returns (r: Outcome<seq<Signed<Complaint>>>)
      modifies dkg
      ensures var (v, out) := old(View()).Receive(broadcasts, shares);
              View() == v && r == out
    {
      if dkg == null {
        return Throws;
      }
      var complaints := dkg.Receive(View().VerifiedBroadcasts(broadcasts), View().VerifiedShares(shares));
      if complaints.Throws? {
        return Throws;
      }
      return Returns(View().SignAll(dkg.session, complaints.value));
    }

    /** Discloses this dealer's share for every genuine complaint of the session against
        it, and nothing else. */
    method DkgRespond(complaints: seq<Signed<Complaint>>) returns (r: Outcome<seq<Signed<Reveal>>>)
      ensures r == View().Respond(complaints)
      ensures r.Throws? <==> dkg == null
      ensures r.Returns? ==> OnlyAnswers(View(), complaints, r.value) && AllAnswered(View(), complaints, r.value)
    {
      if dkg == null {
        return Throws;
      }
      OnlyGenuineAnswered(View(), complaints);
      hide OnlyAnswers, AllAnswered;
      return Returns(View().SignAll(dkg.session, dkg.View().Respond(View().VerifiedComplaints(complaints))));
    }

    method DkgFinalize(st: SignedTranscript) returns (r: Outcome<Signed<ResultStatement>>)
      modifies this
      ensures match old(View()).Finalize(st)
              case Throws => r == Throws && View() == old(View())
              case Returns((v, m)) => r == Returns(m) && View() == v
    {
      if dkg == null {
        return Throws;
      }
      var t := View().VerifyTranscript(st);
      var out := dkg.Finalize(t);
      if out.Throws? {
        return Throws;
      }
      var (share, result) := out.value;
      var session := dkg.session;
      keyShare := Some(share);
      keyInfo := Some(KeyInfo(result.threshold, dkg.participants, result.groupPublicKey, result.verificationKeys));
      dkg := null;
      return Returns(Signed(index, session, ResultStatement(TranscriptHash(t), result), true));
    }
  }
}
