/** The coordinator that routes the rounds of a key generation and compares the
    validators' signed results at the end. */
module KeyCeremony {
  import opened Collections
  import opened Residues
  import opened Lagrange
  import opened Outcomes
  import opened Group
  import opened Threshold
  import opened Dkg
  import opened Participants
  import opened KeyGeneration
  import opened Robustness
  import opened HonestRun
  import opened Validators

  type Dealing = (Signed<Broadcast>, seq<Signed<EncryptedShare>>)

  /** What the nodes answered in each round, node by node. */
  datatype Answers = Answers(begun: seq<Outcome<Signed<TransportKey>>>,
                             dealt: seq<Outcome<Dealing>>,
                             received: seq<Outcome<seq<Signed<Complaint>>>>,
                             responded: seq<Outcome<seq<Signed<Reveal>>>>,
                             finalized: seq<Outcome<Signed<ResultStatement>>>)

  /** `Promise.all`: one failure fails all. */
  function All<T>(answers: seq<Outcome<T>>): Outcome<seq<T>> {
    if answers == [] then Returns([])
    else
      var front :- All(answers[..|answers| - 1]);
      var last :- answers[|answers| - 1];
      Returns(front + [last])
  }

  function Flat<T>(lists: seq<seq<T>>): seq<T> {
    if lists == [] then [] else Flat(lists[..|lists| - 1]) + lists[|lists| - 1]
  }

  /** The broadcasts and the shares of those that dealt. */
  function Dealt(answers: seq<Outcome<Dealing>>): (seq<Signed<Broadcast>>, seq<Signed<EncryptedShare>>) {
    if answers == [] then ([], [])
    else
      var (bs, ss) := Dealt(answers[..|answers| - 1]);
      match answers[|answers| - 1]
      case Throws => (bs, ss)
      case Returns((b, shares)) => (bs + [b], ss + shares)
  }

  /** The shares handed to one node: those addressed to it. */
  function SharesTo(shares: seq<Signed<EncryptedShare>>, index: int): seq<Signed<EncryptedShare>> {
    if shares == [] then []
    else
      var last := shares[|shares| - 1];
      SharesTo(shares[..|shares| - 1], index) + if last.body.recipient == index then [last] else []
  }

  ghost function AddressedTo(shares: seq<Signed<EncryptedShare>>, index: int): set<nat> {
    set k: nat | k < |shares| && shares[k].body.recipient == index
  }

  lemma {:induction false} SharesToExactly(shares: seq<Signed<EncryptedShare>>, index: int)
    ensures Picked(shares, SharesTo(shares, index), AddressedTo(shares, index))
  {
    if shares == [] {
      PickedNone<Signed<EncryptedShare>>(AddressedTo(shares, index));
    } else {
      var n := |shares| - 1;
      SharesToExactly(shares[..n], index);
      hide Picked;
      PickedLast(shares, SharesTo(shares[..n], index), AddressedTo(shares[..n], index), AddressedTo(shares, index));
    }
  }

  /** The statement is signed by its signer and agrees with the first one. */
  predicate Agrees(first: ResultStatement, s: Signed<ResultStatement>) {
    s.genuine && s.body.result.groupPublicKey == first.result.groupPublicKey && s.body.hash == first.hash
  }

  predicate AllAgree(statements: seq<Signed<ResultStatement>>) {
    statements != [] && forall k :: 0 <= k < |statements| ==> Agrees(statements[0].body, statements[k])
  }

  /** The transcript that the coordinator puts together and hands to everyone at the end. */
  function TranscriptOf(a: Answers): Outcome<SignedTranscript> {
    var complaints :- All(a.received);
    var disclosed :- All(a.responded);
    Returns(SignedTranscript(Dealt(a.dealt).0, Flat(complaints), Flat(disclosed)))
  }

  /** Every round went through and the signed results agree. */
  predicate RunSucceeds(a: Answers, threshold: nat) {
    && All(a.begun).Returns? && |Dealt(a.dealt).0| >= threshold
    && TranscriptOf(a).Returns? && All(a.finalized).Returns? && AllAgree(All(a.finalized).value)
  }

  /** What a run that succeeds returns: the result in the first statement, and the transcript. */
  function Returned(a: Answers): (PublicResult, SignedTranscript)
    requires TranscriptOf(a).Returns? && All(a.finalized).Returns? && All(a.finalized).value != []
  {
    (All(a.finalized).value[0].body.result, TranscriptOf(a).value)
  }

  lemma {:induction false} FlatJoins<T>(lists: seq<seq<T>>)
    ensures Joined(Flat(lists), lists)
  {
    if lists == [] {
      JoinedNone<T>();
    } else {
      FlatJoins(lists[..|lists| - 1]);
      JoinedNext(Flat(lists[..|lists| - 1]), lists);
    }
  }

  lemma {:induction false} AllExactly<T>(answers: seq<Outcome<T>>)
    ensures All(answers).Returns? <==> forall k :: 0 <= k < |answers| ==> answers[k].Returns?
    ensures All(answers).Returns? ==>
              |All(answers).value| == |answers|
              && forall k :: 0 <= k < |answers| ==> answers[k] == Returns(All(answers).value[k])
  {
    if answers != [] {
      AllExactly(answers[..|answers| - 1]);
      assert forall k :: 0 <= k < |answers| - 1 ==> answers[..|answers| - 1][k] == answers[k];
    }
  }

  /** The broadcasts of the nodes that dealt, as one list for each node. */
  function DealtBy(answers: seq<Outcome<Dealing>>): (r: seq<seq<Signed<Broadcast>>>)
    ensures |r| == |answers|
  {
    seq(|answers|, k requires 0 <= k < |answers| => if answers[k].Returns? then [answers[k].value.0] else [])
  }

  lemma {:induction false} DealtJoins(answers: seq<Outcome<Dealing>>)
    ensures Joined(Dealt(answers).0, DealtBy(answers))
  {
    if answers == [] {
      JoinedNone<Signed<Broadcast>>();
    } else {
      var n := |answers| - 1;
      DealtJoins(answers[..n]);
      assert DealtBy(answers)[..n] == DealtBy(answers[..n]);
      JoinedNext(Dealt(answers[..n]).0, DealtBy(answers));
      assert Dealt(answers[..n]).0 + [] == Dealt(answers[..n]).0;
    }
  }

  /** The transcript holds, node by node, the broadcast of every node that dealt, and what
      each node complained and disclosed; it exists if every node answered these rounds. */
  lemma TranscriptExactly(a: Answers)
    ensures TranscriptOf(a).Returns?
            <==> && (forall k :: 0 <= k < |a.received| ==> a.received[k].Returns?)
                 && (forall k :: 0 <= k < |a.responded| ==> a.responded[k].Returns?)
    ensures TranscriptOf(a).Returns? ==>
              var st := TranscriptOf(a).value;
              && Joined(st.broadcasts, DealtBy(a.dealt))
              && (exists lists :: Joined(st.complaints, lists) && Answered(a.received, lists))
              && (exists lists :: Joined(st.disclosed, lists) && Answered(a.responded, lists))
  {
    AllExactly(a.received);
    AllExactly(a.responded);
    if TranscriptOf(a).Returns? {
      DealtJoins(a.dealt);
      FlatJoins(All(a.received).value);
      FlatJoins(All(a.responded).value);
      hide Joined, Flat, Dealt, All, DealtBy;
      assert Answered(a.received, All(a.received).value) && Answered(a.responded, All(a.responded).value);
    }
  }

  ghost predicate Answered<T>(answers: seq<Outcome<T>>, values: seq<T>) {
    |values| == |answers| && forall k :: 0 <= k < |answers| ==> answers[k] == Returns(values[k])
  }

  ghost function Dealers(answers: seq<Outcome<Dealing>>): set<nat> {
    set k: nat | k < |answers| && answers[k].Returns?
  }

  lemma {:induction false} DealersCount(answers: seq<Outcome<Dealing>>)
    ensures |Dealt(answers).0| == |Dealers(answers)|
  {
    if answers == [] {
      assert Dealers(answers) == {};
    } else {
      var n := |answers| - 1;
      DealersCount(answers[..n]);
      assert Dealers(answers) == Dealers(answers[..n]) + if answers[n].Returns? then {n} else {};
    }
  }

  /** A run succeeds if and only if every node begins, as many as the threshold deal, every
      node receives, responds and finalizes, and all results are signed and have the group
      key and the hash of the first one. */
  lemma SucceedsExactly(a: Answers, threshold: nat)
    ensures RunSucceeds(a, threshold)
            <==> && (forall k :: 0 <= k < |a.begun| ==> a.begun[k].Returns?)
                 && |Dealers(a.dealt)| >= threshold
                 && (forall k :: 0 <= k < |a.received| ==> a.received[k].Returns?)
                 && (forall k :: 0 <= k < |a.responded| ==> a.responded[k].Returns?)
                 && a.finalized != []
                 && forall k :: 0 <= k < |a.finalized| ==>
                      && a.finalized[k].Returns? && a.finalized[0].Returns? && a.finalized[k].value.genuine
                      && var (s, first) := (a.finalized[k].value.body, a.finalized[0].value.body);
                         s.result.groupPublicKey == first.result.groupPublicKey && s.hash == first.hash
  {
    AllExactly(a.begun);
    AllExactly(a.finalized);
    TranscriptExactly(a);
    DealersCount(a.dealt);
    hide All, Dealt, TranscriptOf, Joined, Answered;
  }

  /** `runDkg`: routing, round after round, and the final comparison. The second result is
      what each node is handed in round 2. */
  method RunDkg(nodes: seq<int>, threshold: nat, a: Answers)
    returns (r: Outcome<(PublicResult, SignedTranscript)>, handed: seq<seq<Signed<EncryptedShare>>>)
    ensures r.Returns? <==> RunSucceeds(a, threshold)
    ensures r.Returns? ==> r.value == Returned(a)
    ensures r.Returns? ==>
              |handed| == |nodes| && forall k :: 0 <= k < |nodes| ==> handed[k] == SharesTo(Dealt(a.dealt).1, nodes[k])
  {
    handed := [];
    var _ :- All(a.begun);
    var broadcasts: seq<Signed<Broadcast>>, shares: seq<Signed<EncryptedShare>> := [], [];
    for k := 0 to |a.dealt|
      invariant (broadcasts, shares) == Dealt(a.dealt[..k])
    {
      assert a.dealt[..k + 1][..k] == a.dealt[..k];
      match a.dealt[k]
      case Throws =>
      case Returns(d) =>
        broadcasts := broadcasts + [d.0];
        shares := shares + d.1;
    }
    assert a.dealt[..|a.dealt|] == a.dealt;
    if |broadcasts| < threshold {
      return Throws, [];
    }
    for k := 0 to |nodes|
      invariant |handed| == k && forall m :: 0 <= m < k ==> handed[m] == SharesTo(shares, nodes[m])
    {
      handed := handed + [SharesTo(shares, nodes[k])];
    }
    var complaints :- All(a.received);
    var disclosed :- All(a.responded);
    var transcript := SignedTranscript(broadcasts, Flat(complaints), Flat(disclosed));
    var statements :- All(a.finalized);
    if statements == [] {
      return Throws, handed;
    }
    var first := statements[0].body;
    for k := 0 to |statements|
      invariant forall m :: 0 <= m < k ==> Agrees(first, statements[m])
    {
      if !statements[k].genuine {
        return Throws, handed;
      }
      var s := statements[k].body;
      if s.result.groupPublicKey != first.result.groupPublicKey || s.hash != first.hash {
        return Throws, handed;
      }
    }
    return Returns((first.result, transcript)), handed;
  }

  lemma {:induction false} AllAt<T>(answers: seq<Outcome<T>>, k: nat)
    requires All(answers).Returns? && k < |answers|
    ensures |All(answers).value| == |answers| && answers[k] == Returns(All(answers).value[k])
  {
    AllCount(answers);
    AllCount(answers[..|answers| - 1]);
    if k < |answers| - 1 {
      AllAt(answers[..|answers| - 1], k);
    }
  }

  lemma {:induction false} AllCount<T>(answers: seq<Outcome<T>>)
    requires All(answers).Returns?
    ensures |All(answers).value| == |answers|
  {
    if answers != [] {
      AllCount(answers[..|answers| - 1]);
    }
  }

  // ----- Agreement -----

  /** The run went through, and node i is the honest validator v that finalized on
      the coordinator's transcript, in a session with these participants and threshold. */
  ghost predicate Finalized(a: Answers, i: nat, v: Validator, participants: seq<int>, threshold: nat) {
    && TranscriptOf(a).Returns? && i < |a.finalized| && v.dkg.Some?
    && v.dkg.value.participants == participants && v.dkg.value.threshold == threshold
    && v.Finalize(TranscriptOf(a).value).Returns?
    && a.finalized[i] == Returns(v.Finalize(TranscriptOf(a).value).value.1)
  }

  /** The result of a finalized validator is the public result of the transcript whose
      hash it signed, and its key share is the value of that transcript's polynomial. */
  lemma FinalizedStatement(a: Answers, i: nat, v: Validator, participants: seq<int>, threshold: nat)
    requires Finalized(a, i, v, participants, threshold)
    ensures var (after, m) := v.Finalize(TranscriptOf(a).value).value;
            var t := m.body.hash.transcript;
            && PublicResultOf(t, participants, threshold) == Returns(m.body.result)
            && after.keyShare.Some? && after.keyShare.value.index == v.dkg.value.index
            && after.keyShare.value.secret
               == Hex(Mod(Eval(ResultPolynomial(t, participants, threshold), v.dkg.value.index)))
  {
    var t := v.VerifyTranscript(TranscriptOf(a).value);
    FinalizedShareOnPolynomial(v.dkg.value, t);
  }

  lemma StatementsAgree(a: Answers, threshold: nat, i: nat)
    requires RunSucceeds(a, threshold) && i < |a.finalized|
    ensures |All(a.finalized).value| == |a.finalized| && a.finalized[i].Returns? && a.finalized[0].Returns?
    ensures a.finalized[i].value.body.hash == a.finalized[0].value.body.hash
    ensures a.finalized[i].value.body.result.groupPublicKey == a.finalized[0].value.body.result.groupPublicKey
    ensures All(a.finalized).value[0] == a.finalized[0].value
  {
    AllAt(a.finalized, i);
    AllAt(a.finalized, 0);
    assert Agrees(All(a.finalized).value[0].body, All(a.finalized).value[i]);
  }

  /** If the run succeeds, any two honest validators of the session hold the same result
      and shares of the same polynomial, and the returned group key is theirs. */
  lemma HonestAgree(a: Answers, i: nat, v: Validator, j: nat, w: Validator, participants: seq<int>, threshold: nat)
    requires RunSucceeds(a, threshold)
    requires Finalized(a, i, v, participants, threshold) && Finalized(a, j, w, participants, threshold)
    ensures var (after, m) := v.Finalize(TranscriptOf(a).value).value;
            var (after', m') := w.Finalize(TranscriptOf(a).value).value;
            var f := ResultPolynomial(m.body.hash.transcript, participants, threshold);
            && m.body.result == m'.body.result
            && after.keyShare.Some? && after'.keyShare.Some?
            && after.keyShare.value.secret == Hex(Mod(Eval(f, v.dkg.value.index)))
            && after'.keyShare.value.secret == Hex(Mod(Eval(f, w.dkg.value.index)))
            && Returned(a).0.groupPublicKey == m.body.result.groupPublicKey
  {
    FinalizedStatement(a, i, v, participants, threshold);
    FinalizedStatement(a, j, w, participants, threshold);
    StatementsAgree(a, threshold, i);
    StatementsAgree(a, threshold, j);
  }

  /** If moreover the first node is honest, the returned result is the one that every
      honest validator holds: qualified set, group key and all verification keys. */
  lemma ReturnedResultIsHeld(a: Answers, v: Validator, j: nat, w: Validator, participants: seq<int>, threshold: nat)
    requires RunSucceeds(a, threshold)
    requires Finalized(a, 0, v, participants, threshold) && Finalized(a, j, w, participants, threshold)
    ensures Returned(a).0 == w.Finalize(TranscriptOf(a).value).value.1.body.result
  {
    HonestAgree(a, 0, v, j, w, participants, threshold);
    StatementsAgree(a, threshold, 0);
  }

  // ----- What the comparison does not cover -----

  /** All nodes but the first are honest validators that finalized. */
  ghost predicate HonestElsewhere(a: Answers, honest: seq<Validator>, participants: seq<int>, threshold: nat) {
    |honest| == |a.finalized| && forall j :: 1 <= j < |honest| ==> Finalized(a, j, honest[j], participants, threshold)
  }

  /** The same answers, but the first node signs the result `lie`. */
  function WithLie(a: Answers, lie: PublicResult): Answers
    requires a.finalized != [] && a.finalized[0].Returns?
  {
    var s := a.finalized[0].value;
    a.(finalized := a.finalized[0 := Returns(s.(body := s.body.(result := lie)))])
  }

  lemma {:induction false} AllUpdate<T>(answers: seq<Outcome<T>>, v: T)
    requires answers != [] && All(answers).Returns?
    ensures |All(answers).value| == |answers|
    ensures All(answers[0 := Returns(v)]) == Returns(All(answers).value[0 := v])
  {
    AllCount(answers);
    var n := |answers| - 1;
    var changed := answers[0 := Returns(v)];
    if n > 0 {
      AllUpdate(answers[..n], v);
      assert changed[..n] == answers[..n][0 := Returns(v)];
      var (front, last) := (All(answers[..n]).value, answers[n].value);
      assert (front + [last])[0 := v] == front[0 := v] + [last];
    } else {
      assert changed[..0] == [] && answers[..0] == [] && changed[0] == Returns(v);
      assert All(answers) == Returns([] + [answers[0].value]) && All(changed) == Returns([] + [v]);
      assert All(answers).value[0 := v] == [v] == [] + [v];
    }
  }

  /** The comparison covers the group key and the hash only. With honest validators at
      all other nodes, a first node that signs any other result with the right group key
      is believed, and its result is returned. */
  lemma FirstStatementIsBelieved(a: Answers, threshold: nat, honest: seq<Validator>, participants: seq<int>,
                                 lie: PublicResult)
    requires RunSucceeds(a, threshold) && HonestElsewhere(a, honest, participants, threshold)
    requires lie.groupPublicKey == Returned(a).0.groupPublicKey
    ensures a.finalized != [] && a.finalized[0].Returns?
    ensures RunSucceeds(WithLie(a, lie), threshold)
    ensures HonestElsewhere(WithLie(a, lie), honest, participants, threshold)
    ensures Returned(WithLie(a, lie)).0 == lie
  {
    AllCount(a.finalized);
    StatementsAgree(a, threshold, 0);
    var (a', first) := (WithLie(a, lie), a.finalized[0].value);
    AllUpdate(a.finalized, first.(body := first.body.(result := lie)));
    var (before, after) := (All(a.finalized).value, All(a'.finalized).value);
    forall k | 0 <= k < |after| ensures Agrees(after[0].body, after[k]) {
      assert Agrees(before[0].body, before[k]);
    }
    forall j | 1 <= j < |honest| ensures Finalized(a', j, honest[j], participants, threshold) {
      assert Finalized(a, j, honest[j], participants, threshold);
    }
  }

  /** The transcript that a reader of the signed one accepts, who knows the session and the peers. */
  function Checked(st: SignedTranscript, session: string, peers: set<int>): Transcript {
    var reader := Participant(0, 0, [], session, 0, [], map[]);
    Validator(0, peers, None, None, Some(reader)).VerifyTranscript(st)
  }

  lemma CheckedAlike(v: Validator, st: SignedTranscript)
    requires v.dkg.Some?
    ensures v.VerifyTranscript(st) == Checked(st, v.dkg.value.session, v.peers)
  {
    var reader := Participant(0, 0, [], v.dkg.value.session, 0, [], map[]);
    var u := Validator(0, v.peers, None, None, Some(reader));
    SameBroadcasts(u, v, st.broadcasts);
    SameComplaints(u, v, st.complaints);
    SameDisclosures(u, v, st.disclosed);
  }

  /** Two validators of one session accept the same messages of others. */
  ghost predicate Alike(u: Validator, v: Validator) {
    u.dkg.Some? && v.dkg.Some? && u.dkg.value.session == v.dkg.value.session && u.peers == v.peers
  }

  lemma {:induction false} SameBroadcasts(u: Validator, v: Validator, ms: seq<Signed<Broadcast>>)
    requires Alike(u, v)
    ensures u.VerifiedBroadcasts(ms) == v.VerifiedBroadcasts(ms)
  {
    if ms != [] {
      SameBroadcasts(u, v, ms[1..]);
    }
  }

  lemma {:induction false} SameComplaints(u: Validator, v: Validator, ms: seq<Signed<Complaint>>)
    requires Alike(u, v)
    ensures u.VerifiedComplaints(ms) == v.VerifiedComplaints(ms)
  {
    if ms != [] {
      SameComplaints(u, v, ms[1..]);
    }
  }

  lemma {:induction false} SameDisclosures(u: Validator, v: Validator, ms: seq<Signed<Reveal>>)
    requires Alike(u, v)
    ensures u.VerifiedDisclosures(ms) == v.VerifiedDisclosures(ms)
  {
    if ms != [] {
      SameDisclosures(u, v, ms[1..]);
    }
  }

  /** The returned result is the one an honest validator of the session holds if and only
      if it is the public result of the returned transcript, which anyone can compute. */
  lemma ReturnedResultExactly(a: Answers, j: nat, w: Validator, participants: seq<int>, threshold: nat)
    requires RunSucceeds(a, threshold) && Finalized(a, j, w, participants, threshold)
    ensures var (result, transcript) := Returned(a);
            result == w.Finalize(transcript).value.1.body.result
            <==> PublicResultOf(Checked(transcript, w.dkg.value.session, w.peers), participants, threshold)
                 == Returns(result)
  {
    FinalizedStatement(a, j, w, participants, threshold);
    CheckedAlike(w, TranscriptOf(a).value);
  }

  // ----- A run in which the first node lies -----

  /** The dealer: a constant polynomial, so every share is 1. */
  function Dealer(): Participant {
    Participant(1, 1, [1, 2], "s", 1, [1], map[])
  }

  function Recipient(): Participant {
    Participant(2, 1, [1, 2], "s", 1, [1], map[])
  }

  /** The share for participant 2, sealed with the ephemeral scalar 1. */
  function SealedToTwo(): Outcome<EncryptedShare> {
    Dealer().SealedShare(map[2 := Encoded(Recipient().TransportPublicKey())], 2, 1)
  }

  lemma DealerFacts()
    ensures Dealer().Valid() && Recipient().Valid() && Dealer().ShareFor(2) == 1
    ensures Dealer().OwnBroadcast() == Broadcast(1, [Encoded(BASE)])
  {
    ScaleBase(1);
    ModSmall(1);
    assert [1][1..] == [];
    assert Commit([1]) == [BASE];
  }

  /** Participant 2 stores the dealer's share and accuses nobody. */
  lemma RecipientReceives()
    ensures SealedToTwo().Returns?
    ensures Recipient().Receive([Dealer().OwnBroadcast()], [SealedToTwo().value], [1, 2])
            == Progress(map[1 := Hex(1)], [], false)
  {
    var (d, p) := (Dealer(), Recipient());
    DealerFacts();
    ScaleBase(1);
    MixedBeginnings(d, d, p, map[2 := Encoded(p.TransportPublicKey())], 1, Progress(map[], [], false));
    hide Horner, Commit;
    var (bs, ms) := ([d.OwnBroadcast()], [SealedToTwo().value]);
    assert [1, 2][..1] == [1] && [1][..0] == [];
    assert p.Receive(bs, ms, []) == Progress(map[], [], false);
    assert p.Receive(bs, ms, [1]) == Progress(map[1 := Hex(1)], [], false);
    assert bs[1..] == [] && From(bs, 2) == [];
    assert p.ReceiveFrom(bs, ms, p.Receive(bs, ms, [1]), 2) == p.Receive(bs, ms, [1]);
  }

  /** The honest validator 2 after it received. */
  function Second(): Validator {
    Validator(2, {1, 2}, None, None, Some(Recipient().(received := map[1 := Hex(1)])))
  }

  function OneBroadcast(): SignedTranscript {
    SignedTranscript([Signed(1, "s", Broadcast(1, [Encoded(BASE)]), true)], [], [])
  }

  lemma SecondVerifies()
    ensures Second().VerifyTranscript(OneBroadcast()) == Transcript([Broadcast(1, [Encoded(BASE)])], [], [])
  {
    assert OneBroadcast().broadcasts[1..] == [];
  }

  lemma OnlyDealerQualifies(t: Transcript)
    requires t == Transcript([Broadcast(1, [Encoded(BASE)])], [], [])
    ensures Qualified(t, [1, 2], 1, [1, 2]) == [1]
  {
    OneDealer(t.broadcasts);
    hide CommitmentsOf;
    assert Qualifies(t, [1, 2], 1, 1) && !Qualifies(t, [1, 2], 1, 2);
    hide Qualifies;
    assert [1, 2][..1] == [1] && [1][..0] == [];
    assert Qualified(t, [1, 2], 1, [1]) == [1];
  }

  lemma KeysAreBase(t: Transcript, j: int)
    requires t == Transcript([Broadcast(1, [Encoded(BASE)])], [], [])
    ensures AllParsed(t, 1, [1]) && SumAt(t, 1, [1], j) == BASE
  {
    OneDealer(t.broadcasts);
    assert Logs([BASE])[1..] == [] && Eval(Logs([BASE]), j) == 1;
    ModSmall(1);
    hide CommitmentsOf, Mod;
    assert [1][..0] == [];
    assert SumAt(t, 1, [1], j) == Add(SumAt(t, 1, [], j), CommittedAt([BASE], j));
  }

  lemma ResultIsBase(t: Transcript)
    requires t == Transcript([Broadcast(1, [Encoded(BASE)])], [], [])
    ensures PublicResultOf(t, [1, 2], 1) == Returns(PublicResult(1, [1], BASE, map[1 := BASE, 2 := BASE]))
  {
    OnlyDealerQualifies(t);
    KeysAreBase(t, 0);
    KeysAreBase(t, 1);
    KeysAreBase(t, 2);
    hide SumAt, Qualified;
    assert KeysAt(t, 1, [1], [1, 2]) == map[1 := BASE, 2 := BASE];
  }

  lemma SecondSums(t: Transcript)
    ensures Second().dkg.value.SumShares(t, [1]) == Returns(1)
  {
    var p := Second().dkg.value;
    ModSmall(1);
    assert [1][..0] == [] && p.SumShares(t, []) == Returns(0);
  }

  lemma SecondFinalizes()
    ensures Second().Finalize(OneBroadcast()).Returns?
    ensures Second().Finalize(OneBroadcast()).value.1.genuine
    ensures Second().Finalize(OneBroadcast()).value.1.body.result
            == PublicResult(1, [1], BASE, map[1 := BASE, 2 := BASE])
  {
    var (p, t) := (Second().dkg.value, Transcript([Broadcast(1, [Encoded(BASE)])], [], []));
    SecondVerifies();
    ResultIsBase(t);
    SecondSums(t);
    ScaleBase(1);
    hide PublicResultOf, Scale, OneBroadcast, Qualified;
    assert Scale(BASE, 1) == BASE && p.Finalize(t).Returns?;
  }

  /** Node 1 dealt and node 2 did not. At the end node 1 signs `result`, and node 2 its own. */
  function TwoNodes(result: PublicResult): Answers
    requires SealedToTwo().Returns? && Second().Finalize(OneBroadcast()).Returns?
  {
    var m := Second().Finalize(OneBroadcast()).value.1;
    Answers([Returns(Signed(1, "s", TransportKey(1, Encoded(Dealer().TransportPublicKey())), true)),
             Returns(Signed(2, "s", TransportKey(2, Encoded(Recipient().TransportPublicKey())), true))],
            [Returns((OneBroadcast().broadcasts[0], [Signed(1, "s", SealedToTwo().value, true)])), Throws],
            [Returns([]), Returns([])], [Returns([]), Returns([])],
            [Returns(Signed(1, "s", m.body.(result := result), true)), Returns(m)])
  }

  lemma {:induction false} AllTwo<T>(x: T, y: T)
    ensures All([Returns(x), Returns(y)]) == Returns([x, y])
  {
    var answers := [Returns(x), Returns(y)];
    assert answers[..1] == [Returns(x)] && answers[..1][..0] == [];
    assert All(answers[..1]) == Returns([] + [x]);
    assert [] + [x] + [y] == [x, y];
  }

  lemma FlatNothing<T>()
    ensures Flat<T>([[], []]) == []
  {
    var lists: seq<seq<T>> := [[], []];
    assert lists[..1] == [[]] && lists[..1][..0] == [];
  }

  lemma TranscriptOfTwo(result: PublicResult)
    requires SealedToTwo().Returns? && Second().Finalize(OneBroadcast()).Returns?
    ensures TranscriptOf(TwoNodes(result)) == Returns(OneBroadcast()) && |Dealt(TwoNodes(result).dealt).0| == 1
  {
    AllTwo<seq<Signed<Complaint>>>([], []);
    AllTwo<seq<Signed<Reveal>>>([], []);
    FlatNothing<Signed<Complaint>>();
    FlatNothing<Signed<Reveal>>();
    var dealt := TwoNodes(result).dealt;
    hide All, Flat;
    assert dealt[..1][..0] == [] && Dealt(dealt[..1][..0]) == ([], []);
    assert Dealt(dealt[..1]).0 == [] + OneBroadcast().broadcasts == OneBroadcast().broadcasts;
    assert Dealt(dealt).0 == Dealt(dealt[..1]).0;
  }

  lemma TwoAgree(a: Answers, k: Signed<TransportKey>, l: Signed<TransportKey>,
                 s: Signed<ResultStatement>, u: Signed<ResultStatement>)
    requires a.begun == [Returns(k), Returns(l)] && a.finalized == [Returns(s), Returns(u)]
    requires TranscriptOf(a).Returns? && |Dealt(a.dealt).0| >= 1
    requires s.genuine && u.genuine && s.body.hash == u.body.hash
    requires s.body.result.groupPublicKey == u.body.result.groupPublicKey
    ensures RunSucceeds(a, 1) && Returned(a).0 == s.body.result
  {
    AllTwo(k, l);
    AllTwo(s, u);
    hide All, Dealt, TranscriptOf;
  }

  lemma TwoNodesSucceed(lie: PublicResult)
    requires SealedToTwo().Returns? && Second().Finalize(OneBroadcast()).Returns?
    requires var m := Second().Finalize(OneBroadcast()).value.1;
             m.genuine && m.body.result.groupPublicKey == lie.groupPublicKey
    ensures RunSucceeds(TwoNodes(lie), 1) && Returned(TwoNodes(lie)).0 == lie
  {
    hide Second, OneBroadcast, SealedToTwo, Dealer, Recipient, TranscriptOf, Dealt, All, AllAgree, RunSucceeds;
    var a := TwoNodes(lie);
    TranscriptOfTwo(lie);
    TwoAgree(a, a.begun[0].value, a.begun[1].value, a.finalized[0].value, a.finalized[1].value);
  }

  lemma SecondFinalized(lie: PublicResult)
    requires SealedToTwo().Returns? && Second().Finalize(OneBroadcast()).Returns?
    ensures Finalized(TwoNodes(lie), 1, Second(), [1, 2], 1)
  {
    TranscriptOfTwo(lie);
    hide TranscriptOf, Dealt, OneBroadcast;
  }

  /** The run in which node 1 signs the result `lie` is one that succeeds, and returns it
      although the honest node 2 holds `held`. */
  ghost predicate Deceived(lie: PublicResult, held: PublicResult) {
    && SealedToTwo().Returns? && Second().Finalize(OneBroadcast()).Returns?
    && RunSucceeds(TwoNodes(lie), 1) && Returned(TwoNodes(lie)).0 == lie
    && Finalized(TwoNodes(lie), 1, Second(), [1, 2], 1)
    && Second().Finalize(OneBroadcast()).value.1.body.result == held
  }

  lemma IsDeceived(lie: PublicResult, held: PublicResult)
    requires SealedToTwo().Returns? && Second().Finalize(OneBroadcast()).Returns?
    requires RunSucceeds(TwoNodes(lie), 1) && Returned(TwoNodes(lie)).0 == lie
    requires Finalized(TwoNodes(lie), 1, Second(), [1, 2], 1)
    requires Second().Finalize(OneBroadcast()).value.1.body.result == held
    ensures Deceived(lie, held)
  {
    hide RunSucceeds, Returned, Finalized, TwoNodes, Second, OneBroadcast, SealedToTwo;
  }

  /** A run of two nodes, of which the second is an honest validator that received and
      finalized: whatever verification keys and qualified set the first one signs, the
      run succeeds and returns them. */
  lemma LyingFirstNode(qualified: seq<int>, keys: map<int, Point>)
    ensures Deceived(PublicResult(1, qualified, BASE, keys), PublicResult(1, [1], BASE, map[1 := BASE, 2 := BASE]))
  {
    hide *;
    RecipientReceives();
    SecondFinalizes();
    var lie := PublicResult(1, qualified, BASE, keys);
    TwoNodesSucceed(lie);
    SecondFinalized(lie);
    IsDeceived(lie, PublicResult(1, [1], BASE, map[1 := BASE, 2 := BASE]));
  }
}
