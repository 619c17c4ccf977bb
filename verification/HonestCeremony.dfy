/** The key generation that the coordinator drives among honest validators: all rounds
    together, from the first message to the signed results. */
module HonestCeremony {
  import opened Collections
  import opened Residues
  import opened Lagrange
  import opened Outcomes
  import opened Group
  import opened OrderCipher
  import opened Dkg
  import opened Participants
  import opened HonestRun
  import opened Validators
  import opened SignedMessages
  import opened KeyCeremony
  import ProtocolRuns
  import Receiving

  /** A validator, and what it will draw at random. */
  datatype Node = Node(validator: Validator, secret: int, coeffs: seq<int>, randoms: seq<int>)

  datatype Setup = Setup(nodes: seq<Node>, session: string, threshold: nat)

  function Indices(u: Setup): (r: seq<int>)
    ensures |r| == |u.nodes|
  {
    seq(|u.nodes|, k requires 0 <= k < |u.nodes| => u.nodes[k].validator.index)
  }

  /** What the constructor of node k makes. */
  function Member(u: Setup, k: nat): Participant
    requires k < |u.nodes|
  {
    var n := u.nodes[k];
    Participant(n.validator.index, u.threshold, Indices(u), u.session, n.secret, n.coeffs, map[])
  }

  function Members(u: Setup): (r: seq<Participant>)
    ensures |r| == |u.nodes|
  {
    seq(|u.nodes|, k requires 0 <= k < |u.nodes| => Member(u, k))
  }

  /** Validators without a key that know each other, a threshold they can reach, and
      random scalars. */
  ghost predicate Fresh(u: Setup) {
    && 1 <= u.threshold <= |u.nodes|
    && (forall i, k :: 0 <= i < k < |u.nodes| ==> Indices(u)[i] != Indices(u)[k])
    && (forall i, k :: 0 <= i < |u.nodes| && 0 <= k < |u.nodes| ==> Indices(u)[k] in u.nodes[i].validator.peers)
    && forall k :: 0 <= k < |u.nodes| ==>
         && u.nodes[k].validator.keyShare.None? && 0 < u.nodes[k].secret < L
         && |u.nodes[k].coeffs| == u.threshold && ProtocolRuns.RandomScalars(u.nodes[k].coeffs)
         && |u.nodes[k].randoms| == |u.nodes| && ProtocolRuns.RandomScalars(u.nodes[k].randoms)
  }

  /** The validator of node k after round 0. */
  function Started(u: Setup, k: nat): Validator
    requires k < |u.nodes|
  {
    u.nodes[k].validator.(dkg := Some(Member(u, k)))
  }

  function KeyOf(u: Setup, k: nat): Signed<TransportKey>
    requires k < |u.nodes|
  {
    var p := Member(u, k);
    Signed(p.index, u.session, TransportKey(p.index, Encoded(p.TransportPublicKey())), true)
  }

  lemma Begins(u: Setup, k: nat)
    requires Fresh(u) && k < |u.nodes|
    ensures var n := u.nodes[k];
            n.validator.Begin(u.session, u.threshold, Indices(u), n.secret, n.coeffs)
            == Returns((Started(u, k), KeyOf(u, k)))
  {
    assert Indices(u)[k] == u.nodes[k].validator.index;
    hide Participant.TransportPublicKey, ProtocolRuns.RandomScalars;
  }

  lemma MembersMeet(u: Setup)
    requires Fresh(u)
    ensures OneSession(Members(u)) && IndexList(Members(u)) == Indices(u)
  {
    var ps := Members(u);
    assert IndexList(ps) == Indices(u);
    forall k | 0 <= k < |ps| ensures ps[k].Valid() {
      assert Indices(u)[k] == ps[k].index;
    }
    forall i, k | 0 <= i < k < |ps| ensures ps[i].index != ps[k].index {
      assert Indices(u)[i] != Indices(u)[k];
    }
  }

  // ----- Dealing -----

  function KeysOf(u: Setup): (r: seq<Signed<TransportKey>>)
    ensures |r| == |u.nodes|
  {
    seq(|u.nodes|, k requires 0 <= k < |u.nodes| => KeyOf(u, k))
  }

  /** Every validator finds exactly one signed key of node k, and it is that node's. */
  lemma OneKeyEach(u: Setup, i: nat, k: nat)
    requires Fresh(u) && i < |u.nodes| && k < |u.nodes|
    ensures OneKey(Started(u, i), KeysOf(u), Indices(u)[k], Encoded(Member(u, k).TransportPublicKey()))
    ensures UsableKey(Started(u, i), KeysOf(u), Indices(u)[k])
  {
    var (v, ms, p) := (Started(u, i), KeysOf(u), Indices(u)[k]);
    hide Participant.TransportPublicKey, ProtocolRuns.RandomScalars;
    forall m | 0 <= m < |ms| ensures ms[m].body.index == p <==> m == k {
      assert Indices(u)[m] == ms[m].body.index;
    }
    assert SignedBy(v, ms[k], p);
    assert KeyPositions(v, ms, p) == {k};
    assert ms[k] in ms;
    PublicKeyParses(u, k);
  }

  lemma PublicKeyParses(u: Setup, k: nat)
    requires Fresh(u) && k < |u.nodes|
    ensures ParsePoint(Encoded(Member(u, k).TransportPublicKey())).Returns?
  {
    CongUniqueIfZero(u.nodes[k].secret);
    ScaleNonzero(BASE, u.nodes[k].secret);
  }

  /** What node i seals for node k, signed. */
  function ShareOf(u: Setup, i: nat, k: nat): Signed<Outcome<EncryptedShare>>
    requires i < |u.nodes| && k < |u.nodes| && |u.nodes[i].randoms| == |u.nodes|
  {
    Signed(Indices(u)[i], u.session,
           Member(u, i).SealedShare(TransportKeys(Members(u)), Indices(u)[k], u.nodes[i].randoms[k]), true)
  }

  ghost predicate Carries(m: Signed<EncryptedShare>, s: Signed<Outcome<EncryptedShare>>) {
    m.signer == s.signer && m.session == s.session && m.genuine == s.genuine && s.body == Returns(m.body)
  }

  function BroadcastOf(u: Setup, k: nat): Signed<Broadcast>
    requires k < |u.nodes|
  {
    Signed(Indices(u)[k], u.session, Member(u, k).OwnBroadcast(), true)
  }

  lemma SameShare(u: Setup, i: nat, k: nat, m: Signed<EncryptedShare>)
    requires Fresh(u) && i < |u.nodes| && k < |u.nodes|
    requires DealtTo(Started(u, i), KeysOf(u), Indices(u)[k], m, u.nodes[i].randoms[k])
    ensures Carries(m, ShareOf(u, i, k))
  {
    var (v, p, ms, e) := (Started(u, i), Indices(u)[k], KeysOf(u), u.nodes[i].randoms[k]);
    OneKeyEach(u, i, k);
    MembersMeet(u);
    TransportKeyOf(Members(u), k);
    OneKeyExactly(v, ms, p);
    SealedShareReturns(Member(u, i), TransportKeys(Members(u)), p, e);
    PublicKeyParses(u, k);
    hide OneKey, UsableKey, Encrypt, Participant.ShareFor, ShareContext, Participant.SealedShare, TransportKeys,
         Participant.TransportPublicKey, Validator.KeysFor, ParsePoint, OneSession;
    var key := Encoded(Member(u, k).TransportPublicKey());
    assert forall key' :: OneKey(v, ms, p, key') ==> [TransportKey(p, key')] == [TransportKey(p, key)];
  }

  lemma Deals(u: Setup, i: nat)
    requires Fresh(u) && i < |u.nodes|
    ensures Started(u, i).Deal(KeysOf(u), u.nodes[i].randoms).Returns?
    ensures var (b, shares) := Started(u, i).Deal(KeysOf(u), u.nodes[i].randoms).value;
            && b == BroadcastOf(u, i) && |shares| == |u.nodes|
            && forall k :: 0 <= k < |u.nodes| ==> Carries(shares[k], ShareOf(u, i, k))
  {
    var v := Started(u, i);
    forall p | p in Indices(u) ensures UsableKey(v, KeysOf(u), p) {
      var k :| 0 <= k < |u.nodes| && Indices(u)[k] == p;
      OneKeyEach(u, i, k);
    }
    DealExactly(v, KeysOf(u), u.nodes[i].randoms);
    hide UsableKey, DealtTo, Carries, Participant.OwnBroadcast, Validator.Deal;
    var shares := v.Deal(KeysOf(u), u.nodes[i].randoms).value.1;
    forall k | 0 <= k < |u.nodes| ensures Carries(shares[k], ShareOf(u, i, k)) {
      SameShare(u, i, k, shares[k]);
    }
  }

  // ----- Routing -----

  function BroadcastsOf(u: Setup): (r: seq<Signed<Broadcast>>)
    ensures |r| == |u.nodes|
  {
    seq(|u.nodes|, k requires 0 <= k < |u.nodes| => BroadcastOf(u, k))
  }

  lemma {:induction false} OneForEach(shares: seq<Signed<EncryptedShare>>, index: int, k: nat)
    requires k < |shares|
    requires forall m :: 0 <= m < |shares| ==> (shares[m].body.recipient == index <==> m == k)
    ensures SharesTo(shares, index) == [shares[k]]
  {
    var n := |shares| - 1;
    if k < n {
      OneForEach(shares[..n], index, k);
    } else {
      NoneForIt(shares[..n], index);
    }
  }

  lemma {:induction false} NoneForIt(shares: seq<Signed<EncryptedShare>>, index: int)
    requires forall m :: 0 <= m < |shares| ==> shares[m].body.recipient != index
    ensures SharesTo(shares, index) == []
  {
    if shares != [] {
      NoneForIt(shares[..|shares| - 1], index);
    }
  }

  lemma {:induction false} SharesToJoin(a: seq<Signed<EncryptedShare>>, b: seq<Signed<EncryptedShare>>, index: int)
    ensures SharesTo(a + b, index) == SharesTo(a, index) + SharesTo(b, index)
  {
    if b == [] {
      assert a + b == a;
    } else {
      var n := |b| - 1;
      SharesToJoin(a, b[..n], index);
      assert (a + b)[..|a + b| - 1] == a + b[..n];
    }
  }

  /** If each node deals one share for the recipient, these are what it is handed. */
  lemma {:induction false} Routed(answers: seq<Outcome<Dealing>>, index: int, bs: seq<Signed<Broadcast>>,
                                  picks: seq<Signed<EncryptedShare>>)
    requires |bs| == |picks| == |answers|
    requires forall i :: 0 <= i < |answers| ==> DealsOne(answers[i], index, bs[i], picks[i])
    ensures Dealt(answers).0 == bs && SharesTo(Dealt(answers).1, index) == picks
  {
    if answers != [] {
      hide Dealt, SharesTo, DealsOne;
      var n := |answers| - 1;
      forall i | 0 <= i < n ensures DealsOne(answers[..n][i], index, bs[..n][i], picks[..n][i]) {
        assert DealsOne(answers[i], index, bs[i], picks[i]);
      }
      Routed(answers[..n], index, bs[..n], picks[..n]);
      RoutedLast(answers, index, bs, picks);
    }
  }

  lemma RoutedLast(answers: seq<Outcome<Dealing>>, index: int, bs: seq<Signed<Broadcast>>,
                   picks: seq<Signed<EncryptedShare>>)
    requires |bs| == |picks| == |answers| > 0
    requires var n := |answers| - 1;
             && Dealt(answers[..n]).0 == bs[..n] && SharesTo(Dealt(answers[..n]).1, index) == picks[..n]
             && DealsOne(answers[n], index, bs[n], picks[n])
    ensures Dealt(answers).0 == bs && SharesTo(Dealt(answers).1, index) == picks
  {
    var n := |answers| - 1;
    SharesToJoin(Dealt(answers[..n]).1, answers[n].value.1, index);
    hide SharesTo;
    assert bs == bs[..n] + [bs[n]] && picks == picks[..n] + [picks[n]];
  }

  ghost predicate DealsOne(answer: Outcome<Dealing>, index: int, b: Signed<Broadcast>, pick: Signed<EncryptedShare>) {
    answer.Returns? && answer.value.0 == b && SharesTo(answer.value.1, index) == [pick]
  }

  // ----- The rounds -----

  /** Node k answers every round as its validator does with what the coordinator hands it. */
  ghost predicate AnswersAs(u: Setup, a: Answers, k: nat)
    requires k < |u.nodes| && |u.nodes[k].randoms| == |u.nodes|
  {
    var (n, v) := (u.nodes[k], Started(u, k));
    && |a.begun| == |a.dealt| == |a.received| == |a.responded| == |a.finalized| == |u.nodes|
    && a.begun[k] == Second(n.validator.Begin(u.session, u.threshold, Indices(u), n.secret, n.coeffs))
    && (All(a.begun).Returns? ==> a.dealt[k] == v.Deal(All(a.begun).value, n.randoms))
    && var (after, complaints) := v.Receive(Dealt(a.dealt).0, SharesTo(Dealt(a.dealt).1, v.index));
       && a.received[k] == complaints
       && (All(a.received).Returns? ==> a.responded[k] == after.Respond(Flat(All(a.received).value)))
       && (TranscriptOf(a).Returns? ==> a.finalized[k] == Second(after.Finalize(TranscriptOf(a).value)))
  }

  function Second<S, T>(out: Outcome<(S, T)>): Outcome<T> {
    match out
    case Throws => Throws
    case Returns((_, t)) => Returns(t)
  }

  ghost predicate HonestAnswers(u: Setup, a: Answers)
    requires forall k :: 0 <= k < |u.nodes| ==> |u.nodes[k].randoms| == |u.nodes|
  {
    forall k :: 0 <= k < |u.nodes| ==> AnswersAs(u, a, k)
  }

  lemma RoundsBegin(u: Setup, a: Answers)
    requires Fresh(u) && HonestAnswers(u, a)
    ensures All(a.begun) == Returns(KeysOf(u))
  {
    AllExactly(a.begun);
    assert AnswersAs(u, a, 0);
    forall k | 0 <= k < |u.nodes| ensures a.begun[k] == Returns(KeysOf(u)[k]) {
      assert AnswersAs(u, a, k);
      Begins(u, k);
    }
    hide All, KeyOf;
    assert All(a.begun).value == KeysOf(u);
  }

  /** What node j is handed in round 2: one share from every node. */
  ghost predicate Handed(u: Setup, a: Answers, j: nat, picks: seq<Signed<EncryptedShare>>)
    requires Fresh(u) && j < |u.nodes|
  {
    && Dealt(a.dealt).0 == BroadcastsOf(u) && SharesTo(Dealt(a.dealt).1, Indices(u)[j]) == picks
    && |picks| == |u.nodes| && forall i :: 0 <= i < |u.nodes| ==> Carries(picks[i], ShareOf(u, i, j))
  }

  lemma RoundsDeal(u: Setup, a: Answers, j: nat) returns (picks: seq<Signed<EncryptedShare>>)
    requires Fresh(u) && HonestAnswers(u, a) && j < |u.nodes|
    ensures Handed(u, a, j, picks)
  {
    RoundsBegin(u, a);
    assert AnswersAs(u, a, j);
    forall i | 0 <= i < |u.nodes|
      ensures a.dealt[i].Returns? && |a.dealt[i].value.1| == |u.nodes|
      ensures Carries(a.dealt[i].value.1[j], ShareOf(u, i, j))
      ensures DealsOne(a.dealt[i], Indices(u)[j], BroadcastsOf(u)[i], a.dealt[i].value.1[j])
    {
      assert AnswersAs(u, a, i);
      DealtOnce(u, i, j, a.dealt[i]);
    }
    hide HonestAnswers, Carries, DealsOne, ShareOf, BroadcastOf, Dealt, SharesTo;
    picks := seq(|u.nodes|, i requires 0 <= i < |u.nodes| => a.dealt[i].value.1[j]);
    Routed(a.dealt, Indices(u)[j], BroadcastsOf(u), picks);
  }

  lemma DealtOnce(u: Setup, i: nat, j: nat, answer: Outcome<Dealing>)
    requires Fresh(u) && i < |u.nodes| && j < |u.nodes|
    requires answer == Started(u, i).Deal(KeysOf(u), u.nodes[i].randoms)
    ensures answer.Returns? && |answer.value.1| == |u.nodes| && Carries(answer.value.1[j], ShareOf(u, i, j))
    ensures DealsOne(answer, Indices(u)[j], BroadcastsOf(u)[i], answer.value.1[j])
  {
    Deals(u, i);
    hide Validator.Deal, BroadcastOf;
    var shares := answer.value.1;
    forall m | 0 <= m < |shares| ensures shares[m].body.recipient == Indices(u)[m] {
      SealedFor(u, i, m, shares[m]);
    }
    hide Carries, ShareOf;
    OneForEach(shares, Indices(u)[j], j);
  }

  lemma SealedFor(u: Setup, i: nat, k: nat, m: Signed<EncryptedShare>)
    requires Fresh(u) && i < |u.nodes| && k < |u.nodes| && Carries(m, ShareOf(u, i, k))
    ensures m.signer == Indices(u)[i] && m.session == u.session && m.genuine
    ensures m.body.dealer == Indices(u)[i] && m.body.recipient == Indices(u)[k]
  {
    hide Encrypt, TransportKeys, Participant.ShareFor, ShareContext;
  }

  // ----- What everyone gets -----

  function RandomsFor(u: Setup, j: nat): (r: seq<int>)
    requires Fresh(u) && j < |u.nodes|
    ensures |r| == |u.nodes|
  {
    seq(|u.nodes|, i requires 0 <= i < |u.nodes| => u.nodes[i].randoms[j])
  }

  lemma AllBroadcastsCount(u: Setup, j: nat)
    requires Fresh(u) && j < |u.nodes|
    ensures Picked(Bodies(BroadcastsOf(u)), Broadcasts(Members(u)), GoodBroadcasts(Started(u, j), BroadcastsOf(u)))
  {
    var (v, bms) := (Started(u, j), BroadcastsOf(u));
    hide Picked, Participant.OwnBroadcast, ProtocolRuns.RandomScalars;
    assert Bodies(bms) == Broadcasts(Members(u));
    forall i: nat ensures i in GoodBroadcasts(v, bms) <==> i < |bms| {
      if i < |bms| {
        OwnDealer(Member(u, i));
        assert Indices(u)[i] in v.peers;
      }
    }
    PickedAll(Bodies(bms), GoodBroadcasts(v, bms));
  }

  lemma OwnDealer(p: Participant)
    ensures p.OwnBroadcast().dealer == p.index
  {
  }

  lemma AllSharesCount(u: Setup, j: nat, picks: seq<Signed<EncryptedShare>>)
    requires Fresh(u) && j < |u.nodes| && |picks| == |u.nodes|
    requires forall i :: 0 <= i < |u.nodes| ==> Carries(picks[i], ShareOf(u, i, j))
    ensures Picked(Bodies(picks), Bodies(picks), GoodShares(Started(u, j), picks))
  {
    var v := Started(u, j);
    hide Picked, Carries, ShareOf, ProtocolRuns.RandomScalars;
    forall i: nat ensures i in GoodShares(v, picks) <==> i < |picks| {
      if i < |picks| {
        SealedFor(u, i, j, picks[i]);
        assert Indices(u)[i] in v.peers;
      }
    }
    PickedAll(Bodies(picks), GoodShares(v, picks));
  }

  lemma FirstFromEach(u: Setup, i: nat, j: nat, picks: seq<Signed<EncryptedShare>>)
    requires Fresh(u) && i < |u.nodes| && j < |u.nodes| && |picks| == |u.nodes|
    requires forall m :: 0 <= m < |u.nodes| ==> Carries(picks[m], ShareOf(u, m, j))
    ensures Some(ShareOf(u, i, j).body) == Delivery(Bodies(picks), Indices(u)[i], Indices(u)[j])
  {
    var ms := Bodies(picks);
    Receiving.FirstAddressed(ms, Indices(u)[i], Indices(u)[j]);
    hide ShareOf, Addressed, ProtocolRuns.RandomScalars;
    forall m | 0 <= m < |ms| ensures ms[m].dealer == Indices(u)[m] && ms[m].recipient == Indices(u)[j] {
      SealedFor(u, m, j, picks[m]);
    }
    assert Indices(u)[i] == ms[i].dealer;
    assert Receiving.Arrives(ms, Indices(u)[i], Indices(u)[j], i);
    assert forall k: nat :: Receiving.Arrives(ms, Indices(u)[i], Indices(u)[j], k) ==> k == i;
    assert Carries(picks[i], ShareOf(u, i, j));
  }

  /** Every node is handed all it needs for round 2. */
  lemma Supplied(u: Setup, j: nat, picks: seq<Signed<EncryptedShare>>)
    requires Fresh(u) && NoZeroShares(Members(u)) && j < |u.nodes| && |picks| == |u.nodes|
    requires forall i :: 0 <= i < |u.nodes| ==> Carries(picks[i], ShareOf(u, i, j))
    ensures Carried(Started(u, j), Members(u), j, BroadcastsOf(u), picks, Bodies(picks), RandomsFor(u, j))
  {
    var (ps, es) := (Members(u), RandomsFor(u, j));
    MembersMeet(u);
    AllBroadcastsCount(u, j);
    AllSharesCount(u, j, picks);
    hide Picked, Carries, OneSession, NoZeroShares, Delivery, TransportKeys, Participant.SealedShare, BroadcastOf,
         Participant.ShareFor;
    forall i | 0 <= i < |ps|
      ensures 0 < es[i] < L
      ensures Some(ps[i].SealedShare(TransportKeys(ps), ps[j].index, es[i]))
              == Delivery(Bodies(picks), ps[i].index, ps[j].index)
    {
      FirstFromEach(u, i, j, picks);
    }
  }

  /** The transcript at the end: the broadcasts, and nothing in dispute. */
  function PlainTranscript(u: Setup): SignedTranscript {
    SignedTranscript(BroadcastsOf(u), [], [])
  }

  lemma PlainIsUndisputed(u: Setup, j: nat)
    requires Fresh(u) && j < |u.nodes|
    ensures Undisputed(Started(u, j), Members(u), PlainTranscript(u))
  {
    AllBroadcastsCount(u, j);
    hide Picked, SignedBy, BroadcastOf;
  }

  function Sum(u: Setup): seq<int> {
    ResultPolynomial(Transcript(Broadcasts(Members(u)), [], []), Indices(u), u.threshold)
  }

  /** No number that the rounds need is zero: the sum of the polynomials at 0 and at every index. */
  ghost predicate NothingVanishes(u: Setup) {
    Scale(BASE, Eval(Sum(u), 0)) != ZERO && forall j :: 0 <= j < |u.nodes| ==> Mod(Eval(Sum(u), Indices(u)[j])) != 0
  }

  /** The validator of node j after round 2. */
  function AfterShares(u: Setup, a: Answers, j: nat): Validator
    requires j < |u.nodes|
  {
    Started(u, j).Receive(Dealt(a.dealt).0, SharesTo(Dealt(a.dealt).1, Indices(u)[j])).0
  }

  lemma RoundsReceive(u: Setup, a: Answers, j: nat)
    requires Fresh(u) && HonestAnswers(u, a) && NoZeroShares(Members(u)) && j < |u.nodes|
    ensures Dealt(a.dealt).0 == BroadcastsOf(u) && |a.dealt| == |a.received| == |a.responded| == |u.nodes|
    ensures a.received[j] == Returns([])
    ensures var out := AfterShares(u, a, j).Finalize(PlainTranscript(u));
            && (out.Returns? <==> Scale(BASE, Eval(Sum(u), 0)) != ZERO && Mod(Eval(Sum(u), Indices(u)[j])) != 0)
            && (out.Returns? ==> out.value.1.body.result.qualified == Indices(u))
  {
    var picks := RoundsDeal(u, a, j);
    assert AnswersAs(u, a, j);
    Supplied(u, j, picks);
    PlainIsUndisputed(u, j);
    MembersMeet(u);
    SignedRunCompletes(Started(u, j), Members(u), j, BroadcastsOf(u), picks, Bodies(picks), RandomsFor(u, j),
                       PlainTranscript(u));
    hide Carried, Undisputed, NoZeroShares, OneSession, Dealt, SharesTo, Validator.Receive, Validator.Finalize,
         ResultPolynomial, Carries, ShareOf, BroadcastsOf, IndexList, HonestAnswers, Broadcasts;
  }

  // ----- How it ends -----

  lemma {:induction false} NothingFlat<T>(lists: seq<seq<T>>)
    requires forall k :: 0 <= k < |lists| ==> lists[k] == []
    ensures Flat(lists) == []
  {
    if lists != [] {
      NothingFlat(lists[..|lists| - 1]);
    }
  }

  lemma AllEmpty<T>(answers: seq<Outcome<seq<T>>>)
    requires forall k :: 0 <= k < |answers| ==> answers[k] == Returns([])
    ensures All(answers).Returns? && Flat(All(answers).value) == []
  {
    AllExactly(answers);
    hide All, Flat;
    NothingFlat(All(answers).value);
  }

  lemma AnswersNothing(v: Validator)
    requires v.dkg.Some?
    ensures v.Respond([]) == Returns([])
  {
  }

  lemma ReceiveKeeps(v: Validator, bs: seq<Signed<Broadcast>>, ms: seq<Signed<EncryptedShare>>)
    requires v.dkg.Some?
    ensures var (after, d) := (v.Receive(bs, ms).0, v.dkg.value);
            && after.index == v.index && after.peers == v.peers && after.dkg.Some?
            && after.dkg.value == d.(received := after.dkg.value.received)
  {
    hide Participant.Receive, Validator.VerifiedBroadcasts, Validator.VerifiedShares;
  }

  lemma RoundsTranscript(u: Setup, a: Answers)
    requires Fresh(u) && HonestAnswers(u, a) && NoZeroShares(Members(u))
    ensures All(a.begun).Returns? && |Dealt(a.dealt).0| == |u.nodes| && TranscriptOf(a) == Returns(PlainTranscript(u))
  {
    RoundsBegin(u, a);
    hide NoZeroShares, Dealt, SharesTo, Flat, All, Validator.Respond, HonestAnswers;
    forall k | 0 <= k < |u.nodes| ensures |a.received| == |u.nodes| && a.received[k] == Returns([]) {
      RoundsReceive(u, a, k);
    }
    RoundsReceive(u, a, 0);
    AllEmpty(a.received);
    forall k | 0 <= k < |u.nodes| ensures |a.responded| == |u.nodes| && a.responded[k] == Returns([]) {
      Responds(u, a, k);
    }
    AllEmpty(a.responded);
  }

  lemma Responds(u: Setup, a: Answers, k: nat)
    requires Fresh(u) && HonestAnswers(u, a) && k < |u.nodes|
    requires All(a.received).Returns? && Flat(All(a.received).value) == []
    ensures |a.responded| == |u.nodes| && a.responded[k] == Returns([])
  {
    assert AnswersAs(u, a, k);
    hide Dealt, SharesTo, Flat, All, Validator.Receive, Validator.Respond;
    ReceiveKeeps(Started(u, k), Dealt(a.dealt).0, SharesTo(Dealt(a.dealt).1, Started(u, k).index));
    AnswersNothing(Started(u, k).Receive(Dealt(a.dealt).0, SharesTo(Dealt(a.dealt).1, Started(u, k).index)).0);
  }

  /** Node k states the public result of the broadcasts. */
  lemma States(u: Setup, a: Answers, k: nat)
    requires Fresh(u) && HonestAnswers(u, a) && NoZeroShares(Members(u)) && k < |u.nodes|
    ensures |a.finalized| == |u.nodes|
    ensures a.finalized[k] == Second(AfterShares(u, a, k).Finalize(PlainTranscript(u)))
    ensures a.finalized[k].Returns? <==> Scale(BASE, Eval(Sum(u), 0)) != ZERO && Mod(Eval(Sum(u), Indices(u)[k])) != 0
    ensures a.finalized[k].Returns? ==>
              var (s, t) := (a.finalized[k].value, Transcript(Broadcasts(Members(u)), [], []));
              && s.genuine && s.body.hash == TranscriptHash(t) && s.body.result.qualified == Indices(u)
              && PublicResultOf(t, Indices(u), u.threshold) == Returns(s.body.result)
              && Finalized(a, k, AfterShares(u, a, k), Indices(u), u.threshold)
  {
    RoundsTranscript(u, a);
    RoundsReceive(u, a, k);
    assert AnswersAs(u, a, k);
    hide HonestAnswers, NoZeroShares, Dealt, SharesTo, All, TranscriptOf, Validator.Finalize, Validator.Receive,
         ResultPolynomial, BroadcastsOf, Broadcasts, PublicResultOf;
    var after := AfterShares(u, a, k);
    ReceiveKeeps(Started(u, k), Dealt(a.dealt).0, SharesTo(Dealt(a.dealt).1, Indices(u)[k]));
    if a.finalized[k].Returns? {
      PlainIsUndisputed(u, k);
      UndisputedTranscript(Started(u, k), after, Members(u), PlainTranscript(u));
      KeptIsSigned(after, PlainTranscript(u));
    }
  }

  /** A key generation among honest validators succeeds if and only if the sum of their
      polynomials does not vanish at 0 or at one of their indices. All of them qualify then,
      the result is the one returned, and every validator holds it and a share of that sum. */
  lemma CeremonySucceeds(u: Setup, a: Answers)
    requires Fresh(u) && HonestAnswers(u, a) && NoZeroShares(Members(u))
    ensures RunSucceeds(a, u.threshold) <==> NothingVanishes(u)
    ensures RunSucceeds(a, u.threshold) ==>
              var (r, st) := Returned(a);
              && st == PlainTranscript(u) && r.qualified == Indices(u)
              && r.groupPublicKey == Scale(BASE, Eval(Sum(u), 0))
              && forall k :: 0 <= k < |u.nodes| ==> Holds(u, AfterShares(u, a, k).Finalize(st), r, k)
  {
    hide *;
    AllStated(u, a);
    EarlierRounds(u, a);
    Agreement(u, a);
    if RunSucceeds(a, u.threshold) {
      Concludes(u, a);
    }
  }

  /** Node k made a statement, and it is the result of the transcript. */
  ghost predicate Stated(u: Setup, t: Transcript, answer: Outcome<Signed<ResultStatement>>) {
    && answer.Returns? && answer.value.genuine && answer.value.body.hash == TranscriptHash(t)
    && PublicResultOf(t, Indices(u), u.threshold) == Returns(answer.value.body.result)
  }

  /** Every node states the same, or nothing if a number vanishes. */
  ghost predicate AllState(u: Setup, a: Answers) {
    && |a.finalized| == |u.nodes| && 1 <= u.threshold <= |u.nodes|
    && forall k :: 0 <= k < |u.nodes| ==>
         && (a.finalized[k].Returns?
             <==> Scale(BASE, Eval(Sum(u), 0)) != ZERO && Mod(Eval(Sum(u), Indices(u)[k])) != 0)
         && (a.finalized[k].Returns? ==> Stated(u, Transcript(Broadcasts(Members(u)), [], []), a.finalized[k]))
  }

  lemma AllStated(u: Setup, a: Answers)
    requires Fresh(u) && HonestAnswers(u, a) && NoZeroShares(Members(u))
    ensures AllState(u, a)
  {
    hide HonestAnswers, NoZeroShares, Sum, Broadcasts, PublicResultOf, AfterShares, Finalized, Validator.Finalize;
    States(u, a, 0);
    forall k | 0 <= k < |u.nodes|
      ensures a.finalized[k].Returns? <==> Scale(BASE, Eval(Sum(u), 0)) != ZERO && Mod(Eval(Sum(u), Indices(u)[k])) != 0
      ensures a.finalized[k].Returns? ==> Stated(u, Transcript(Broadcasts(Members(u)), [], []), a.finalized[k])
    {
      States(u, a, k);
    }
  }

  /** All rounds before the statements went through. */
  ghost predicate RoundsWent(a: Answers, threshold: nat) {
    && (forall k :: 0 <= k < |a.begun| ==> a.begun[k].Returns?) && |Dealers(a.dealt)| >= threshold
    && (forall k :: 0 <= k < |a.received| ==> a.received[k].Returns?)
    && forall k :: 0 <= k < |a.responded| ==> a.responded[k].Returns?
  }

  lemma EarlierRounds(u: Setup, a: Answers)
    requires Fresh(u) && HonestAnswers(u, a) && NoZeroShares(Members(u))
    ensures RoundsWent(a, u.threshold)
  {
    hide HonestAnswers, NoZeroShares, Dealt, All, TranscriptOf, Dealers, Joined, KeyCeremony.Answered, PlainTranscript;
    RoundsTranscript(u, a);
    DealersCount(a.dealt);
    AllExactly(a.begun);
    KeyCeremony.TranscriptExactly(a);
  }

  lemma Agreement(u: Setup, a: Answers)
    requires AllState(u, a) && RoundsWent(a, u.threshold)
    ensures RunSucceeds(a, u.threshold) <==> NothingVanishes(u)
  {
    hide RunSucceeds, Dealt, Dealers, Sum, Broadcasts, PublicResultOf, Scale, Mod;
    SucceedsExactly(a, u.threshold);
  }

  /** The validator kept the result, and its share of the sum. */
  ghost predicate Holds(u: Setup, out: Outcome<(Validator, Signed<ResultStatement>)>, r: PublicResult, k: nat)
    requires k < |u.nodes|
  {
    && out.Returns?
    && var v := out.value.0;
       && v.keyInfo == Some(KeyInfo(u.threshold, Indices(u), r.groupPublicKey, r.verificationKeys))
       && v.keyShare.Some? && v.keyShare.value.index == Indices(u)[k]
       && v.keyShare.value.secret == Hex(Mod(Eval(Sum(u), Indices(u)[k])))
  }

  lemma Concludes(u: Setup, a: Answers)
    requires Fresh(u) && HonestAnswers(u, a) && NoZeroShares(Members(u)) && RunSucceeds(a, u.threshold)
    ensures var (r, st) := Returned(a);
            && st == PlainTranscript(u) && r.qualified == Indices(u)
            && r.groupPublicKey == Scale(BASE, Eval(Sum(u), 0))
            && forall k :: 0 <= k < |u.nodes| ==> Holds(u, AfterShares(u, a, k).Finalize(st), r, k)
  {
    RoundsTranscript(u, a);
    SucceedsExactly(a, u.threshold);
    States(u, a, 0);
    AllAt(a.finalized, 0);
    hide HonestAnswers, NoZeroShares, RunSucceeds, Dealt, All, TranscriptOf, Validator.Finalize, Broadcasts,
         PublicResultOf, AfterShares, Finalized, Dealers;
    ResultOnOnePolynomial(Transcript(Broadcasts(Members(u)), [], []), Indices(u), u.threshold);
    forall k | 0 <= k < |u.nodes|
      ensures Holds(u, AfterShares(u, a, k).Finalize(PlainTranscript(u)), Returned(a).0, k)
    {
      States(u, a, k);
      Keeps(u, a, k);
    }
  }

  lemma Keeps(u: Setup, a: Answers, k: nat)
    requires Fresh(u) && HonestAnswers(u, a) && NoZeroShares(Members(u)) && k < |u.nodes|
    requires |a.finalized| == |u.nodes| && a.finalized[k].Returns?
    ensures Holds(u, AfterShares(u, a, k).Finalize(PlainTranscript(u)), a.finalized[k].value.body.result, k)
  {
    States(u, a, k);
    RoundsTranscript(u, a);
    var after := AfterShares(u, a, k);
    ReceiveKeeps(Started(u, k), Dealt(a.dealt).0, SharesTo(Dealt(a.dealt).1, Indices(u)[k]));
    FinalizedStatement(a, k, after, Indices(u), u.threshold);
    hide HonestAnswers, NoZeroShares, Dealt, All, TranscriptOf, Validator.Finalize, Broadcasts, ResultPolynomial,
         PublicResultOf, SharesTo, PlainTranscript, Validator.Receive;
    KeptIsSigned(after, PlainTranscript(u));
  }
}
