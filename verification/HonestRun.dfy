/** The key generation among honest participants whose messages arrive. */
module HonestRun {
  import opened Residues
  import opened Lagrange
  import opened Outcomes
  import opened Group
  import opened Threshold
  import opened OrderCipher
  import opened Dkg
  import opened Participants
  import opened KeyGeneration
  import opened Robustness

  function IndexList(ps: seq<Participant>): (r: seq<int>)
    ensures |r| == |ps|
  {
    seq(|ps|, k requires 0 <= k < |ps| => ps[k].index)
  }

  function Broadcasts(ps: seq<Participant>): (r: seq<Broadcast>)
    ensures |r| == |ps|
  {
    seq(|ps|, k requires 0 <= k < |ps| => ps[k].OwnBroadcast())
  }

  /** One session of participants with different indices, before any message. */
  ghost predicate OneSession(ps: seq<Participant>) {
    && (forall k :: 0 <= k < |ps| ==>
          && ps[k].Valid() && ps[k].received == map[] && ps[k].participants == IndexList(ps)
          && ps[k].session == ps[0].session && ps[k].threshold == ps[0].threshold)
    && (forall i, k :: 0 <= i < k < |ps| ==> ps[i].index != ps[k].index)
  }

  /** Every participant's own transport key. */
  function TransportKeys(ps: seq<Participant>): map<int, PointText> {
    if ps == [] then map[]
    else
      var last := ps[|ps| - 1];
      TransportKeys(ps[..|ps| - 1])[last.index := Encoded(last.TransportPublicKey())]
  }

  lemma {:induction false} TransportKeyOf(ps: seq<Participant>, k: nat)
    requires k < |ps| && forall i, j :: 0 <= i < j < |ps| ==> ps[i].index != ps[j].index
    ensures ps[k].index in TransportKeys(ps)
    ensures TransportKeys(ps)[ps[k].index] == Encoded(ps[k].TransportPublicKey())
  {
    if k < |ps| - 1 {
      TransportKeyOf(ps[..|ps| - 1], k);
    }
  }

  /** A share sealed to a point opens at a participant exactly if the point is that
      participant's transport key. */
  lemma SealedShareOpensExactly(dealer: Participant, recipient: Participant, keys: map<int, PointText>, e: int)
    requires recipient.Valid() && dealer.session == recipient.session && 0 < e < L
    requires recipient.index in keys && ParsePoint(keys[recipient.index]).Returns?
    ensures var m := dealer.SealedShare(keys, recipient.index, e);
            && m.Returns? && m.value.dealer == dealer.index && m.value.recipient == recipient.index
            && recipient.Open(m.value.ciphertext, dealer.index)
               == if keys[recipient.index] == Encoded(recipient.TransportPublicKey())
                  then Returns(Hex(dealer.ShareFor(recipient.index))) else Throws
  {
    var (y, secret) := (keys[recipient.index].point.log, recipient.transportSecret);
    var address := ShareContext(dealer.session, dealer.index, recipient.index);
    var plain := ScalarToHex(dealer.ShareFor(recipient.index));
    ScaleBase(y);
    ScaleBase(secret);
    SameKey(e, secret, y);
    OpensOnlyWithSharedPoint(plain, y, address, e, Scale(Scale(BASE, e), secret), address);
    hide Horner, ShareContext, Scale, Encrypt, Decrypt;
  }

  /** Two secrets make one shared point only if they are the same. */
  lemma SameKey(e: int, s: int, y: int)
    requires 0 < e < L && 0 <= s < L && 0 <= y < L
    ensures Scale(Scale(BASE, e), s) == Scale(Scale(BASE, e), y) <==> s == y
  {
    ScaleBase(e);
    if Scale(Scale(BASE, e), s) == Scale(Scale(BASE, e), y) {
      CongUniqueIfZero(e);
      ModEq(e * s, e * y);
      CongCancel(e, s, y);
      CongUnique(s, y);
    }
  }

  /** A share sealed for a participant opens at that participant, and is the dealer's share for it. */
  lemma SealedShareOpens(dealer: Participant, recipient: Participant, keys: map<int, PointText>, e: int)
    requires recipient.Valid() && dealer.session == recipient.session && 0 < e < L
    requires recipient.index in keys && keys[recipient.index] == Encoded(recipient.TransportPublicKey())
    ensures var m := dealer.SealedShare(keys, recipient.index, e);
            && m.Returns? && m.value.dealer == dealer.index && m.value.recipient == recipient.index
            && recipient.Open(m.value.ciphertext, dealer.index) == Returns(Hex(dealer.ShareFor(recipient.index)))
  {
    CongUniqueIfZero(recipient.transportSecret);
    ScaleNonzero(BASE, recipient.transportSecret);
    SealedShareOpensExactly(dealer, recipient, keys, e);
  }

  lemma {:induction false} OneFrom(ps: seq<Participant>, k: nat)
    requires k < |ps| && forall i, j :: 0 <= i < j < |ps| ==> ps[i].index != ps[j].index
    ensures From(Broadcasts(ps), ps[k].index) == [ps[k].OwnBroadcast()]
  {
    assert Broadcasts(ps) == [ps[0].OwnBroadcast()] + Broadcasts(ps[1..]);
    if k == 0 {
      NoneFrom(ps[1..], ps[0].index);
    } else {
      OneFrom(ps[1..], k - 1);
    }
  }

  lemma {:induction false} NoneFrom(ps: seq<Participant>, index: int)
    requires forall i :: 0 <= i < |ps| ==> ps[i].index != index
    ensures From(Broadcasts(ps), index) == []
  {
    if ps != [] {
      assert Broadcasts(ps) == [ps[0].OwnBroadcast()] + Broadcasts(ps[1..]);
      NoneFrom(ps[1..], index);
    }
  }

  /** For this recipient the first message from every dealer is what the dealer sealed for it. */
  ghost predicate Delivered(ps: seq<Participant>, j: nat, ms: seq<EncryptedShare>, es: seq<int>)
    requires j < |ps|
  {
    && |es| == |ps|
    && forall i :: 0 <= i < |ps| ==>
         && 0 < es[i] < L
         && Some(ps[i].SealedShare(TransportKeys(ps), ps[j].index, es[i])) == Delivery(ms, ps[i].index, ps[j].index)
  }

  function Delivery(ms: seq<EncryptedShare>, dealer: int, recipient: int): Option<Outcome<EncryptedShare>> {
    match First(Addressed(ms, dealer, recipient))
    case None => None
    case Some(m) => Some(Returns(m))
  }

  /** No dealer's share for any participant is zero: zero could not be written. */
  ghost predicate NoZeroShares(ps: seq<Participant>) {
    forall i, j :: 0 <= i < |ps| && 0 <= j < |ps| ==> ps[i].ShareFor(ps[j].index) != 0
  }

  ghost predicate Ready(ps: seq<Participant>, j: nat, ms: seq<EncryptedShare>, es: seq<int>)
    requires j < |ps|
  {
    OneSession(ps) && NoZeroShares(ps) && Delivered(ps, j, ms, es)
  }

  lemma DealerAccepted(ps: seq<Participant>, j: nat, ms: seq<EncryptedShare>, es: seq<int>, i: nat, before: Progress)
    requires j < |ps| && Ready(ps, j, ms, es) && i < |ps|
    ensures ps[j].ReceiveFrom(Broadcasts(ps), ms, before, ps[i].index)
            == before.(received := before.received[ps[i].index := Hex(ps[i].ShareFor(ps[j].index))])
  {
    var (p, d, keys) := (ps[j], ps[i], TransportKeys(ps));
    OneFrom(ps, i);
    OwnCommitmentsParse(d);
    TransportKeyOf(ps, j);
    SealedShareOpens(d, p, keys, es[i]);
    OwnShareMatches(d, p.index, d.ShareFor(p.index));
    ShareReduced(d.coeffs, p.index);
    hide Horner, ShareMatches, Commit, From, ParseCommitments, TransportKeys, Addressed;
    assert Delivery(ms, d.index, p.index) == Some(d.SealedShare(keys, p.index, es[i]));
  }

  lemma ShareReduced(coeffs: seq<int>, x: int)
    ensures Horner(coeffs, x) < L
  {
  }

  /** An honest participant that gets every message accepts every dealer and complains about none. */
  lemma {:induction false} AllAccepted(ps: seq<Participant>, j: nat, ms: seq<EncryptedShare>, es: seq<int>, n: nat)
    requires j < |ps| && Ready(ps, j, ms, es) && n <= |ps|
    ensures var r := ps[j].Receive(Broadcasts(ps), ms, IndexList(ps)[..n]);
            && !r.aborted && r.complaints == []
            && (forall i :: 0 <= i < n ==> ps[i].index in r.received)
  {
    hide Ready, Broadcasts;
    if n > 0 {
      AllAccepted(ps, j, ms, es, n - 1);
      var front := IndexList(ps)[..n];
      assert front[..n - 1] == IndexList(ps)[..n - 1] && front[n - 1] == ps[n - 1].index;
      DealerAccepted(ps, j, ms, es, n - 1, ps[j].Receive(Broadcasts(ps), ms, front[..n - 1]));
    } else {
      assert IndexList(ps)[..0] == [];
    }
  }

  lemma DealerQualifies(ps: seq<Participant>, t: Transcript, k: nat)
    requires k < |ps| && OneSession(ps) && t == Transcript(Broadcasts(ps), [], [])
    ensures Qualifies(t, IndexList(ps), ps[0].threshold, ps[k].index)
  {
    OneFrom(ps, k);
    OwnCommitmentsParse(ps[k]);
    hide Broadcasts, ParseCommitments, Commit, From;
    assert ps[k].threshold == ps[0].threshold;
  }

  lemma {:induction false} EveryoneQualifies(ps: seq<Participant>, t: Transcript, n: nat)
    requires ps != [] && OneSession(ps) && t == Transcript(Broadcasts(ps), [], []) && n <= |ps|
    ensures Qualified(t, IndexList(ps), ps[0].threshold, IndexList(ps)[..n]) == IndexList(ps)[..n]
  {
    hide *;
    NoneAmong(t, IndexList(ps), ps[0].threshold);
    if n > 0 {
      EveryoneQualifies(ps, t, n - 1);
      DealerQualifies(ps, t, n - 1);
      IndexAt(ps, n - 1);
      OneMoreQualifies(t, IndexList(ps), ps[0].threshold, IndexList(ps), n - 1);
    }
  }

  lemma NoneAmong(t: Transcript, participants: seq<int>, threshold: nat)
    ensures Qualified(t, participants, threshold, []) == []
  {
  }

  lemma IndexAt(ps: seq<Participant>, k: nat)
    requires k < |ps|
    ensures IndexList(ps)[k] == ps[k].index
  {
  }

  lemma OneMoreQualifies(t: Transcript, participants: seq<int>, threshold: nat, among: seq<int>, n: nat)
    requires n < |among| && Qualified(t, participants, threshold, among[..n]) == among[..n]
    requires Qualifies(t, participants, threshold, among[n])
    ensures Qualified(t, participants, threshold, among[..n + 1]) == among[..n + 1]
  {
    hide Qualifies;
    assert among[..n + 1][..n] == among[..n] && among[..n + 1] == among[..n] + [among[n]];
  }

  lemma SessionOf(ps: seq<Participant>, j: nat, ms: seq<EncryptedShare>, es: seq<int>)
    requires j < |ps| && Ready(ps, j, ms, es)
    ensures OneSession(ps) && ps[j].participants == IndexList(ps) && ps[j].threshold == ps[0].threshold >= 1
    ensures ps[j].received == map[] && IndexList(ps)[j] == ps[j].index && ps[j].threshold <= |ps|
  {
  }

  lemma NoDisclosures(t: Transcript, recipient: int)
    requires t.disclosed == []
    ensures SingleDisclosures(t, recipient)
  {
  }

  lemma ResultUnlessIdentity(t: Transcript, participants: seq<int>, threshold: nat)
    requires 0 < threshold <= |Qualified(t, participants, threshold, participants)|
    ensures PublicResultOf(t, participants, threshold).Returns?
            <==> Scale(BASE, Eval(ResultPolynomial(t, participants, threshold), 0)) != ZERO
  {
    SumAtIsShare(t, participants, threshold, 0);
  }

  /** Among honest participants whose messages arrive and whose shares are not zero
      nobody complains, every dealer qualifies, and every participant finalizes, unless
      the sum of the polynomials is zero at 0 or at its own index. */
  lemma HonestRunCompletes(ps: seq<Participant>, j: nat, ms: seq<EncryptedShare>, es: seq<int>)
    requires j < |ps| && Ready(ps, j, ms, es)
    ensures var (p, t, all) := (ps[j], Transcript(Broadcasts(ps), [], []), IndexList(ps));
            var r := p.Receive(t.broadcasts, ms, p.participants);
            && !r.aborted && r.complaints == []
            && Qualified(t, all, p.threshold, all) == all
            && var f := ResultPolynomial(t, all, p.threshold);
               p.(received := r.received).Finalize(t).Returns?
               <==> Scale(BASE, Eval(f, 0)) != ZERO && Mod(Eval(f, p.index)) != 0
  {
    hide *;
    var (p, t, all) := (ps[j], Transcript(Broadcasts(ps), [], []), IndexList(ps));
    SessionOf(ps, j, ms, es);
    assert all[..|ps|] == all;
    AllAccepted(ps, j, ms, es, |ps|);
    EveryoneQualifies(ps, t, |ps|);
    NoDisclosures(t, p.index);
    ReceiverFinalizes(p, ms, t);
    ResultUnlessIdentity(t, all, p.threshold);
  }

  // ----- Why a session id must not be used twice -----

  /** A dealer that began one session as d and perhaps again as d', and a recipient
      that announced a transport key under it and perhaps began again since. The router
      delivers the broadcast of d and the share that d' sealed to the announced key. */
  ghost predicate Beginnings(d: Participant, d': Participant, p: Participant, keys: map<int, PointText>) {
    && d.Valid() && d'.Valid() && p.Valid()
    && d.index == d'.index && d.session == d'.session == p.session && d.threshold == p.threshold
    && p.index in keys && ParsePoint(keys[p.index]).Returns?
  }

  /** The recipient accepts the share if and only if the announced key is the one it
      has now and the share is that of the broadcast, and not zero. Otherwise it accuses
      the honest dealer, which then discloses its share. With d' == d and the present
      key: an honest dealer is accused exactly for a zero share. */
  lemma MixedBeginnings(d: Participant, d': Participant, p: Participant, keys: map<int, PointText>, e: int,
                        before: Progress)
    requires Beginnings(d, d', p, keys) && 0 < e < L
    ensures d'.SealedShare(keys, p.index, e).Returns?
    ensures var after := p.ReceiveFrom([d.OwnBroadcast()], [d'.SealedShare(keys, p.index, e).value], before, d.index);
            if keys[p.index] == Encoded(p.TransportPublicKey()) && d'.ShareFor(p.index) == d.ShareFor(p.index) != 0
            then after == before.(received := before.received[d.index := Hex(d.ShareFor(p.index))])
            else after == before.(complaints := before.complaints + [Complaint(p.index, d.index)])
    ensures d'.Respond([Complaint(p.index, d.index)]) == [Reveal(d.index, p.index, Hex(d'.ShareFor(p.index)))]
  {
    SealedShareOpensExactly(d', p, keys, e);
    OwnCommitmentsParse(d);
    ShareReduced(d'.coeffs, p.index);
    OwnShareMatches(d, p.index, d'.ShareFor(p.index));
    OneAnswer(d', p.index);
    var m := d'.SealedShare(keys, p.index, e).value;
    OneMessage(d.OwnBroadcast(), m);
    hide Horner, ShareMatches, Commit, From, ParseCommitments, Addressed;
  }

  lemma OneMessage(b: Broadcast, m: EncryptedShare)
    ensures From([b], b.dealer) == [b] && Addressed([m], m.dealer, m.recipient) == [m]
  {
    assert [b][1..] == [] && [m][1..] == [];
  }

  lemma OneAnswer(d: Participant, j: int)
    ensures d.Respond([Complaint(j, d.index)]) == [Reveal(d.index, j, Hex(d.ShareFor(j)))]
  {
    hide Horner;
    assert [Complaint(j, d.index)][1..] == [] && d.Respond([]) == [];
  }

  /** Validator 1 of a session of two, dealing the constant polynomial c. */
  function Dealer(c: int): Participant {
    Participant(1, 1, [1, 2], "s", 1, [c], map[])
  }

  function Recipient(secret: int): Participant {
    Participant(2, 1, [1, 2], "s", secret, [1], map[])
  }

  function Announced(secret: int): map<int, PointText> {
    map[2 := Encoded(Recipient(secret).TransportPublicKey())]
  }

  lemma Constant(c: int)
    requires 0 < c < L
    ensures Dealer(c).ShareFor(2) == c
  {
    hide Mod, Cong;
    ModSmall(c);
    assert [c][1..] == [] && Horner([], 2) == 0;
  }

  /** Two such cases: the recipient began again with another transport key, or the
      dealer with another polynomial. Either way the honest dealer is accused. */
  lemma BegunTwice()
    requires L > 2
    ensures var m := Dealer(1).SealedShare(Announced(2), 2, 1);
            m.Returns? && Recipient(1).Receive([Dealer(1).OwnBroadcast()], [m.value], [1])
                          == Progress(map[], [Complaint(2, 1)], false)
    ensures var m := Dealer(2).SealedShare(Announced(1), 2, 1);
            m.Returns? && Recipient(1).Receive([Dealer(1).OwnBroadcast()], [m.value], [1])
                          == Progress(map[], [Complaint(2, 1)], false)
  {
    Constant(1);
    Constant(2);
    ScaleBase(1);
    ScaleBase(2);
    MixedBeginnings(Dealer(1), Dealer(1), Recipient(1), Announced(2), 1, Progress(map[], [], false));
    MixedBeginnings(Dealer(1), Dealer(2), Recipient(1), Announced(1), 1, Progress(map[], [], false));
  }
}
