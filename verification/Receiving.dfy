/** What a participant does with the messages that it is handed, and which dealers a
    transcript qualifies, in terms of the messages' fields. */
module Receiving {
  import opened Collections
  import opened Residues
  import opened Outcomes
  import opened Group
  import opened OrderCipher
  import opened Dkg
  import opened Participants

  // ----- Commitments -----

  /** The texts are those of the points, of which none is the identity. */
  ghost predicate Denotes(texts: seq<PointText>, points: seq<Point>) {
    |texts| == |points| && forall k :: 0 <= k < |texts| ==> texts[k] == Encoded(points[k]) && points[k] != ZERO
  }

  lemma {:induction false} ParsesExactly(texts: seq<PointText>, points: seq<Point>)
    ensures ParseAll(texts) == Returns(points) <==> Denotes(texts, points)
  {
    if texts != [] && points != [] {
      ParsesExactly(texts[1..], points[1..]);
      assert points == [points[0]] + points[1..];
      assert forall k :: 1 <= k < |texts| ==> texts[k] == texts[1..][k - 1];
      assert forall k :: 1 <= k < |points| ==> points[k] == points[1..][k - 1];
    }
  }

  /** The first broadcast under the dealer's name is at i. */
  ghost predicate Leads(bs: seq<Broadcast>, dealer: int, i: nat) {
    i < |bs| && bs[i].dealer == dealer && forall k :: 0 <= k < i ==> bs[k].dealer != dealer
  }

  /** That broadcast commits to the points, one for each coefficient. */
  ghost predicate Commits(bs: seq<Broadcast>, dealer: int, threshold: nat, points: seq<Point>) {
    exists i: nat :: Leads(bs, dealer, i) && |points| == threshold && Denotes(bs[i].commitments, points)
  }

  lemma {:induction false} FirstFrom(bs: seq<Broadcast>, dealer: int)
    ensures var own := From(bs, dealer);
            if own == [] then forall k :: 0 <= k < |bs| ==> bs[k].dealer != dealer
            else exists i: nat :: Leads(bs, dealer, i) && bs[i] == own[0]
  {
    if bs != [] {
      FirstFrom(bs[1..], dealer);
      if bs[0].dealer == dealer {
        assert Leads(bs, dealer, 0);
      } else if From(bs[1..], dealer) != [] {
        var i: nat :| Leads(bs[1..], dealer, i) && bs[1..][i] == From(bs[1..], dealer)[0];
        assert Leads(bs, dealer, i + 1);
      }
    }
  }

  lemma CommitsExactly(bs: seq<Broadcast>, dealer: int, threshold: nat, points: seq<Point>)
    ensures ParseCommitments(First(From(bs, dealer)), threshold) == Some(points)
            <==> Commits(bs, dealer, threshold, points)
  {
    FirstFrom(bs, dealer);
    var own := From(bs, dealer);
    if own != [] {
      ParsesExactly(own[0].commitments, points);
      hide ParseAll, Denotes, From;
      var i: nat :| Leads(bs, dealer, i) && bs[i] == own[0];
      assert forall k: nat :: Leads(bs, dealer, k) ==> k == i;
    }
  }

  // ----- Receiving -----

  /** The first share from this dealer to this recipient is at i. */
  ghost predicate Arrives(ms: seq<EncryptedShare>, dealer: int, recipient: int, i: nat) {
    && i < |ms| && ms[i].dealer == dealer && ms[i].recipient == recipient
    && forall k :: 0 <= k < i ==> !(ms[k].dealer == dealer && ms[k].recipient == recipient)
  }

  lemma {:induction false} FirstAddressed(ms: seq<EncryptedShare>, dealer: int, recipient: int)
    ensures var own := Addressed(ms, dealer, recipient);
            if own == [] then forall k :: 0 <= k < |ms| ==> !(ms[k].dealer == dealer && ms[k].recipient == recipient)
            else exists i: nat :: Arrives(ms, dealer, recipient, i) && ms[i] == own[0]
  {
    if ms != [] {
      FirstAddressed(ms[1..], dealer, recipient);
      if ms[0].dealer == dealer && ms[0].recipient == recipient {
        assert Arrives(ms, dealer, recipient, 0);
      } else if Addressed(ms[1..], dealer, recipient) != [] {
        var i: nat :| Arrives(ms[1..], dealer, recipient, i) && ms[1..][i] == Addressed(ms[1..], dealer, recipient)[0];
        assert Arrives(ms, dealer, recipient, i + 1);
      }
    }
  }

  /** The ciphertext opens with the participant's transport secret, for this session,
      dealer and participant, as the share. */
  ghost predicate OpensAs(p: Participant, ct: Ciphertext<ScalarText>, dealer: int, share: ScalarText) {
    && ct.Wire? && ct.r != ZERO && 0 < p.transportSecret < L
    && ct.body == Gcm(ct.r, Scale(ct.r, p.transportSecret), ShareContext(p.session, dealer, p.index), share)
  }

  ghost predicate Committed(p: Participant, bs: seq<Broadcast>, dealer: int) {
    exists points :: Commits(bs, dealer, p.threshold, points)
  }

  ghost predicate HasShare(p: Participant, ms: seq<EncryptedShare>, dealer: int) {
    exists m :: m in ms && m.dealer == dealer && m.recipient == p.index
  }

  /** The dealer committed to a polynomial whose value for p is the share sent first. */
  ghost predicate Good(p: Participant, bs: seq<Broadcast>, ms: seq<EncryptedShare>, dealer: int, share: ScalarText) {
    exists points, i: nat ::
      && Commits(bs, dealer, p.threshold, points) && Arrives(ms, dealer, p.index, i)
      && OpensAs(p, ms[i].ciphertext, dealer, share)
      && share.Hex? && 0 < share.number < L && Scale(BASE, share.number) == CommittedAt(points, p.index)
  }

  ghost predicate Delivers(p: Participant, bs: seq<Broadcast>, ms: seq<EncryptedShare>, dealer: int) {
    exists share :: Good(p, bs, ms, dealer, share)
  }

  /** Round 2 for one dealer: nothing, a stop, a share, or a complaint. */
  lemma ReceivedFromExactly(p: Participant, bs: seq<Broadcast>, ms: seq<EncryptedShare>, before: Progress, dealer: int)
    ensures var after := p.ReceiveFrom(bs, ms, before, dealer);
            if !Committed(p, bs, dealer) then after == before
            else if !HasShare(p, ms, dealer) then after == before.(aborted := true)
            else if !Delivers(p, bs, ms, dealer) then
              after == before.(complaints := before.complaints + [Complaint(p.index, dealer)])
            else
              exists share :: && Good(p, bs, ms, dealer, share)
                              && after == before.(received := before.received[dealer := share])
  {
    var c := ParseCommitments(First(From(bs, dealer)), p.threshold);
    forall points ensures c == Some(points) <==> Commits(bs, dealer, p.threshold, points) {
      CommitsExactly(bs, dealer, p.threshold, points);
    }
    FirstAddressed(ms, dealer, p.index);
    hide Commits, ParseCommitments, From, Addressed, ShareContext, CommittedAt, Scale;
    if c.Some? && Addressed(ms, dealer, p.index) != [] {
      var i: nat :| Arrives(ms, dealer, p.index, i) && ms[i] == Addressed(ms, dealer, p.index)[0];
      assert forall k: nat :: Arrives(ms, dealer, p.index, k) ==> k == i;
      forall share ensures Good(p, bs, ms, dealer, share)
                           <==> && p.Open(ms[i].ciphertext, dealer) == Returns(share)
                                && ShareMatches(share, c.value, p.index)
      {
      }
    }
  }

  /** All of round 2 before the first dealer with commitments and no share. */
  ghost predicate StopsAt(p: Participant, bs: seq<Broadcast>, ms: seq<EncryptedShare>, dealers: seq<int>, stop: nat) {
    && stop <= |dealers|
    && (forall k :: 0 <= k < stop ==> Committed(p, bs, dealers[k]) ==> HasShare(p, ms, dealers[k]))
    && (stop < |dealers| ==> Committed(p, bs, dealers[stop]) && !HasShare(p, ms, dealers[stop]))
  }

  ghost function Accused(p: Participant, bs: seq<Broadcast>, ms: seq<EncryptedShare>, dealers: seq<int>, stop: nat)
    : set<nat>
    requires stop <= |dealers|
  {
    set k: nat | k < stop && Committed(p, bs, dealers[k]) && !Delivers(p, bs, ms, dealers[k])
  }

  function Against(index: int, dealers: seq<int>): (r: seq<Complaint>)
    ensures |r| == |dealers|
  {
    seq(|dealers|, k requires 0 <= k < |dealers| => Complaint(index, dealers[k]))
  }

  /** The shares after the round are those before it and the good ones of the dealers. */
  ghost predicate StoredFrom(p: Participant, bs: seq<Broadcast>, ms: seq<EncryptedShare>, dealers: seq<int>,
                             received: map<int, ScalarText>) {
    && (forall d :: d in received <==> d in p.received || (d in dealers && Delivers(p, bs, ms, d)))
    && forall d :: d in received ==>
         if d in dealers && Delivers(p, bs, ms, d) then Good(p, bs, ms, d, received[d])
         else d in p.received && received[d] == p.received[d]
  }

  ghost predicate ReceivedUpTo(p: Participant, bs: seq<Broadcast>, ms: seq<EncryptedShare>, dealers: seq<int>,
                               r: Progress, stop: nat) {
    && StopsAt(p, bs, ms, dealers, stop) && (r.aborted <==> stop < |dealers|)
    && Picked(Against(p.index, dealers), r.complaints, Accused(p, bs, ms, dealers, stop))
    && StoredFrom(p, bs, ms, dealers[..stop], r.received)
  }

  lemma StoppedBefore(p: Participant, bs: seq<Broadcast>, ms: seq<EncryptedShare>, dealers: seq<int>, r: Progress,
                      stop: nat)
    requires dealers != [] && ReceivedUpTo(p, bs, ms, dealers[..|dealers| - 1], r, stop) && r.aborted
    ensures ReceivedUpTo(p, bs, ms, dealers, r, stop)
  {
    var n := |dealers| - 1;
    hide Picked, StoredFrom, Committed, HasShare, Delivers;
    assert Against(p.index, dealers)[..n] == Against(p.index, dealers[..n]);
    PickedLast(Against(p.index, dealers), r.complaints, Accused(p, bs, ms, dealers[..n], stop),
               Accused(p, bs, ms, dealers, stop));
    assert r.complaints + [] == r.complaints && dealers[..stop] == dealers[..n][..stop];
  }

  lemma StopsNow(p: Participant, bs: seq<Broadcast>, ms: seq<EncryptedShare>, dealers: seq<int>, before: Progress)
    requires dealers != [] && ReceivedUpTo(p, bs, ms, dealers[..|dealers| - 1], before, |dealers| - 1)
    requires var d := dealers[|dealers| - 1]; Committed(p, bs, d) && !HasShare(p, ms, d)
    ensures ReceivedUpTo(p, bs, ms, dealers, before.(aborted := true), |dealers| - 1)
  {
    var n := |dealers| - 1;
    hide Picked, StoredFrom, Committed, HasShare, Delivers;
    assert Against(p.index, dealers)[..n] == Against(p.index, dealers[..n]);
    PickedLast(Against(p.index, dealers), before.complaints, Accused(p, bs, ms, dealers[..n], n),
               Accused(p, bs, ms, dealers, n));
    assert before.complaints + [] == before.complaints && dealers[..n] == dealers[..n][..n];
  }

  lemma GoesOn(p: Participant, bs: seq<Broadcast>, ms: seq<EncryptedShare>, dealers: seq<int>, before: Progress,
               after: Progress)
    requires dealers != [] && ReceivedUpTo(p, bs, ms, dealers[..|dealers| - 1], before, |dealers| - 1)
    requires var d := dealers[|dealers| - 1];
             && (Committed(p, bs, d) ==> HasShare(p, ms, d)) && !after.aborted
             && after.complaints == before.complaints
                                    + (if Committed(p, bs, d) && !Delivers(p, bs, ms, d) then [Complaint(p.index, d)]
                                       else [])
             && StoredFrom(p, bs, ms, dealers, after.received)
    ensures ReceivedUpTo(p, bs, ms, dealers, after, |dealers|)
  {
    var n := |dealers| - 1;
    hide Picked, StoredFrom, Committed, HasShare, Delivers;
    assert Against(p.index, dealers)[..n] == Against(p.index, dealers[..n]);
    PickedLast(Against(p.index, dealers), before.complaints, Accused(p, bs, ms, dealers[..n], n),
               Accused(p, bs, ms, dealers, n + 1));
    assert dealers[..n + 1] == dealers;
  }

  lemma StoredNext(p: Participant, bs: seq<Broadcast>, ms: seq<EncryptedShare>, dealers: seq<int>,
                   received: map<int, ScalarText>, after: map<int, ScalarText>)
    requires dealers != [] && StoredFrom(p, bs, ms, dealers[..|dealers| - 1], received)
    requires var d := dealers[|dealers| - 1];
             if Delivers(p, bs, ms, d) then exists share :: Good(p, bs, ms, d, share) && after == received[d := share]
             else after == received
    ensures StoredFrom(p, bs, ms, dealers, after)
  {
    hide Good;
    var n := |dealers| - 1;
    assert dealers == dealers[..n] + [dealers[n]];
  }

  lemma CommittedFirst(p: Participant, bs: seq<Broadcast>, ms: seq<EncryptedShare>, dealer: int)
    requires Delivers(p, bs, ms, dealer)
    ensures Committed(p, bs, dealer) && HasShare(p, ms, dealer)
  {
    hide Commits, OpensAs, CommittedAt, Scale;
  }

  /** Round 2 stops exactly at the first dealer with commitments that sent no share. Of
      the dealers before it those with commitments are accused, in order, unless what they
      sent first is good, and then it is stored; nothing else is. */
  lemma {:induction false} ReceivedExactly(p: Participant, bs: seq<Broadcast>, ms: seq<EncryptedShare>,
                                           dealers: seq<int>)
    ensures exists stop: nat :: ReceivedUpTo(p, bs, ms, dealers, p.Receive(bs, ms, dealers), stop)
  {
    var r := p.Receive(bs, ms, dealers);
    if dealers == [] {
      PickedNone<Complaint>(Accused(p, bs, ms, dealers, 0));
      assert ReceivedUpTo(p, bs, ms, dealers, r, 0);
    } else {
      var n := |dealers| - 1;
      var (before, d) := (p.Receive(bs, ms, dealers[..n]), dealers[n]);
      ReceivedExactly(p, bs, ms, dealers[..n]);
      var stop: nat :| ReceivedUpTo(p, bs, ms, dealers[..n], before, stop);
      ReceivedFromExactly(p, bs, ms, before, d);
      hide Picked, StoredFrom, Committed, HasShare, Delivers, Good, Participant.ReceiveFrom, Against;
      if before.aborted {
        StoppedBefore(p, bs, ms, dealers, before, stop);
      } else if Committed(p, bs, d) && !HasShare(p, ms, d) {
        StopsNow(p, bs, ms, dealers, before);
      } else {
        if Delivers(p, bs, ms, d) {
          CommittedFirst(p, bs, ms, d);
        }
        assert dealers[..n][..n] == dealers[..n];
        StoredNext(p, bs, ms, dealers, before.received, r.received);
        assert before.complaints + [] == before.complaints;
        GoesOn(p, bs, ms, dealers, before, r);
      }
    }
  }

  // ----- Answering -----

  function AnswersTo(p: Participant, complaints: seq<Complaint>): (r: seq<Reveal>)
    ensures |r| == |complaints|
  {
    seq(|complaints|, k requires 0 <= k < |complaints| =>
          Reveal(p.index, complaints[k].complainer, Hex(p.ShareFor(complaints[k].complainer))))
  }

  ghost function AgainstSelf(p: Participant, complaints: seq<Complaint>): set<nat> {
    set k: nat | k < |complaints| && complaints[k].dealer == p.index
  }

  /** Round 3 answers the complaints against this dealer, each with the complainer's
      share, in their order, whoever complained. */
  lemma {:induction false} AnsweredExactly(p: Participant, complaints: seq<Complaint>)
    ensures Picked(AnswersTo(p, complaints), p.Respond(complaints), AgainstSelf(p, complaints))
  {
    if complaints == [] {
      PickedNone<Reveal>(AgainstSelf(p, complaints));
    } else {
      AnsweredExactly(p, complaints[1..]);
      hide Picked, Horner;
      assert AnswersTo(p, complaints)[1..] == AnswersTo(p, complaints[1..]);
      PickedNext(AnswersTo(p, complaints), p.Respond(complaints[1..]), AgainstSelf(p, complaints[1..]),
                 AgainstSelf(p, complaints));
    }
  }

  // ----- Who is qualified -----

  /** The only broadcast under the dealer's name is at i. */
  ghost predicate Only(bs: seq<Broadcast>, dealer: int, i: nat) {
    i < |bs| && bs[i].dealer == dealer && forall k :: 0 <= k < |bs| && k != i ==> bs[k].dealer != dealer
  }

  ghost predicate CommitsOnce(bs: seq<Broadcast>, dealer: int, threshold: nat, points: seq<Point>) {
    exists i: nat :: Only(bs, dealer, i) && |points| == threshold && Denotes(bs[i].commitments, points)
  }

  lemma {:induction false} OnlyFrom(bs: seq<Broadcast>, dealer: int)
    ensures |From(bs, dealer)| == 1 <==> exists i: nat :: Only(bs, dealer, i)
    ensures |From(bs, dealer)| == 1 ==> exists i: nat :: Only(bs, dealer, i) && bs[i] == From(bs, dealer)[0]
  {
    if bs != [] {
      var rest := bs[1..];
      if bs[0].dealer == dealer {
        FirstFrom(rest, dealer);
        assert From(rest, dealer) == [] ==> Only(bs, dealer, 0);
        if From(rest, dealer) != [] {
          var k: nat :| Leads(rest, dealer, k);
          assert bs[k + 1].dealer == dealer;
        }
      } else {
        OnlyFrom(rest, dealer);
        forall i: nat ensures Only(rest, dealer, i) <==> Only(bs, dealer, i + 1) {
          assert forall k :: 1 <= k < |bs| ==> bs[k] == rest[k - 1];
          assert forall k :: 0 <= k < |rest| ==> rest[k] == bs[k + 1];
        }
        forall i: nat | Only(bs, dealer, i) ensures |From(rest, dealer)| == 1 {
          var k: nat := i - 1;
          assert Only(rest, dealer, k) <==> Only(bs, dealer, k + 1);
        }
      }
    }
  }

  lemma CommitsOnceExactly(bs: seq<Broadcast>, dealer: int, threshold: nat, points: seq<Point>)
    ensures CommitmentsOf(bs, dealer, threshold) == Some(points) <==> CommitsOnce(bs, dealer, threshold, points)
  {
    OnlyFrom(bs, dealer);
    var own := From(bs, dealer);
    if |own| == 1 {
      ParsesExactly(own[0].commitments, points);
      hide ParseAll, Denotes, From;
      var i: nat :| Only(bs, dealer, i) && bs[i] == own[0];
      assert forall k: nat :: Only(bs, dealer, k) ==> k == i;
    }
  }

  /** Somebody disclosed, for the dealer, a share for the complainer that belongs to the points. */
  ghost predicate Settles(disclosed: seq<Reveal>, points: seq<Point>, c: Complaint) {
    exists r :: && r in disclosed && r.dealer == c.dealer && r.recipient == c.complainer
                && r.share.Hex? && 0 < r.share.number < L
                && Scale(BASE, r.share.number) == CommittedAt(points, c.complainer)
  }

  /** One well-formed broadcast, and an answer to every complaint by a participant. */
  ghost predicate InQual(t: Transcript, participants: seq<int>, threshold: nat, dealer: int) {
    exists points ::
      && CommitsOnce(t.broadcasts, dealer, threshold, points)
      && forall c :: c in t.complaints && c.dealer == dealer && c.complainer in participants ==>
           Settles(t.disclosed, points, c)
  }

  lemma QualifiesExactly(t: Transcript, participants: seq<int>, threshold: nat, dealer: int)
    ensures Qualifies(t, participants, threshold, dealer) <==> InQual(t, participants, threshold, dealer)
  {
    var c := CommitmentsOf(t.broadcasts, dealer, threshold);
    forall points ensures c == Some(points) <==> CommitsOnce(t.broadcasts, dealer, threshold, points) {
      CommitsOnceExactly(t.broadcasts, dealer, threshold, points);
    }
    hide CommitmentsOf, CommitsOnce, CommittedAt, Scale;
  }

  ghost function QualAt(t: Transcript, participants: seq<int>, threshold: nat, among: seq<int>): set<nat> {
    set k: nat | k < |among| && InQual(t, participants, threshold, among[k])
  }

  lemma {:induction false} QualifiedExactly(t: Transcript, participants: seq<int>, threshold: nat, among: seq<int>)
    ensures Picked(among, Qualified(t, participants, threshold, among), QualAt(t, participants, threshold, among))
  {
    if among == [] {
      PickedNone<int>(QualAt(t, participants, threshold, among));
    } else {
      var n := |among| - 1;
      QualifiedExactly(t, participants, threshold, among[..n]);
      QualifiesExactly(t, participants, threshold, among[n]);
      hide Picked, Qualifies, InQual;
      var q := Qualified(t, participants, threshold, among[..n]);
      PickedLast(among, q, QualAt(t, participants, threshold, among[..n]), QualAt(t, participants, threshold, among));
      assert q + [] == q;
    }
  }

  // ----- The public result -----

  /** y is the sum of what the dealers' commitments commit to at j. */
  ghost predicate AddsUp(t: Transcript, threshold: nat, dealers: seq<int>, j: int, y: Point) {
    exists sums: seq<Point> :: Sums(t, threshold, dealers, j, sums) && sums[|dealers|] == y
  }

  ghost predicate Sums(t: Transcript, threshold: nat, dealers: seq<int>, j: int, sums: seq<Point>) {
    && |sums| == |dealers| + 1 && sums[0] == ZERO
    && forall k :: 0 <= k < |dealers| ==> Contributes(t, threshold, dealers[k], j, sums[k], sums[k + 1])
  }

  ghost predicate Contributes(t: Transcript, threshold: nat, dealer: int, j: int, before: Point, after: Point) {
    exists points ::
      CommitsOnce(t.broadcasts, dealer, threshold, points) && after == Add(before, CommittedAt(points, j))
  }

  lemma {:induction false} SumExactly(t: Transcript, threshold: nat, dealers: seq<int>, j: int)
    requires AllParsed(t, threshold, dealers)
    ensures AddsUp(t, threshold, dealers, j, SumAt(t, threshold, dealers, j))
  {
    if dealers == [] {
      assert Sums(t, threshold, dealers, j, [ZERO]);
    } else {
      var n := |dealers| - 1;
      var (front, d) := (dealers[..n], dealers[n]);
      SumExactly(t, threshold, front, j);
      var sums: seq<Point> :| Sums(t, threshold, front, j, sums) && sums[n] == SumAt(t, threshold, front, j);
      var points := CommitmentsOf(t.broadcasts, d, threshold).value;
      CommitsOnceExactly(t.broadcasts, d, threshold, points);
      var y := SumAt(t, threshold, dealers, j);
      assert Contributes(t, threshold, d, j, sums[n], y);
      hide CommitsOnce, CommitmentsOf, CommittedAt, Contributes, Add;
      assert Sums(t, threshold, dealers, j, sums + [y]);
    }
  }

  lemma {:induction false} SumUnique(t: Transcript, threshold: nat, dealers: seq<int>, j: int, sums: seq<Point>)
    requires Sums(t, threshold, dealers, j, sums)
    ensures AllParsed(t, threshold, dealers) && sums[|dealers|] == SumAt(t, threshold, dealers, j)
  {
    if dealers != [] {
      var n := |dealers| - 1;
      assert Contributes(t, threshold, dealers[n], j, sums[n], sums[n + 1]);
      var points :| CommitsOnce(t.broadcasts, dealers[n], threshold, points)
                    && sums[n + 1] == Add(sums[n], CommittedAt(points, j));
      CommitsOnceExactly(t.broadcasts, dealers[n], threshold, points);
      hide CommitsOnce, CommitmentsOf, CommittedAt, Contributes, Add;
      SumUnique(t, threshold, dealers[..n], j, sums[..n + 1]);
      assert dealers == dealers[..n] + [dealers[n]];
    }
  }

  /** There is a public result exactly if the threshold is positive, at least as many
      dealers are qualified, and what they commit to at zero does not add up to the
      identity. It holds the qualified dealers in the order of the participants, that
      sum, and the sum at every participant's index. */
  lemma ResultExactly(t: Transcript, participants: seq<int>, threshold: nat)
    ensures PublicResultOf(t, participants, threshold).Returns?
            <==> && threshold > 0
                 && exists q, y :: && Picked(participants, q, QualAt(t, participants, threshold, participants))
                                   && |q| >= threshold && AddsUp(t, threshold, q, 0, y) && y != ZERO
    ensures PublicResultOf(t, participants, threshold).Returns? ==>
              var r := PublicResultOf(t, participants, threshold).value;
              && r.threshold == threshold
              && Picked(participants, r.qualified, QualAt(t, participants, threshold, participants))
              && AddsUp(t, threshold, r.qualified, 0, r.groupPublicKey)
              && (forall j :: j in r.verificationKeys <==> j in participants)
              && forall j :: j in participants ==> AddsUp(t, threshold, r.qualified, j, r.verificationKeys[j])
  {
    var (good, q) := (QualAt(t, participants, threshold, participants),
                      Qualified(t, participants, threshold, participants));
    QualifiedExactly(t, participants, threshold, participants);
    forall j ensures AddsUp(t, threshold, q, j, SumAt(t, threshold, q, j)) {
      SumExactly(t, threshold, q, j);
    }
    forall q', y | Picked(participants, q', good) && AddsUp(t, threshold, q', 0, y)
      ensures q' == q && y == SumAt(t, threshold, q, 0)
    {
      PickedUnique(participants, q, q', good);
      var sums: seq<Point> :| Sums(t, threshold, q', 0, sums) && sums[|q'|] == y;
      SumUnique(t, threshold, q', 0, sums);
    }
    hide Picked, AddsUp, SumAt, Qualified, QualAt;
  }
}
