/** Finalization against a transcript chosen by others, and agreement on its public part. */
module Robustness {
  import opened Residues
  import opened Lagrange
  import opened Outcomes
  import opened Group
  import opened Threshold
  import opened OrderCipher
  import opened Dkg
  import opened Participants

  /** Every stored share matches the first commitments broadcast by its dealer. */
  ghost predicate StoredMatch(index: int, threshold: nat, broadcasts: seq<Broadcast>, received: map<int, ScalarText>) {
    forall d :: d in received ==> StoredMatches(index, threshold, broadcasts, d, received[d])
  }

  ghost predicate StoredMatches(index: int, threshold: nat, broadcasts: seq<Broadcast>, d: int, share: ScalarText) {
    var c := ParseCommitments(First(From(broadcasts, d)), threshold);
    c.Some? && ShareMatches(share, c.value, index)
  }

  /** `Receive` stores only matching shares; and for a dealer with well-formed
      commitments it stores one or complains, unless it stops. */
  lemma {:induction false} ReceiveStoresMatching(p: Participant, broadcasts: seq<Broadcast>,
                                                 shares: seq<EncryptedShare>,
                                                 dealers: seq<int>)
    requires StoredMatch(p.index, p.threshold, broadcasts, p.received)
    ensures var r := p.Receive(broadcasts, shares, dealers);
            && StoredMatch(p.index, p.threshold, broadcasts, r.received)
            && (forall c :: c in r.complaints ==> c.complainer == p.index && c.dealer in dealers)
            && (!r.aborted ==> forall d :: d in dealers ==>
                  ParseCommitments(First(From(broadcasts, d)), p.threshold).Some? ==>
                    d in r.received || Complaint(p.index, d) in r.complaints)
  {
    if dealers != [] {
      ReceiveStoresMatching(p, broadcasts, shares, dealers[..|dealers| - 1]);
    }
  }

  /** A ciphertext made for another session, dealer or recipient never opens. */
  lemma OnlyOwnSharesOpen(p: Participant, ct: Ciphertext<ScalarText>, dealer: int, s: string, d: int, r: int)
    requires p.Open(ct, dealer).Returns? && ct.body.address == ShareContext(s, d, r)
    ensures s == p.session && d == dealer && r == p.index
  {
    ShareContextInjective(p.session, dealer, p.index, s, d, r);
  }

  // ----- When finalization succeeds -----

  /** The share used for d is readable. */
  predicate Readable(p: Participant, t: Transcript, d: int) {
    var s := p.ShareFrom(t, d);
    s.Some? && HexToScalar(s.value).Returns?
  }

  predicate AllReadable(p: Participant, t: Transcript, dealers: seq<int>) {
    forall d :: d in dealers ==> Readable(p, t, d)
  }

  /** By how much the shares used for the dealers differ from what was committed;
      a public quantity, since only disclosed shares can differ. */
  function Deficit(p: Participant, t: Transcript, dealers: seq<int>): int
    requires AllParsed(t, p.threshold, dealers)
    requires AllReadable(p, t, dealers)
  {
    if dealers == [] then 0
    else
      var d := dealers[|dealers| - 1];
      assert Readable(p, t, d);
      Deficit(p, t, dealers[..|dealers| - 1])
      + if d in p.received then 0
        else
          var c := CommittedAt(CommitmentsOf(t.broadcasts, d, p.threshold).value, p.index);
          p.ShareFrom(t, d).value.number - c.log
  }

  /** Stored shares agree with the commitments that count in the transcript. */
  ghost predicate ReceivedConsistent(p: Participant, t: Transcript) {
    forall d :: d in p.received && CommitmentsOf(t.broadcasts, d, p.threshold).Some?
      ==> ShareMatches(p.received[d], CommitmentsOf(t.broadcasts, d, p.threshold).value, p.index)
  }

  lemma {:induction false} SumSharesValue(p: Participant, t: Transcript, dealers: seq<int>)
    requires AllParsed(t, p.threshold, dealers) && ReceivedConsistent(p, t)
    ensures p.SumShares(t, dealers).Returns? <==> AllReadable(p, t, dealers)
    ensures p.SumShares(t, dealers).Returns? ==>
              && 0 <= p.SumShares(t, dealers).value < L
              && Cong(p.SumShares(t, dealers).value,
                      SumAt(t, p.threshold, dealers, p.index).log + Deficit(p, t, dealers))
  {
    hide Cong, CommittedAt, CommitmentsOf, Add;
    if dealers == [] {
      CongBy(0, 0, 0);
    } else {
      var n := |dealers| - 1;
      var init, d := dealers[..n], dealers[n];
      assert dealers == init + [d];
      SumSharesValue(p, t, init);
      if p.SumShares(t, init).Returns? && Readable(p, t, d) {
        var s := p.ShareFrom(t, d).value.number;
        var c := CommittedAt(CommitmentsOf(t.broadcasts, d, p.threshold).value, p.index);
        ScaleBase(s);
        SumShareStep(p.SumShares(t, init).value, s, SumAt(t, p.threshold, init, p.index), c, Deficit(p, t, init),
                     if d in p.received then 0 else s - c.log);
      }
    }
  }

  lemma SumShareStep(y: int, s: int, sum: Point, c: Point, deficit: int, extra: int)
    requires Cong(y, sum.log + deficit) && s == c.log + extra
    ensures Cong(Mod(y + s), Add(sum, c).log + (deficit + extra))
  {
    CongBy(s, s, 0);
    CongAdd(y, sum.log + deficit, s, s);
    CongTrans(Mod(y + s), y + s, sum.log + deficit + s);
    CongSym(Add(sum, c).log, sum.log + c.log);
    CongBy(deficit + extra, deficit + extra, 0);
    CongAdd(sum.log + c.log, Add(sum, c).log, deficit + extra, deficit + extra);
    CongTrans(Mod(y + s), sum.log + deficit + s, Add(sum, c).log + (deficit + extra));
  }

  /** What the participant needs from the transcript: for every qualified dealer a
      readable share, and no net deviation of the disclosed ones from the commitments. */
  predicate SharesAvailable(p: Participant, t: Transcript) {
    var q := Qualified(t, p.participants, p.threshold, p.participants);
    && AllReadable(p, t, q)
    && Mod(Deficit(p, t, q)) == 0
  }

  /** `Finalize` returns exactly when the transcript has a public result, its
      disclosed shares do not deviate, and the key share is not zero. */
  lemma FinalizeReturnsExactly(p: Participant, t: Transcript)
    requires p.index in p.participants && ReceivedConsistent(p, t)
    ensures p.Finalize(t).Returns?
            <==> && PublicResultOf(t, p.participants, p.threshold).Returns?
                 && SharesAvailable(p, t)
                 && Mod(Eval(ResultPolynomial(t, p.participants, p.threshold), p.index)) != 0
  {
    hide Qualified, ResultPolynomial, Eval, Deficit, ReceivedConsistent, SumAt, Cong;
    var q := Qualified(t, p.participants, p.threshold, p.participants);
    var f := ResultPolynomial(t, p.participants, p.threshold);
    if PublicResultOf(t, p.participants, p.threshold).Returns? {
      SumSharesValue(p, t, q);
      if p.SumShares(t, q).Returns? {
        SumAtIsShare(t, p.participants, p.threshold, p.index);
        var sum := SumAt(t, p.threshold, q, p.index);
        FinalizeArithmetic(p.SumShares(t, q).value, Eval(f, p.index), sum, Deficit(p, t, q));
      }
    }
  }

  lemma FinalizeArithmetic(y: int, v: int, sum: Point, deficit: int)
    requires 0 <= y < L && sum == Scale(BASE, v) && Cong(y, sum.log + deficit)
    ensures Scale(BASE, y) == sum <==> Mod(deficit) == 0
    ensures Mod(deficit) == 0 ==> y == Mod(v)
  {
    ScaleBase(y);
    CongBy(sum.log, sum.log, 0);
    ModSmall(0);
    ModEq(deficit, 0);
    if Cong(deficit, 0) {
      CongAdd(deficit, 0, sum.log, sum.log);
      CongTrans(y, sum.log + deficit, sum.log);
      CongUnique(y, sum.log);
      ModEq(1 * v, v);
    }
    if Scale(BASE, y) == sum {
      CongBy(-sum.log, -sum.log, 0);
      CongAdd(y, sum.log + deficit, -sum.log, -sum.log);
      CongSym(0, deficit);
    }
  }

  ghost predicate SingleDisclosures(t: Transcript, recipient: int) {
    forall d :: |Disclosed(t.disclosed, d, recipient)| <= 1
  }

  lemma {:induction false} DisclosedMember(disclosed: seq<Reveal>, d: int, recipient: int, r: Reveal)
    ensures r in Disclosed(disclosed, d, recipient) <==> r in disclosed && r.dealer == d && r.recipient == recipient
  {
    if disclosed != [] {
      DisclosedMember(disclosed[1..], d, recipient, r);
      assert disclosed == [disclosed[0]] + disclosed[1..];
    }
  }

  lemma FromSingle(broadcasts: seq<Broadcast>, d: int, threshold: nat)
    requires CommitmentsOf(broadcasts, d, threshold).Some?
    ensures ParseCommitments(First(From(broadcasts, d)), threshold) == CommitmentsOf(broadcasts, d, threshold)
  {
  }

  /** A participant that received on the transcript's own broadcasts without
      stopping, whose complaints are all listed, and for whom each dealer
      disclosed at most one share, has every share it needs: it finalizes
      unless there is no public result or its key share is zero. */
  lemma ReceiverFinalizes(p: Participant, shares: seq<EncryptedShare>, t: Transcript)
    requires p.index in p.participants && p.received == map[]
    requires !p.Receive(t.broadcasts, shares, p.participants).aborted
    requires forall c :: c in p.Receive(t.broadcasts, shares, p.participants).complaints ==> c in t.complaints
    requires SingleDisclosures(t, p.index)
    ensures var after := p.(received := p.Receive(t.broadcasts, shares, p.participants).received);
            after.Finalize(t).Returns?
            <==> && PublicResultOf(t, p.participants, p.threshold).Returns?
                 && Mod(Eval(ResultPolynomial(t, p.participants, p.threshold), p.index)) != 0
  {
    var after := p.(received := p.Receive(t.broadcasts, shares, p.participants).received);
    ReceiveStoresMatching(p, t.broadcasts, shares, p.participants);
    forall d | d in after.received && CommitmentsOf(t.broadcasts, d, p.threshold).Some?
      ensures ShareMatches(after.received[d], CommitmentsOf(t.broadcasts, d, p.threshold).value, p.index)
    {
      FromSingle(t.broadcasts, d, p.threshold);
      assert StoredMatches(p.index, p.threshold, t.broadcasts, d, after.received[d]);
    }
    var q := Qualified(t, p.participants, p.threshold, p.participants);
    forall d | d in q
      ensures Readable(after, t, d)
      ensures ShareMatches(after.ShareFrom(t, d).value, CommitmentsOf(t.broadcasts, d, p.threshold).value, p.index)
    {
      QualifiedShareMatches(p, after, shares, t, d);
    }
    NoDeficit(after, t, q);
    ModSmall(0);
    FinalizeReturnsExactly(after, t);
  }

  lemma QualifiedShareMatches(p: Participant, after: Participant, shares: seq<EncryptedShare>, t: Transcript, d: int)
    requires p.index in p.participants && p.received == map[]
    requires after == p.(received := p.Receive(t.broadcasts, shares, p.participants).received)
    requires !p.Receive(t.broadcasts, shares, p.participants).aborted
    requires forall c :: c in p.Receive(t.broadcasts, shares, p.participants).complaints ==> c in t.complaints
    requires SingleDisclosures(t, p.index)
    requires d in p.participants && Qualifies(t, p.participants, p.threshold, d)
    ensures Readable(after, t, d)
    ensures ShareMatches(after.ShareFrom(t, d).value, CommitmentsOf(t.broadcasts, d, p.threshold).value, p.index)
  {
    ReceiveStoresMatching(p, t.broadcasts, shares, p.participants);
    FromSingle(t.broadcasts, d, p.threshold);
    if d in after.received {
      assert StoredMatches(p.index, p.threshold, t.broadcasts, d, after.received[d]);
    } else {
      assert Complaint(p.index, d) in t.complaints;
      var r :| r in t.disclosed && r.dealer == d && r.recipient == p.index
               && ShareMatches(r.share, CommitmentsOf(t.broadcasts, d, p.threshold).value, p.index);
      DisclosedMember(t.disclosed, d, p.index, r);
      assert |Disclosed(t.disclosed, d, p.index)| <= 1;
    }
  }

  lemma {:induction false} NoDeficit(p: Participant, t: Transcript, dealers: seq<int>)
    requires AllParsed(t, p.threshold, dealers)
    requires AllReadable(p, t, dealers)
    requires forall d :: d in dealers ==>
               ShareMatches(p.ShareFrom(t, d).value, CommitmentsOf(t.broadcasts, d, p.threshold).value, p.index)
    ensures Deficit(p, t, dealers) == 0
  {
    if dealers != [] {
      var d := dealers[|dealers| - 1];
      NoDeficit(p, t, dealers[..|dealers| - 1]);
      ScaleBase(p.ShareFrom(t, d).value.number);
    }
  }

  /** Dealer 1 answers participant 2 with an unreadable share first and the right one second. */
  function TwoAnswers(): Transcript {
    Transcript([Broadcast(1, [Encoded(BASE)])], [Complaint(2, 1)], [Reveal(1, 2, NotHex), Reveal(1, 2, Hex(1))])
  }

  lemma DealerAnswers()
    ensures Answered(TwoAnswers().disclosed, [BASE], 1, 2)
  {
    OneDealer(TwoAnswers().broadcasts);
    hide ShareMatches;
    assert TwoAnswers().disclosed[1] in TwoAnswers().disclosed;
  }

  lemma DealerStays()
    ensures Qualified(TwoAnswers(), [1, 2], 1, [1, 2]) == [1]
  {
    OneDealer(TwoAnswers().broadcasts);
    DealerAnswers();
    hide Answered, CommitmentsOf;
    assert Qualifies(TwoAnswers(), [1, 2], 1, 1) && !Qualifies(TwoAnswers(), [1, 2], 1, 2);
    hide Qualifies;
    assert [1, 2][..1] == [1] && [1][..0] == [];
    assert Qualified(TwoAnswers(), [1, 2], 1, [1]) == [1];
  }

  lemma ResultExists()
    ensures PublicResultOf(TwoAnswers(), [1, 2], 1).Returns?
  {
    DealerStays();
    GroupKeyIsBase();
    hide SumAt, Qualified, KeysAt, TwoAnswers;
  }

  lemma GroupKeyIsBase()
    ensures AllParsed(TwoAnswers(), 1, [1]) && SumAt(TwoAnswers(), 1, [1], 0) == BASE
  {
    var t := TwoAnswers();
    OneDealer(t.broadcasts);
    ConstantTerm([BASE], 1, t.broadcasts, 1);
    ModSmall(1);
    hide CommitmentsOf, CommittedAt, Mod;
    assert [1][..0] == [];
    assert SumAt(t, 1, [1], 0) == Add(SumAt(t, 1, [], 0), CommittedAt([BASE], 0));
  }

  lemma FirstAnswerUnreadable(p: Participant)
    requires p.index == 2 && p.received == map[]
    ensures p.SumShares(TwoAnswers(), [1]) == Throws
  {
    assert First(Disclosed(TwoAnswers().disclosed, 1, 2)).value.share == NotHex;
  }

  /** Without the single disclosure the claim fails: the dealer with two answers stays in
      QUAL, and participant 2 cannot finalize. */
  lemma TwoDisclosuresBlock(p: Participant)
    requires p.index == 2 && p.threshold == 1 && p.participants == [1, 2] && p.received == map[]
    ensures PublicResultOf(TwoAnswers(), p.participants, p.threshold).Returns?
    ensures Qualified(TwoAnswers(), p.participants, p.threshold, p.participants) == [1]
    ensures p.Finalize(TwoAnswers()) == Throws
  {
    DealerStays();
    ResultExists();
    FirstAnswerUnreadable(p);
    hide Qualified, SumAt, KeysAt, TwoAnswers;
  }

  lemma OneDealer(bs: seq<Broadcast>)
    requires bs == [Broadcast(1, [Encoded(BASE)])]
    ensures CommitmentsOf(bs, 1, 1) == Some([BASE]) && CommitmentsOf(bs, 2, 1) == None
    ensures ShareMatches(Hex(1), [BASE], 2)
  {
    assert From(bs[1..], 1) == [] && From(bs[1..], 2) == [];
    assert From(bs, 1) == bs && From(bs, 2) == [];
    assert ParsePoint(bs[0].commitments[0]) == Returns(BASE);
    assert ParseAll(bs[0].commitments[1..]) == Returns([]);
    assert [BASE] + [] == [BASE];
    assert ParseAll(bs[0].commitments).value == [BASE];
    assert Logs([BASE])[1..] == [];
    assert Eval(Logs([BASE]), 2) == 1;
    ScaleBase(1);
    ModSmall(1);
  }

  // ----- Agreement on the public result -----

  lemma {:induction false} FromMultiset(broadcasts: seq<Broadcast>, d: int, b: Broadcast)
    ensures multiset(From(broadcasts, d))[b] == if b.dealer == d then multiset(broadcasts)[b] else 0
  {
    if broadcasts != [] {
      var head, tail := broadcasts[0], broadcasts[1..];
      FromMultiset(tail, d, b);
      assert broadcasts == [head] + tail;
      assert From(broadcasts, d) == if head.dealer == d then [head] + From(tail, d) else From(tail, d);
    }
  }

  lemma CommitmentsOfPermuted(bs: seq<Broadcast>, bs': seq<Broadcast>, d: int, threshold: nat)
    requires multiset(bs) == multiset(bs')
    ensures CommitmentsOf(bs, d, threshold) == CommitmentsOf(bs', d, threshold)
  {
    forall b: Broadcast ensures multiset(From(bs, d))[b] == multiset(From(bs', d))[b] {
      FromMultiset(bs, d, b);
      FromMultiset(bs', d, b);
    }
    assert multiset(From(bs, d)) == multiset(From(bs', d));
    assert |From(bs, d)| == |multiset(From(bs, d))| == |multiset(From(bs', d))| == |From(bs', d)|;
    if |From(bs, d)| == 1 {
      assert From(bs, d)[0] in multiset(From(bs', d));
    }
  }

  /** The same broadcasts up to order, and complaints and disclosures the same as sets. */
  ghost predicate SameMessages(t: Transcript, t': Transcript) {
    && multiset(t.broadcasts) == multiset(t'.broadcasts)
    && (forall c :: c in t.complaints <==> c in t'.complaints)
    && (forall r :: r in t.disclosed <==> r in t'.disclosed)
  }

  lemma {:induction false} SameQualified(t: Transcript, t': Transcript, participants: seq<int>, threshold: nat,
                                         among: seq<int>)
    requires SameMessages(t, t')
    ensures Qualified(t, participants, threshold, among) == Qualified(t', participants, threshold, among)
  {
    if among != [] {
      SameQualified(t, t', participants, threshold, among[..|among| - 1]);
      var d := among[|among| - 1];
      CommitmentsOfPermuted(t.broadcasts, t'.broadcasts, d, threshold);
      assert Qualifies(t, participants, threshold, d) == Qualifies(t', participants, threshold, d);
    }
  }

  lemma {:induction false} SameSum(t: Transcript, t': Transcript, threshold: nat, dealers: seq<int>, j: int)
    requires SameMessages(t, t') && AllParsed(t, threshold, dealers) && AllParsed(t', threshold, dealers)
    ensures SumAt(t, threshold, dealers, j) == SumAt(t', threshold, dealers, j)
  {
    if dealers != [] {
      SameSum(t, t', threshold, dealers[..|dealers| - 1], j);
      CommitmentsOfPermuted(t.broadcasts, t'.broadcasts, dealers[|dealers| - 1], threshold);
    }
  }

  /** The public result does not depend on the order of messages, nor on how
      often complaints and disclosures are repeated. */
  lemma PublicResultPermuted(t: Transcript, t': Transcript, participants: seq<int>, threshold: nat)
    requires SameMessages(t, t')
    ensures PublicResultOf(t, participants, threshold) == PublicResultOf(t', participants, threshold)
  {
    SameQualified(t, t', participants, threshold, participants);
    var q := Qualified(t, participants, threshold, participants);
    forall j ensures SumAt(t, threshold, q, j) == SumAt(t', threshold, q, j) {
      SameSum(t, t', threshold, q, j);
    }
    assert KeysAt(t, threshold, q, participants) == KeysAt(t', threshold, q, participants);
  }

  /** More disclosures never disqualify a dealer, and more complaints never qualify one. */
  lemma QualMonotone(t: Transcript, t': Transcript, participants: seq<int>, threshold: nat, d: int)
    requires multiset(t.broadcasts) == multiset(t'.broadcasts)
    requires forall r :: r in t.disclosed ==> r in t'.disclosed
    requires forall c :: c in t'.complaints ==> c in t.complaints
    requires d in Qualified(t, participants, threshold, participants)
    ensures d in Qualified(t', participants, threshold, participants)
  {
    CommitmentsOfPermuted(t.broadcasts, t'.broadcasts, d, threshold);
    var c := CommitmentsOf(t.broadcasts, d, threshold).value;
    forall k | k in t'.complaints && k.dealer == d && k.complainer in participants
      ensures Answered(t'.disclosed, c, d, k.complainer)
    {
      assert Answered(t.disclosed, c, d, k.complainer);
    }
  }
}
