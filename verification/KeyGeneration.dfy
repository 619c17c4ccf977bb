/** What the key generation achieves: one polynomial behind all shares, a key
    that any quorum can use, and no way for others to push out an honest party. */
module KeyGeneration {
  import opened Residues
  import opened Lagrange
  import opened Outcomes
  import opened Group
  import opened Threshold
  import opened OrderCipher
  import opened Dkg
  import opened Participants

  // ----- Every finalized share lies on the polynomial of the transcript -----

  lemma SameScale(y: int, v: int)
    requires 0 <= y < L && Scale(BASE, y) == Scale(BASE, v)
    ensures y == Mod(v)
  {
    ScaleBase(y);
    ModEq(1 * v, v);
  }

  /** If `Finalize` returns, the secret is the value at the participant's index
      of the one polynomial that the transcript determines. */
  lemma FinalizedShareOnPolynomial(p: Participant, t: Transcript)
    requires p.Finalize(t).Returns?
    ensures var (share, result) := p.Finalize(t).value;
            var f := ResultPolynomial(t, p.participants, p.threshold);
            && PublicResultOf(t, p.participants, p.threshold) == Returns(result)
            && share.index == p.index && p.index in p.participants
            && share.secret == Hex(Mod(Eval(f, p.index))) && Mod(Eval(f, p.index)) != 0
            && share.verificationKey == Encoded(result.verificationKeys[p.index])
            && share.verificationKey == Encoded(Scale(BASE, share.secret.number))
  {
    var (share, result) := p.Finalize(t).value;
    ResultOnOnePolynomial(t, p.participants, p.threshold);
    SameScale(share.secret.number, Eval(ResultPolynomial(t, p.participants, p.threshold), p.index));
  }

  // ----- Any verified quorum recovers the sender's point -----

  ghost predicate VerifiedShares(h: PointHash, shares: seq<DecryptionShare>, keys: map<int, Point>, r: Point) {
    forall s :: s in shares ==> s.index in keys && VerifyDecryptionShare(h, s, Encoded(keys[s.index]), Encoded(r))
  }

  /** The hash did not hit the commitments of any of the shares. */
  ghost predicate NoneLucky(h: PointHash, shares: seq<DecryptionShare>, keys: map<int, Point>, r: Point) {
    forall s :: s in shares && s.index in keys ==> !Lucky(h, s, Encoded(keys[s.index]), Encoded(r))
  }

  lemma VerifiedShareCorrect(h: PointHash, s: DecryptionShare, f: seq<int>, key: Point, r: Point)
    requires VerifyDecryptionShare(h, s, Encoded(key), Encoded(r)) && !Lucky(h, s, Encoded(key), Encoded(r))
    requires key == Scale(BASE, Eval(f, s.index))
    ensures CorrectShare(s, f, r)
  {
    VerifiedIsCorrect(h, s, Encoded(key), Encoded(r));
    ScaleByLog(r, Eval(f, s.index));
  }

  /** Scaling by the logarithm of v·G is scaling by v. */
  lemma ScaleByLog(r: Point, v: int)
    ensures Scale(r, Scale(BASE, v).log) == Scale(r, v)
  {
    CongScale(r.log, Scale(BASE, v).log, 1 * v);
    ModEq(r.log * Scale(BASE, v).log, r.log * v);
  }

  /** End to end: whatever the dealers did, decryption shares that verify against
      the verification keys of the result, for at least `threshold` different
      indices and none of them lucky, combine to exactly the point K = e·Y that the sender used, so
      they open the order. */
  lemma VerifiedSharesOpenOrder(t: Transcript, participants: seq<int>, threshold: nat, h: PointHash,
                                shares: seq<DecryptionShare>, plain: string, address: string, e: int)
    requires PublicResultOf(t, participants, threshold).Returns? && 0 < e < L
    requires var keys := PublicResultOf(t, participants, threshold).value.verificationKeys;
             VerifiedShares(h, shares, keys, Scale(BASE, e)) && NoneLucky(h, shares, keys, Scale(BASE, e))
    requires GoodIndices(shares) && threshold <= |IndexSet(shares)|
    ensures var y := PublicResultOf(t, participants, threshold).value.groupPublicKey;
            var ct := Encrypt(plain, Encoded(y), address, e);
            && Combine(shares, threshold) == Returns(Scale(y, e))
            && ct.Returns? && Decrypt(ct.value, Scale(y, e), address) == Returns(plain)
  {
    var result := PublicResultOf(t, participants, threshold).value;
    var f, r := ResultPolynomial(t, participants, threshold), Scale(BASE, e);
    ResultOnOnePolynomial(t, participants, threshold);
    forall s | s in shares ensures CorrectShare(s, f, r) {
      VerifiedShareCorrect(h, s, f, result.verificationKeys[s.index], r);
    }
    CombineCorrect(shares, threshold, f, r);
    SharedPoint(Eval(f, 0), e);
    OpensOnlyWithSharedPoint(plain, Eval(f, 0), address, e, Scale(r, Eval(f, 0)), address);
  }

  /** A participant that finalized answers every ephemeral key, and its answer
      verifies exactly when the response of its proof is not zero. */
  lemma FinalizedShareVerifies(p: Participant, t: Transcript, h: PointHash, r: Point, k: int)
    requires p.Finalize(t).Returns? && r != ZERO && 0 < k < L
    ensures var (share, result) := p.Finalize(t).value;
            var ds := PartialDecrypt(h, share, Encoded(r), k);
            && ds.Returns? && ds.value.index == p.index && p.index in result.verificationKeys
            && (VerifyDecryptionShare(h, ds.value, Encoded(result.verificationKeys[p.index]), Encoded(r))
                <==> ds.value.z != Hex(0))
  {
    FinalizedShareOnPolynomial(p, t);
    Completeness(h, p.Finalize(t).value.0, Encoded(r), k);
  }

  // ----- Honest dealers stay in QUAL -----

  lemma {:induction false} ParseEncoded(points: seq<Point>)
    requires ZERO !in points
    ensures ParseAll(EncodeAll(points)) == Returns(points)
  {
    if points != [] {
      ParseEncoded(points[1..]);
      assert EncodeAll(points)[1..] == EncodeAll(points[1..]);
      assert points == [points[0]] + points[1..];
    }
  }

  lemma OwnCommitmentsParse(p: Participant)
    requires p.Valid()
    ensures ParseCommitments(Some(p.OwnBroadcast()), p.threshold) == Some(Commit(p.coeffs))
  {
    forall k | 0 <= k < |p.coeffs| ensures Commit(p.coeffs)[k] != ZERO {
      ScaleBase(p.coeffs[k]);
    }
    ParseEncoded(Commit(p.coeffs));
  }

  /** A dealer's own share matches its commitments exactly when it is not zero,
      because the text of the scalar zero is refused. */
  lemma OwnShareMatches(p: Participant, j: int, s: nat)
    requires p.Valid() && s < L
    ensures ShareMatches(Hex(s), Commit(p.coeffs), j) <==> s == p.ShareFor(j) && s != 0
  {
    CommitmentsMatchPolynomial(p.coeffs, j);
    ScaleBase(s);
    ScaleBase(p.ShareFor(j));
  }

  ghost predicate OnlyOwnDisclosures(p: Participant, disclosed: seq<Reveal>) {
    forall r :: r in disclosed && r.dealer == p.index ==> r.share == Hex(p.ShareFor(r.recipient))
  }

  /** The complaints that count against a dealer. */
  ghost predicate Accuses(t: Transcript, participants: seq<int>, dealer: int, complainer: int) {
    Complaint(complainer, dealer) in t.complaints && complainer in participants
  }

  /** An honest dealer whose one broadcast and whose answers to all complaints
      are in the transcript is in QUAL, unless it was accused by a participant
      whose share happens to be zero: that answer is unreadable. */
  lemma HonestDealerQualifies(p: Participant, t: Transcript)
    requires p.Valid() && From(t.broadcasts, p.index) == [p.OwnBroadcast()]
    requires OnlyOwnDisclosures(p, t.disclosed)
    requires forall r :: r in p.Respond(t.complaints) ==> r in t.disclosed
    ensures Qualifies(t, p.participants, p.threshold, p.index)
            <==> forall j :: Accuses(t, p.participants, p.index, j) ==> p.ShareFor(j) != 0
  {
    OwnCommitmentsParse(p);
    var c := Commit(p.coeffs);
    forall j | Accuses(t, p.participants, p.index, j)
      ensures Answered(t.disclosed, c, p.index, j) <==> p.ShareFor(j) != 0
    {
      RespondAnswers(p, t.complaints, j);
      OwnShareMatches(p, j, p.ShareFor(j));
    }
    assert forall k :: k in t.complaints ==> k == Complaint(k.complainer, k.dealer);
  }

  lemma {:induction false} RespondAnswers(p: Participant, complaints: seq<Complaint>, j: int)
    requires Complaint(j, p.index) in complaints
    ensures Reveal(p.index, j, Hex(p.ShareFor(j))) in p.Respond(complaints)
  {
    if complaints[0] != Complaint(j, p.index) {
      RespondAnswers(p, complaints[1..], j);
    }
  }
}
