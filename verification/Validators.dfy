/** One validator as a protocol state machine: every message it accepts carries a
    signature of its rightful sender under the current session. */
module Validators {
  import opened Residues
  import opened Outcomes
  import opened Group
  import opened Threshold
  import opened OrderCipher
  import opened Dkg
  import opened Participants

  datatype TransportKey = TransportKey(index: int, key: PointText)

  /** A signed message: its payload (a session and a body), the claimed signer, and
      whether the signature verifies under that signer's registered key for the
      domain of this kind of message. */
  datatype Signed<+T> = Signed(signer: int, session: string, body: T, genuine: bool)

  datatype SignedTranscript = SignedTranscript(broadcasts: seq<Signed<Broadcast>>,
                                               complaints: seq<Signed<Complaint>>,
                                               disclosed: seq<Signed<Reveal>>)

  /** A collision-free hash of a verified transcript. */
  datatype TranscriptHash = TranscriptHash(transcript: Transcript)

  datatype ResultStatement = ResultStatement(hash: TranscriptHash, result: PublicResult)

  /** Kept after key generation. */
  datatype KeyInfo = KeyInfo(threshold: nat, participants: seq<int>, groupPublicKey: Point,
                             verificationKeys: map<int, Point>)

  datatype Validator = Validator(index: int, peers: set<int>, keyShare: Option<KeyShare>, keyInfo: Option<KeyInfo>,
                                 dkg: Option<Participant>)
  {
    /** `valid`: signed by the expected sender, a known peer, under our session. */
    predicate Accepts<T>(m: Signed<T>, expected: int) {
      && m.signer == expected
      && dkg.Some? && m.session == dkg.value.session
      && expected in peers && m.genuine
    }

    /** `dkgBegin`. Errors leave the validator unchanged. */
    function Begin(session: string, threshold: int, participants: seq<int>, secret: int, coeffs: seq<int>)
      : Outcome<(Validator, Signed<TransportKey>)>
    {
      if keyShare.Some? then Throws
      else if !(forall k :: 0 <= k < |participants| ==> participants[k] in peers) then Throws
      else if threshold < 1 || !CanBegin(index, threshold, participants) then Throws
      else
        var p := Participant(index, threshold, participants, session, secret, coeffs, map[]);
        Returns((this.(dkg := Some(p)),
                 Signed(index, session, TransportKey(index, Encoded(p.TransportPublicKey())), true)))
    }

    function KeysFor(p: int, keys: seq<Signed<TransportKey>>): seq<TransportKey> {
      if keys == [] then []
      else
        var k := keys[0];
        (if k.body.index == p && Accepts(k, p) then [k.body] else []) + KeysFor(p, keys[1..])
    }

    predicate HasEveryKey(keys: seq<Signed<TransportKey>>)
      requires dkg.Some?
    {
      forall p :: p in dkg.value.participants ==> |KeysFor(p, keys)| == 1
    }

    /** `dkgDeal`: refused unless every participant has exactly one genuine transport key. */
    function Deal(keys: seq<Signed<TransportKey>>, randoms: seq<int>)
      : Outcome<(Signed<Broadcast>, seq<Signed<EncryptedShare>>)>
      requires dkg.Some? ==> |randoms| == |dkg.value.participants|
    {
      if dkg.None? || !HasEveryKey(keys) then Throws
      else
        var d := dkg.value;
        var table := map p | p in d.participants :: KeysFor(p, keys)[0].key;
        var shares :- d.SealedShares(table, randoms, d.participants);
        Returns((Signed(index, d.session, d.OwnBroadcast(), true), SignAll(d.session, shares)))
    }

    function SignAll<T>(session: string, bodies: seq<T>): (r: seq<Signed<T>>)
      ensures |r| == |bodies|
      ensures forall k :: 0 <= k < |r| ==> r[k] == Signed(index, session, bodies[k], true)
    {
      seq(|bodies|, k requires 0 <= k < |bodies| => Signed(index, session, bodies[k], true))
    }

    function VerifiedBroadcasts(ms: seq<Signed<Broadcast>>): seq<Broadcast> {
      if ms == [] then []
      else (if Accepts(ms[0], ms[0].body.dealer) then [ms[0].body] else []) + VerifiedBroadcasts(ms[1..])
    }

    function VerifiedShares(ms: seq<Signed<EncryptedShare>>): seq<EncryptedShare> {
      if ms == [] then []
      else
        (if ms[0].body.recipient == index && Accepts(ms[0], ms[0].body.dealer) then [ms[0].body] else [])
        + VerifiedShares(ms[1..])
    }

    function VerifiedComplaints(ms: seq<Signed<Complaint>>): seq<Complaint> {
      if ms == [] then []
      else (if Accepts(ms[0], ms[0].body.complainer) then [ms[0].body] else []) + VerifiedComplaints(ms[1..])
    }

    function VerifiedDisclosures(ms: seq<Signed<Reveal>>): seq<Reveal> {
      if ms == [] then []
      else (if Accepts(ms[0], ms[0].body.dealer) then [ms[0].body] else []) + VerifiedDisclosures(ms[1..])
    }

    /** `verifyTranscript`. */
    function VerifyTranscript(t: SignedTranscript): Transcript {
      Transcript(VerifiedBroadcasts(t.broadcasts), VerifiedComplaints(t.complaints), VerifiedDisclosures(t.disclosed))
    }

    /** `dkgReceive`. Shares stored before an abort stay stored. */
    function Receive(broadcasts: seq<Signed<Broadcast>>, shares: seq<Signed<EncryptedShare>>)
      : (Validator, Outcome<seq<Signed<Complaint>>>)
    {
      if dkg.None? then (this, Throws)
      else
        var d := dkg.value;
        var r := d.Receive(VerifiedBroadcasts(broadcasts), VerifiedShares(shares), d.participants);
        (this.(dkg := Some(d.(received := r.received))),
         if r.aborted then Throws else Returns(SignAll(d.session, r.complaints)))
    }

    /** `dkgRespond`: only complaints that the complainer signed are answered. */
    function Respond(complaints: seq<Signed<Complaint>>): Outcome<seq<Signed<Reveal>>> {
      if dkg.None? then Throws
      else Returns(SignAll(dkg.value.session, dkg.value.Respond(VerifiedComplaints(complaints))))
    }

    /** `dkgFinalize`: keeps the key share, ends the session and states the result. */
    function Finalize(st: SignedTranscript): Outcome<(Validator, Signed<ResultStatement>)> {
      if dkg.None? then Throws
      else
        var d, t := dkg.value, VerifyTranscript(st);
        var out :- d.Finalize(t);
        var (share, result) := out;
        var info := KeyInfo(result.threshold, d.participants, result.groupPublicKey, result.verificationKeys);
        Returns((this.(keyShare := Some(share), keyInfo := Some(info), dkg := None),
                 Signed(index, d.session, ResultStatement(TranscriptHash(t), result), true)))
    }
  }
}
