/** One validator's side of the key generation: a polynomial, a transport key
    and the shares received so far. */
module Participants {
  import opened Residues
  import opened Lagrange
  import opened Outcomes
  import opened Group
  import opened Threshold
  import opened OrderCipher
  import opened Dkg

  /** The state of a participant; only `received` changes. */
  datatype Participant = Participant(index: int, threshold: nat, participants: seq<int>, session: string,
                                     transportSecret: int, coeffs: seq<int>, received: map<int, ScalarText>)
  {
    /** What the constructor establishes: its two checks, and random nonzero scalars. */
    ghost predicate Valid() {
      && CanBegin(index, threshold, participants)
      && 0 < transportSecret < L
      && |coeffs| == threshold
      && forall k :: 0 <= k < |coeffs| ==> 0 < coeffs[k] < L
    }

    function TransportPublicKey(): Point {
      Scale(BASE, transportSecret)
    }

    /** This dealer's share for x. */
    function ShareFor(x: int): nat {
      Horner(coeffs, x)
    }

    function OwnBroadcast(): Broadcast {
      Broadcast(index, EncodeAll(Commit(coeffs)))
    }

    /** Round 1 for one recipient j, with the ephemeral scalar e. */
    function SealedShare(keys: map<int, PointText>, j: int, e: int): Outcome<EncryptedShare> {
      if j !in keys then Throws
      else
        var ct :- Encrypt(ScalarToHex(ShareFor(j)), keys[j], ShareContext(session, index, j), e);
        Returns(EncryptedShare(index, j, ct))
    }

    function SealedShares(keys: map<int, PointText>, randoms: seq<int>, js: seq<int>): Outcome<seq<EncryptedShare>>
      requires |js| == |randoms|
    {
      if js == [] then Returns([])
      else
        var n := |js| - 1;
        var init :- SealedShares(keys, randoms[..n], js[..n]);
        var last :- SealedShare(keys, js[n], randoms[n]);
        Returns(init + [last])
    }

    /** Round 3: the disputed shares, for the complaints against this dealer. */
    function Respond(complaints: seq<Complaint>): seq<Reveal> {
      if complaints == [] then []
      else
        var c := complaints[0];
        (if c.dealer == index then [Reveal(index, c.complainer, ScalarToHex(ShareFor(c.complainer)))] else [])
        + Respond(complaints[1..])
    }

    /** Decrypts a share addressed to this participant. */
    function Open(ct: Ciphertext<ScalarText>, dealer: int): Outcome<ScalarText> {
      var r :- ParseR(ct);
      var k :- Multiply(r, transportSecret);
      Decrypt(ct, k, ShareContext(session, dealer, index))
    }

    /** Round 2 for one dealer. */
    function ReceiveFrom(broadcasts: seq<Broadcast>, shares: seq<EncryptedShare>, before: Progress, dealer: int)
      : Progress
    {
      var c := ParseCommitments(First(From(broadcasts, dealer)), threshold);
      var msg := First(Addressed(shares, dealer, index));
      if c.None? then before
      else if msg.None? then before.(aborted := true)
      else
        var share := Open(msg.value.ciphertext, dealer);
        if share.Returns? && ShareMatches(share.value, c.value, index)
        then before.(received := before.received[dealer := share.value])
        else before.(complaints := before.complaints + [Complaint(index, dealer)])
    }

    /** Round 2 for the first dealers of the list. A missing share stops it, and
        what was stored until then stays stored. */
    function Receive(broadcasts: seq<Broadcast>, shares: seq<EncryptedShare>, dealers: seq<int>): Progress {
      if dealers == [] then Progress(received, [], false)
      else
        var before := Receive(broadcasts, shares, dealers[..|dealers| - 1]);
        if before.aborted then before
        else ReceiveFrom(broadcasts, shares, before, dealers[|dealers| - 1])
    }

    /** The share that is used for a dealer: the one received, else the first one disclosed. */
    function ShareFrom(t: Transcript, dealer: int): Option<ScalarText> {
      if dealer in received then Some(received[dealer])
      else
        var r := First(Disclosed(t.disclosed, dealer, index));
        if r.None? then None else Some(r.value.share)
    }

    /** The sum of the shares of the dealers. */
    function SumShares(t: Transcript, dealers: seq<int>): Outcome<int> {
      if dealers == [] then Returns(0)
      else
        var y :- SumShares(t, dealers[..|dealers| - 1]);
        var share := ShareFrom(t, dealers[|dealers| - 1]);
        if share.None? then Throws
        else
          var s :- HexToScalar(share.value);
          Returns(Mod(y + s))
    }

    /** Round 4. */
    function Finalize(t: Transcript): Outcome<(KeyShare, PublicResult)> {
      var result :- PublicResultOf(t, participants, threshold);
      var y :- SumShares(t, result.qualified);
      if y <= 0 || y >= L then Throws
      else
        var vk := Scale(BASE, y);
        if index !in result.verificationKeys || vk != result.verificationKeys[index] then Throws
        else Returns((KeyShare(index, ScalarToHex(y), Encoded(vk)), result))
    }
  }

  datatype Progress = Progress(received: map<int, ScalarText>, complaints: seq<Complaint>, aborted: bool)

  predicate CanBegin(index: int, threshold: nat, participants: seq<int>) {
    index in participants && 1 <= threshold <= |participants|
  }

  function EncodeAll(points: seq<Point>): (r: seq<PointText>)
    ensures |r| == |points|
  {
    seq(|points|, k requires 0 <= k < |points| => Encoded(points[k]))
  }

  function First<T>(s: seq<T>): Option<T> {
    if s == [] then None else Some(s[0])
  }

  function Addressed(shares: seq<EncryptedShare>, dealer: int, recipient: int): seq<EncryptedShare> {
    if shares == [] then []
    else
      var rest := Addressed(shares[1..], dealer, recipient);
      if shares[0].dealer == dealer && shares[0].recipient == recipient then [shares[0]] + rest else rest
  }

  function Disclosed(disclosed: seq<Reveal>, dealer: int, recipient: int): seq<Reveal> {
    if disclosed == [] then []
    else
      var rest := Disclosed(disclosed[1..], dealer, recipient);
      if disclosed[0].dealer == dealer && disclosed[0].recipient == recipient then [disclosed[0]] + rest else rest
  }
}
