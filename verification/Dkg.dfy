/** Distributed key generation with Feldman commitments and public complaints. */
module Dkg {
  import opened Residues
  import opened Lagrange
  import opened Outcomes
  import opened Group
  import opened Threshold
  import opened OrderCipher
  import opened Text

  datatype Broadcast = Broadcast(dealer: int, commitments: seq<PointText>)
  datatype EncryptedShare = EncryptedShare(dealer: int, recipient: int, ciphertext: Ciphertext<ScalarText>)
  datatype Complaint = Complaint(complainer: int, dealer: int)
  datatype Reveal = Reveal(dealer: int, recipient: int, share: ScalarText)

  datatype Transcript = Transcript(broadcasts: seq<Broadcast>, complaints: seq<Complaint>, disclosed: seq<Reveal>)

  datatype PublicResult = PublicResult(threshold: nat, qualified: seq<int>, groupPublicKey: Point,
                                       verificationKeys: map<int, Point>)

  /** Binds an encrypted share to session, dealer and recipient. */
  function ShareContext(session: string, dealer: int, recipient: int): string {
    "cipher-protocol/dkg/" + session + "/" + Decimal(dealer) + "->" + Decimal(recipient)
  }

  /** From the dealer to the recipient. */
  lemma ContextExample()
    ensures ShareContext("s", 1, 2) == "cipher-protocol/dkg/s/1->2"
  {
    assert Digits(1) == ['1'] && Digits(2) == ['2'];
  }

  /** The context determines session, dealer and recipient. */
  lemma ShareContextInjective(s: string, d: int, r: int, s': string, d': int, r': int)
    requires ShareContext(s, d, r) == ShareContext(s', d', r')
    ensures s == s' && d == d' && r == r'
  {
    DecimalIsNumeral(r);
    DecimalIsNumeral(r');
    var x := "cipher-protocol/dkg/" + s + "/" + Decimal(d) + "-";
    var x' := "cipher-protocol/dkg/" + s' + "/" + Decimal(d') + "-";
    assert ShareContext(s, d, r) == x + ['>'] + Decimal(r);
    assert ShareContext(s', d', r') == x' + ['>'] + Decimal(r');
    SplitLast(x, Decimal(r), x', Decimal(r'), '>');
    DecimalInjective(r, r');
    ContextPrefixInjective("cipher-protocol/dkg/", s, d, s', d');
  }

  lemma ContextPrefixInjective(p: string, s: string, d: int, s': string, d': int)
    requires p + s + "/" + Decimal(d) + "-" == p + s' + "/" + Decimal(d') + "-"
    ensures s == s' && d == d'
  {
    DecimalIsNumeral(d);
    DecimalIsNumeral(d');
    var y, y' := Decimal(d) + "-", Decimal(d') + "-";
    assert p + s + "/" + Decimal(d) + "-" == (p + s) + ['/'] + y;
    assert p + s' + "/" + Decimal(d') + "-" == (p + s') + ['/'] + y';
    SplitLast(p + s, y, p + s', y', '/');
    assert Decimal(d) == y[..|y| - 1] && Decimal(d') == y'[..|y'| - 1];
    DecimalInjective(d, d');
    assert s == (p + s)[|p|..] && s' == (p + s')[|p|..];
  }

  // ----- Polynomials and their commitments -----

  /** The dealer's polynomial by Horner's rule, reduced at every step. */
  function Horner(coeffs: seq<int>, x: int): (r: nat)
    ensures r < L
  {
    if coeffs == [] then 0 else Mod(Horner(coeffs[1..], x) * x + coeffs[0])
  }

  lemma {:induction false} HornerCong(coeffs: seq<int>, x: int)
    ensures Cong(Horner(coeffs, x), Eval(coeffs, x))
  {
    if coeffs == [] {
      CongBy(0, 0, 0);
    } else {
      var rest := coeffs[1..];
      HornerCong(rest, x);
      HornerStep(Horner(rest, x), Eval(rest, x), x, coeffs[0]);
    }
  }

  lemma HornerStep(h: int, v: int, x: int, c: int)
    requires Cong(h, v)
    ensures Cong(Mod(h * x + c), c + x * v)
  {
    CongScale(x, h, v);
    CongBy(c, c, 0);
    CongAdd(c, c, h * x, x * v);
    CongTrans(Mod(h * x + c), h * x + c, c + x * v);
  }

  function Logs(points: seq<Point>): (r: seq<int>)
    ensures |r| == |points|
  {
    seq(|points|, k requires 0 <= k < |points| => points[k].log)
  }

  /** The point that the commitments commit to at j. */
  function CommittedAt(commitments: seq<Point>, j: int): Point {
    Element(Mod(Eval(Logs(commitments), j)))
  }

  /** The commitments to a polynomial. */
  function Commit(coeffs: seq<int>): (r: seq<Point>)
    ensures |r| == |coeffs|
  {
    seq(|coeffs|, k requires 0 <= k < |coeffs| => Scale(BASE, coeffs[k]))
  }

  lemma {:induction false} EvalCong(c: seq<int>, d: seq<int>, x: int)
    requires |c| == |d| && forall k :: 0 <= k < |c| ==> Cong(c[k], d[k])
    ensures Cong(Eval(c, x), Eval(d, x))
  {
    if c == [] {
      CongBy(0, 0, 0);
    } else {
      EvalCong(c[1..], d[1..], x);
      CongScale(x, Eval(c[1..], x), Eval(d[1..], x));
      CongAdd(c[0], d[0], x * Eval(c[1..], x), x * Eval(d[1..], x));
    }
  }

  /** The commitments, evaluated at j, commit to the dealer's own share for j. */
  lemma CommitmentsMatchPolynomial(coeffs: seq<int>, j: int)
    ensures CommittedAt(Commit(coeffs), j) == Scale(BASE, Horner(coeffs, j))
  {
    var d := Logs(Commit(coeffs));
    EvalCong(d, coeffs, j);
    HornerCong(coeffs, j);
    CongSym(Horner(coeffs, j), Eval(coeffs, j));
    CongTrans(Eval(d, j), Eval(coeffs, j), 1 * Horner(coeffs, j));
    ModEq(Eval(d, j), 1 * Horner(coeffs, j));
  }

  lemma {:induction false} EvalSnoc(c: seq<int>, a: int, x: int)
    ensures Eval(c + [a], x) == Eval(c, x) + a * Pow(x, |c|)
  {
    if c == [] {
      assert (c + [a])[1..] == [];
    } else {
      EvalSnoc(c[1..], a, x);
      assert (c + [a])[1..] == c[1..] + [a];
      var p := Pow(x, |c| - 1);
      assert x * (Eval(c[1..], x) + a * p) == x * Eval(c[1..], x) + a * (x * p);
    }
  }

  /** The power-accumulating loop over the commitments. */
  method EvalCommitments(commitments: seq<Point>, j: int) returns (acc: Point)
    ensures acc == CommittedAt(commitments, j)
  {
    var power := 1;
    acc := ZERO;
    CongBy(1, 1, 0);
    CongBy(0, 0, 0);
    ModSmall(1);
    for k := 0 to |commitments|
      invariant 0 <= power < L && Cong(power, Pow(j, k))
      invariant Cong(acc.log, Eval(Logs(commitments[..k]), j))
    {
      var c := commitments[k];
      CommitmentStep(commitments, k, j, acc, power);
      acc := Add(acc, Scale(c, power));
      power := Mod(power * j);
    }
    assert commitments[..|commitments|] == commitments;
    ModEq(acc.log, Eval(Logs(commitments), j));
    ModSmall(acc.log);
  }

  lemma CommitmentStep(commitments: seq<Point>, k: nat, j: int, acc: Point, power: int)
    requires k < |commitments|
    requires Cong(power, Pow(j, k)) && Cong(acc.log, Eval(Logs(commitments[..k]), j))
    ensures Cong(Mod(power * j), Pow(j, k + 1))
    ensures Cong(Add(acc, Scale(commitments[k], power)).log, Eval(Logs(commitments[..k + 1]), j))
  {
    var c := commitments[k];
    assert Logs(commitments[..k + 1]) == Logs(commitments[..k]) + [c.log];
    EvalSnoc(Logs(commitments[..k]), c.log, j);
    hide *;
    PowStep(j, k + 1);
    CommitmentArithmetic(acc, c, power, j, Pow(j, k), Pow(j, k + 1), Eval(Logs(commitments[..k]), j));
  }

  lemma CommitmentArithmetic(acc: Point, c: Point, power: int, j: int, p: int, p': int, v: int)
    requires Cong(power, p) && Cong(acc.log, v) && p' == Mul(j, p)
    ensures Cong(Mod(power * j), p')
    ensures Cong(Add(acc, Scale(c, power)).log, v + c.log * p)
  {
    CongScale(j, power, p);
    CongTrans(Mod(power * j), power * j, j * p);
    CongScale(c.log, power, p);
    CongTrans(Scale(c, power).log, c.log * power, c.log * p);
    CongAdd(acc.log, v, Scale(c, power).log, c.log * p);
    CongTrans(Add(acc, Scale(c, power)).log, acc.log + Scale(c, power).log, v + c.log * p);
  }

  /** `parseCommitments`: exactly `threshold` points, none of them the identity. */
  function ParseAll(texts: seq<PointText>): Outcome<seq<Point>> {
    if texts == [] then Returns([])
    else
      var p :- ParsePoint(texts[0]);
      var rest :- ParseAll(texts[1..]);
      Returns([p] + rest)
  }

  function ParseCommitments(b: Option<Broadcast>, threshold: nat): Option<seq<Point>> {
    if b.None? || |b.value.commitments| != threshold then None
    else
      var parsed := ParseAll(b.value.commitments);
      if parsed.Throws? then None else Some(parsed.value)
  }

  /** `shareMatches`: the share is the logarithm of what the commitments commit to. */
  predicate ShareMatches(share: ScalarText, commitments: seq<Point>, recipient: int) {
    var s := HexToScalar(share);
    s.Returns? && Scale(BASE, s.value) == CommittedAt(commitments, recipient)
  }

  // ----- The public result -----

  function From(broadcasts: seq<Broadcast>, dealer: int): seq<Broadcast> {
    if broadcasts == [] then []
    else
      var rest := From(broadcasts[1..], dealer);
      if broadcasts[0].dealer == dealer then [broadcasts[0]] + rest else rest
  }

  /** The commitments of a dealer with exactly one broadcast, well-formed. */
  function CommitmentsOf(broadcasts: seq<Broadcast>, dealer: int, threshold: nat): Option<seq<Point>> {
    var own := From(broadcasts, dealer);
    if |own| == 1 then ParseCommitments(Some(own[0]), threshold) else None
  }

  predicate Answered(disclosed: seq<Reveal>, commitments: seq<Point>, dealer: int, complainer: int) {
    exists r :: r in disclosed && r.dealer == dealer && r.recipient == complainer
                && ShareMatches(r.share, commitments, complainer)
  }

  predicate Qualifies(t: Transcript, participants: seq<int>, threshold: nat, dealer: int) {
    var c := CommitmentsOf(t.broadcasts, dealer, threshold);
    && c.Some?
    && forall k :: k in t.complaints && k.dealer == dealer && k.complainer in participants
        ==> Answered(t.disclosed, c.value, dealer, k.complainer)
  }

  /** QUAL, in participant order. */
  function Qualified(t: Transcript, participants: seq<int>, threshold: nat, among: seq<int>): (q: seq<int>)
    ensures forall d :: d in q <==> d in among && Qualifies(t, participants, threshold, d)
  {
    if among == [] then []
    else
      var q := Qualified(t, participants, threshold, among[..|among| - 1]);
      var d := among[|among| - 1];
      if Qualifies(t, participants, threshold, d) then q + [d] else q
  }

  predicate AllParsed(t: Transcript, threshold: nat, dealers: seq<int>) {
    forall d :: d in dealers ==> CommitmentsOf(t.broadcasts, d, threshold).Some?
  }

  /** The sum over the dealers of the points they commit to at j. */
  function SumAt(t: Transcript, threshold: nat, dealers: seq<int>, j: int): Point
    requires AllParsed(t, threshold, dealers)
  {
    if dealers == [] then ZERO
    else
      var d := dealers[|dealers| - 1];
      Add(SumAt(t, threshold, dealers[..|dealers| - 1], j),
          CommittedAt(CommitmentsOf(t.broadcasts, d, threshold).value, j))
  }

  function KeysAt(t: Transcript, threshold: nat, dealers: seq<int>, js: seq<int>): map<int, Point>
    requires AllParsed(t, threshold, dealers)
  {
    map j | j in js :: SumAt(t, threshold, dealers, j)
  }

  lemma KeysSnoc(t: Transcript, threshold: nat, dealers: seq<int>, js: seq<int>, n: nat)
    requires AllParsed(t, threshold, dealers) && n < |js|
    ensures KeysAt(t, threshold, dealers, js[..n + 1])
            == KeysAt(t, threshold, dealers, js[..n])[js[n] := SumAt(t, threshold, dealers, js[n])]
  {
    assert js[..n + 1] == js[..n] + [js[n]];
  }

  /** The public outcome of a transcript. */
  function PublicResultOf(t: Transcript, participants: seq<int>, threshold: nat): Outcome<PublicResult> {
    var qualified := Qualified(t, participants, threshold, participants);
    if threshold == 0 || |qualified| < threshold then Throws
    else
      var y := SumAt(t, threshold, qualified, 0);
      if y == ZERO then Throws
      else
        Returns(PublicResult(threshold, qualified, y, KeysAt(t, threshold, qualified, participants)))
  }

  /** `computePublicResult`: parse every dealer's commitments, select QUAL, then
      accumulate the group key and one verification key per participant. */
  method ComputePublicResult(t: Transcript, participants: seq<int>, threshold: nat) returns (r: Outcome<PublicResult>)
    ensures r == PublicResultOf(t, participants, threshold)
  {
    var qualified := Qualified(t, participants, threshold, participants);
    if threshold == 0 || |qualified| < threshold {
      return Throws;
    }
    var y := GroupKey(t, threshold, qualified);
    if y == ZERO {
      return Throws;
    }
    var keys: map<int, Point> := map[];
    for n := 0 to |participants|
      invariant keys == KeysAt(t, threshold, qualified, participants[..n])
    {
      hide *;
      var j := participants[n];
      var yj := VerificationKey(t, threshold, qualified, j);
      KeysSnoc(t, threshold, qualified, participants, n);
      keys := keys[j := yj];
    }
    assert participants[..|participants|] == participants;
    return Returns(PublicResult(threshold, qualified, y, keys));
  }

  /** The loop over QUAL that adds up the constant commitments. */
  method GroupKey(t: Transcript, threshold: nat, qualified: seq<int>) returns (y: Point)
    requires threshold > 0 && AllParsed(t, threshold, qualified)
    ensures y == SumAt(t, threshold, qualified, 0)
  {
    y := ZERO;
    for k := 0 to |qualified|
      invariant y == SumAt(t, threshold, qualified[..k], 0)
    {
      assert qualified[..k + 1][..k] == qualified[..k];
      var c := CommitmentsOf(t.broadcasts, qualified[k], threshold).value;
      ConstantTerm(c, threshold, t.broadcasts, qualified[k]);
      y := Add(y, c[0]);
    }
    assert qualified[..|qualified|] == qualified;
  }

  /** The loop over QUAL that adds up the commitments evaluated at j. */
  method VerificationKey(t: Transcript, threshold: nat, qualified: seq<int>, j: int) returns (yj: Point)
    requires AllParsed(t, threshold, qualified)
    ensures yj == SumAt(t, threshold, qualified, j)
  {
    yj := ZERO;
    for k := 0 to |qualified|
      invariant yj == SumAt(t, threshold, qualified[..k], j)
    {
      assert qualified[..k + 1][..k] == qualified[..k];
      var p := EvalCommitments(CommitmentsOf(t.broadcasts, qualified[k], threshold).value, j);
      yj := Add(yj, p);
    }
    assert qualified[..|qualified|] == qualified;
  }

  lemma {:induction false} ParseAllPoints(texts: seq<PointText>)
    requires ParseAll(texts).Returns?
    ensures |ParseAll(texts).value| == |texts|
    ensures forall k :: 0 <= k < |texts| ==> texts[k] == Encoded(ParseAll(texts).value[k])
    ensures ZERO !in ParseAll(texts).value
  {
    if texts != [] {
      ParseAllPoints(texts[1..]);
    }
  }

  /** Parsed commitments have the agreed length. */
  lemma CommitmentsLength(broadcasts: seq<Broadcast>, dealer: int, threshold: nat)
    requires CommitmentsOf(broadcasts, dealer, threshold).Some?
    ensures |CommitmentsOf(broadcasts, dealer, threshold).value| == threshold
  {
    ParseAllPoints(From(broadcasts, dealer)[0].commitments);
  }

  lemma ConstantTerm(c: seq<Point>, threshold: nat, broadcasts: seq<Broadcast>, dealer: int)
    requires threshold > 0 && CommitmentsOf(broadcasts, dealer, threshold) == Some(c)
    ensures c != [] && CommittedAt(c, 0) == c[0]
  {
    CommitmentsLength(broadcasts, dealer, threshold);
    assert Eval(Logs(c), 0) == c[0].log;
    ModSmall(c[0].log);
  }

  // ----- The group polynomial -----

  function AddPolynomials(c: seq<int>, d: seq<int>): (r: seq<int>)
    requires |c| == |d|
    ensures |r| == |c|
  {
    seq(|c|, k requires 0 <= k < |c| => c[k] + d[k])
  }

  lemma {:induction false} AddPolynomialsEval(c: seq<int>, d: seq<int>, x: int)
    requires |c| == |d|
    ensures Eval(AddPolynomials(c, d), x) == Eval(c, x) + Eval(d, x)
  {
    if c != [] {
      AddPolynomialsEval(c[1..], d[1..], x);
      assert AddPolynomials(c, d)[1..] == AddPolynomials(c[1..], d[1..]);
    }
  }

  /** The sum of the polynomials that the dealers committed to. */
  function GroupPolynomial(t: Transcript, threshold: nat, dealers: seq<int>): (f: seq<int>)
    requires AllParsed(t, threshold, dealers)
    ensures |f| == threshold
  {
    if dealers == [] then seq(threshold, _ => 0)
    else
      var d := dealers[|dealers| - 1];
      CommitmentsLength(t.broadcasts, d, threshold);
      AddPolynomials(GroupPolynomial(t, threshold, dealers[..|dealers| - 1]),
                     Logs(CommitmentsOf(t.broadcasts, d, threshold).value))
  }

  lemma {:induction false} ZeroPolynomialEval(n: nat, x: int)
    ensures Eval(seq(n, _ => 0), x) == 0
  {
    if n > 0 {
      ZeroPolynomialEval(n - 1, x);
      assert seq(n, _ => 0)[1..] == seq(n - 1, _ => 0);
    }
  }

  lemma {:induction false} SumAtIsEval(t: Transcript, threshold: nat, dealers: seq<int>, j: int)
    requires AllParsed(t, threshold, dealers)
    ensures Cong(SumAt(t, threshold, dealers, j).log, Eval(GroupPolynomial(t, threshold, dealers), j))
  {
    if dealers == [] {
      ZeroPolynomialEval(threshold, j);
      CongBy(0, 0, 0);
    } else {
      var init, d := dealers[..|dealers| - 1], dealers[|dealers| - 1];
      var c := CommitmentsOf(t.broadcasts, d, threshold).value;
      CommitmentsLength(t.broadcasts, d, threshold);
      SumAtIsEval(t, threshold, init, j);
      AddPolynomialsEval(GroupPolynomial(t, threshold, init), Logs(c), j);
      var p, q := SumAt(t, threshold, init, j), CommittedAt(c, j);
      CongAdd(p.log, Eval(GroupPolynomial(t, threshold, init), j), q.log, Eval(Logs(c), j));
      CongTrans(Add(p, q).log, p.log + q.log, Eval(GroupPolynomial(t, threshold, init), j) + Eval(Logs(c), j));
    }
  }

  /** The polynomial behind a public result. */
  function ResultPolynomial(t: Transcript, participants: seq<int>, threshold: nat): (f: seq<int>)
    ensures |f| == threshold
  {
    GroupPolynomial(t, threshold, Qualified(t, participants, threshold, participants))
  }

  lemma SumAtIsShare(t: Transcript, participants: seq<int>, threshold: nat, j: int)
    ensures SumAt(t, threshold, Qualified(t, participants, threshold, participants), j)
            == Scale(BASE, Eval(ResultPolynomial(t, participants, threshold), j))
  {
    var q := Qualified(t, participants, threshold, participants);
    SumAtIsEval(t, threshold, q, j);
    var p, v := SumAt(t, threshold, q, j), Eval(ResultPolynomial(t, participants, threshold), j);
    ModEq(p.log, 1 * v);
    ModSmall(p.log);
  }

  /** Whatever the dealers broadcast, the public keys of a result lie on one
      polynomial of degree below the threshold: the group key is F(0)·G and the
      verification key of every participant j is F(j)·G. */
  lemma ResultOnOnePolynomial(t: Transcript, participants: seq<int>, threshold: nat)
    requires PublicResultOf(t, participants, threshold).Returns?
    ensures var r, f := PublicResultOf(t, participants, threshold).value, ResultPolynomial(t, participants, threshold);
            && |f| == threshold <= |r.qualified|
            && r.groupPublicKey == Scale(BASE, Eval(f, 0)) != ZERO
            && (forall j :: j in r.verificationKeys <==> j in participants)
            && forall j :: j in participants ==> r.verificationKeys[j] == Scale(BASE, Eval(f, j))
  {
    SumAtIsShare(t, participants, threshold, 0);
    forall j | j in participants
      ensures SumAt(t, threshold, Qualified(t, participants, threshold, participants), j)
              == Scale(BASE, Eval(ResultPolynomial(t, participants, threshold), j))
    {
      SumAtIsShare(t, participants, threshold, j);
    }
  }
}
