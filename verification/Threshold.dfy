/** The threshold side of the order cipher: partial decryptions with a
    Chaum-Pedersen proof, their verification, and the combination of t of them. */
module Threshold {
  import opened Residues
  import opened Lagrange
  import opened Outcomes
  import opened Group

  /** Share index and secret share of one validator, with its public image. */
  datatype KeyShare = KeyShare(index: int, secret: ScalarText, verificationKey: PointText)

  datatype DecryptionShare = DecryptionShare(index: int, share: PointText, c: ScalarText, z: ScalarText)

  /** The number a hash of a list of points denotes, before reduction. */
  type PointHash = seq<Point> -> int

  function Challenge(h: PointHash, points: seq<Point>): int {
    Mod(h(points))
  }

  /** A validator's contribution for the ephemeral key R, with the random nonce k. */
  function PartialDecrypt(h: PointHash, share: KeyShare, r: PointText, k: int): Outcome<DecryptionShare>
    requires 0 < k < L
  {
    var y :- HexToScalar(share.secret);
    var rp :- ParsePoint(r);
    var yi :- Multiply(BASE, y);
    var di :- Multiply(rp, y);
    var a1 :- Multiply(BASE, k);
    var a2 :- Multiply(rp, k);
    var c := Challenge(h, [BASE, yi, rp, di, a1, a2]);
    var z := Mod(k + c * y);
    Returns(DecryptionShare(share.index, Encoded(di), ScalarToHex(c), ScalarToHex(z)))
  }

  /** z·P - c·Q, as the verifier recomputes a commitment. */
  function Recommit(p: Point, z: int, q: Point, c: int): Outcome<Point> {
    var zp :- Multiply(p, z);
    var negated := Mod(-c);
    var cq :- if negated == 0 then Returns(ZERO) else Multiply(q, negated);
    Returns(Add(zp, cq))
  }

  function CheckProof(h: PointHash, ds: DecryptionShare, vk: PointText, r: PointText): Outcome<bool> {
    var yi :- ParsePoint(vk);
    var rp :- ParsePoint(r);
    var di :- ParsePoint(ds.share);
    if ds.c.NotHex? || ds.z.NotHex? then Throws
    else
      var c, z := ds.c.number, ds.z.number;
      if c >= L || z <= 0 || z >= L then Returns(false)
      else
        var a1 :- Recommit(BASE, z, yi, c);
        var a2 :- Recommit(rp, z, di, c);
        Returns(Challenge(h, [BASE, yi, rp, di, a1, a2]) == c)
  }

  /** Whether a proof shows that the share was made with the key behind vk. A throw is a refusal. */
  predicate VerifyDecryptionShare(h: PointHash, ds: DecryptionShare, vk: PointText, r: PointText) {
    CheckProof(h, ds, vk, r) == Returns(true)
  }

  lemma RecommitLog(p: Point, z: int, q: Point, c: int)
    requires 0 < z < L && 0 <= c < L
    ensures Recommit(p, z, q, c).Returns?
    ensures Cong(Recommit(p, z, q, c).value.log, p.log * z - q.log * c)
  {
    var negated := Mod(-c);
    var zp := Scale(p, z);
    var cq := if negated == 0 then ZERO else Scale(q, negated);
    assert Cong(cq.log, q.log * -c) by {
      if negated == 0 {
        CongScale(q.log, 0, -c);
      } else {
        CongScale(q.log, negated, -c);
        CongTrans(cq.log, q.log * negated, q.log * -c);
      }
    }
    CongAdd(zp.log, p.log * z, cq.log, q.log * -c);
    CongTrans(Add(zp, cq).log, zp.log + cq.log, p.log * z + q.log * -c);
  }

  /** The recomputed commitment of an honest proof is the prover's own. */
  lemma HonestRecommit(p: Point, y: int, k: int, c: int)
    requires 0 <= c < L && Mod(k + c * y) != 0
    ensures Recommit(p, Mod(k + c * y), Scale(p, y), c) == Returns(Scale(p, k))
  {
    var z := Mod(k + c * y);
    var q := Scale(p, y);
    RecommitLog(p, z, q, c);
    var a := Recommit(p, z, q, c).value;
    CongScale(p.log, z, k + c * y);
    CongScale(-c, q.log, p.log * y);
    CongAdd(p.log * z, p.log * (k + c * y), -c * q.log, -c * (p.log * y));
    HonestIdentity(p.log, y, k, c);
    CongTrans(a.log, p.log * z - q.log * c, p.log * k);
    CongSym(Scale(p, k).log, p.log * k);
    CongTrans(a.log, p.log * k, Scale(p, k).log);
    SamePoint(a, Scale(p, k));
  }

  lemma HonestIdentity(p: int, y: int, k: int, c: int)
    ensures p * (k + c * y) + -c * (p * y) == p * k
  {
    MulSwap(p, c, y);
  }

  /** Completeness: the output of `PartialDecrypt` verifies against its own key
      exactly when the response z is not zero. */
  lemma Completeness(h: PointHash, share: KeyShare, r: PointText, k: int)
    requires 0 < k < L
    requires PartialDecrypt(h, share, r, k).Returns?
    ensures var ds := PartialDecrypt(h, share, r, k).value;
            VerifyDecryptionShare(h, ds, Encoded(Scale(BASE, share.secret.number)), r) <==> ds.z != Hex(0)
  {
    var ds := PartialDecrypt(h, share, r, k).value;
    var y, rp := share.secret.number, r.point;
    CongUniqueIfZero(y);
    ScaleNonzero(rp, y);
    ScaleBase(y);
    var c, z := ds.c.number, ds.z.number;
    if z != 0 {
      HonestRecommit(BASE, y, k, c);
      HonestRecommit(rp, y, k, c);
    }
  }

  /** z answers the challenge c for the statement (y, r, d) and the commitments (a1, a2). */
  ghost predicate Answers(y: Point, r: Point, d: Point, a1: Point, a2: Point, c: int, z: int) {
    && 0 <= c < L && 0 < z < L
    && Recommit(BASE, z, y, c) == Returns(a1) && Recommit(r, z, d, c) == Returns(a2)
  }

  /** Special soundness: if D is not y·R, two accepting answers to the same
      commitments answer the same challenge. */
  lemma SpecialSoundness(y: Point, r: Point, d: Point, a1: Point, a2: Point, c: int, z: int, c': int, z': int)
    requires d != Scale(r, y.log)
    requires Answers(y, r, d, a1, a2, c, z) && Answers(y, r, d, a1, a2, c', z')
    ensures c == c'
  {
    RecommitLog(BASE, z, y, c);
    RecommitLog(r, z, d, c);
    RecommitLog(BASE, z', y, c');
    RecommitLog(r, z', d, c');
    TwoAnswers(y.log, r.log, d.log, a1.log, a2.log, c, z, c', z');
    if !Cong(d.log - r.log * y.log, 0) {
      CongUnique(c, c');
    } else {
      CongBy(r.log * y.log, r.log * y.log, 0);
      CongAdd(d.log - r.log * y.log, 0, r.log * y.log, r.log * y.log);
      CongSym(Scale(r, y.log).log, r.log * y.log);
      CongTrans(d.log, r.log * y.log, Scale(r, y.log).log);
      SamePoint(d, Scale(r, y.log));
    }
  }

  lemma TwoAnswers(y: int, r: int, d: int, a1: int, a2: int, c: int, z: int, c': int, z': int)
    requires Cong(a1, 1 * z - y * c) && Cong(a1, 1 * z' - y * c')
    requires Cong(a2, r * z - d * c) && Cong(a2, r * z' - d * c')
    ensures Cong(d - r * y, 0) || Cong(c, c')
  {
    hide *;
    var k := CongDifference(a1, 1 * z - y * c, 1 * z' - y * c');
    var m := CongDifference(a2, r * z - d * c, r * z' - d * c');
    AnswersIdentity(y, r, d, c, z, c', z', k, m);
    EuclidBy(d - r * y, c - c', r * k - m);
    if Cong(c - c', 0) {
      CongBy(c', c', 0);
      CongAdd(c - c', 0, c', c');
    }
  }

  ghost function CongDifference(a: int, u: int, v: int): (k: int)
    requires Cong(a, u) && Cong(a, v)
    ensures u - v == k * L
  {
    CongQuotient(a, v) - CongQuotient(a, u)
  }

  lemma EuclidBy(a: int, b: int, k: int)
    requires a * b == k * L
    ensures Cong(a, 0) || Cong(b, 0)
  {
    CongBy(a * b, 0, k);
    Euclid(a, b);
  }

  lemma AnswersIdentity(y: int, r: int, d: int, c: int, z: int, c': int, z': int, k: int, m: int)
    requires (1 * z - y * c) - (1 * z' - y * c') == k * L
    requires (r * z - d * c) - (r * z' - d * c') == m * L
    ensures (d - r * y) * (c - c') == (r * k - m) * L
  {
    assert (z - z') == y * (c - c') + k * L;
    assert r * (z - z') - d * (c - c') == m * L;
    assert r * (y * (c - c') + k * L) == r * y * (c - c') + r * k * L;
  }

  /** A false statement, and commitments to which the hash gives a challenge that has an
      accepting answer: by special soundness the only one. */
  ghost predicate Hit(h: PointHash, y: Point, r: Point, d: Point, a1: Point, a2: Point) {
    && d != Scale(r, y.log)
    && exists z :: Answers(y, r, d, a1, a2, Challenge(h, [BASE, y, r, d, a1, a2]), z)
  }

  /** The commitments that the proof of this share was made with were hit. */
  ghost predicate Lucky(h: PointHash, ds: DecryptionShare, vk: PointText, r: PointText) {
    && vk.Encoded? && r.Encoded? && ds.share.Encoded? && ds.c.Hex? && ds.z.Hex?
    && var (y, rp, d) := (vk.point, r.point, ds.share.point);
       exists a1, a2 :: Answers(y, rp, d, a1, a2, ds.c.number, ds.z.number) && Hit(h, y, rp, d, a1, a2)
  }

  /** A challenge other than the only one that a false statement can answer. */
  ghost function Avoiding(y: Point, r: Point, d: Point, a1: Point, a2: Point): (v: int)
    ensures (exists c, z :: Answers(y, r, d, a1, a2, c, z))
              ==> exists c, z :: Answers(y, r, d, a1, a2, c, z) && v == c + 1
  {
    if c, z :| Answers(y, r, d, a1, a2, c, z) then c + 1 else 0
  }

  lemma AvoidingAvoids(y: Point, r: Point, d: Point, a1: Point, a2: Point, c: int, z: int)
    requires d != Scale(r, y.log) && Answers(y, r, d, a1, a2, c, z)
    ensures Mod(Avoiding(y, r, d, a1, a2)) != c
  {
    hide *;
    var c', z' :| Answers(y, r, d, a1, a2, c', z') && Avoiding(y, r, d, a1, a2) == c' + 1;
    SpecialSoundness(y, r, d, a1, a2, c, z, c', z');
    NextDiffers(c);
  }

  lemma NextDiffers(c: int)
    ensures Mod(c + 1) != c
  {
    if Mod(c + 1) == c {
      CongSym(c, c + 1);
      CongBy(-c, -c, 0);
      CongAdd(c + 1, c, -c, -c);
      CongUniqueIfZero(1);
    }
  }

  /** By special soundness there is a hash with which no share is ever lucky. */
  lemma NoLuckExists()
    ensures exists h: PointHash :: NoLuck(h)
  {
    var h: PointHash := (ps: seq<Point>) =>
      if |ps| == 6 then Avoiding(ps[1], ps[2], ps[3], ps[4], ps[5]) else 0;
    forall y: Point, r: Point, d: Point, a1: Point, a2: Point ensures !Hit(h, y, r, d, a1, a2) {
      var ps := [BASE, y, r, d, a1, a2];
      assert h(ps) == Avoiding(y, r, d, a1, a2);
      forall z | d != Scale(r, y.log) ensures !Answers(y, r, d, a1, a2, Challenge(h, ps), z) {
        if Answers(y, r, d, a1, a2, Challenge(h, ps), z) {
          AvoidingAvoids(y, r, d, a1, a2, Challenge(h, ps), z);
        }
      }
    }
    assert NoLuck(h);
  }

  ghost predicate NoLuck(h: PointHash) {
    forall ds: DecryptionShare, vk: PointText, r: PointText :: !Lucky(h, ds, vk, r)
  }

  /** A share that verifies is the right one, exactly if its commitments were not hit. */
  lemma VerifiedIsCorrect(h: PointHash, ds: DecryptionShare, vk: PointText, r: PointText)
    requires VerifyDecryptionShare(h, ds, vk, r)
    ensures vk.Encoded? && r.Encoded?
    ensures ds.share == Encoded(Scale(r.point, vk.point.log)) <==> !Lucky(h, ds, vk, r)
  {
    var (a1, a2) := ProofOf(h, ds, vk, r);
    hide VerifyDecryptionShare, Answers, Challenge, Scale;
    var (y, rp, d) := (vk.point, r.point, ds.share.point);
    if d != Scale(rp, y.log) {
      assert Hit(h, y, rp, d, a1, a2);
    }
  }

  /** The commitments that a verified share recomputes to. */
  ghost function ProofOf(h: PointHash, ds: DecryptionShare, vk: PointText, r: PointText): (a: (Point, Point))
    requires VerifyDecryptionShare(h, ds, vk, r)
    ensures vk.Encoded? && r.Encoded? && ds.share.Encoded? && ds.c.Hex? && ds.z.Hex?
    ensures var (y, rp, d, c) := (vk.point, r.point, ds.share.point, ds.c.number);
            Answers(y, rp, d, a.0, a.1, c, ds.z.number) && Challenge(h, [BASE, y, rp, d, a.0, a.1]) == c
  {
    var (c, z) := (ds.c.number, ds.z.number);
    (Recommit(BASE, z, vk.point, c).value, Recommit(r.point, z, ds.share.point, c).value)
  }

  // ----- Combination -----

  /** `Map.set` on the entries of a map that keeps insertion order. */
  function SetEntry(entries: seq<DecryptionShare>, s: DecryptionShare): (r: seq<DecryptionShare>)
    ensures s in r && forall e :: e in r ==> e == s || e in entries
  {
    if entries == [] then [s]
    else if entries[0].index == s.index then [s] + entries[1..]
    else [entries[0]] + SetEntry(entries[1..], s)
  }

  /** The values of a map from index to share, filled share by share. */
  function Unique(shares: seq<DecryptionShare>): (r: seq<DecryptionShare>)
    ensures forall e :: e in r ==> e in shares
  {
    if shares == [] then []
    else SetEntry(Unique(shares[..|shares| - 1]), shares[|shares| - 1])
  }

  function Indices(shares: seq<DecryptionShare>): (r: seq<int>)
    ensures |r| == |shares|
  {
    seq(|shares|, k requires 0 <= k < |shares| => shares[k].index)
  }

  /** The first `threshold` of the distinct shares. */
  function Chosen(shares: seq<DecryptionShare>, threshold: nat): seq<DecryptionShare> {
    var u := Unique(shares);
    if |u| <= threshold then u else u[..threshold]
  }

  /** The sum of the shares times their Lagrange coefficients. */
  function Sum(terms: seq<DecryptionShare>, indices: seq<int>): Outcome<Point> {
    if terms == [] then Returns(ZERO)
    else
      var s := terms[|terms| - 1];
      var k :- Sum(terms[..|terms| - 1], indices);
      var d :- ParsePoint(s.share);
      var term :- Multiply(d, Coefficient(s.index, indices));
      Returns(Add(k, term))
  }

  function Combine(shares: seq<DecryptionShare>, threshold: nat): Outcome<Point> {
    var unique := Chosen(shares, threshold);
    if |unique| < threshold then Throws else Sum(unique, Indices(unique))
  }

  /** Square-and-multiply: the inverse by Fermat's little theorem. */
  method ModInverse(a: int) returns (result: int)
    ensures result == Inverse(a) && 0 <= result < L
    ensures !Cong(a, 0) ==> Cong(result * a, 1)
  {
    hide Cong, Pow, Mod, Inverse;
    result := 1;
    var base, e := Mod(a), L - 2;
    ghost var goal := Pow(a, L - 2);
    assert Cong(1 * Pow(Mod(a), e), goal) by {
      PowCong(Mod(a), a, e);
    }
    while e > 0
      invariant e >= 0 && 0 <= base < L && (0 <= result < L)
      invariant Cong(result * Pow(base, e), goal)
      decreases e
    {
      ghost var r, b, n := result, base, e;
      if e % 2 == 1 {
        result := JsRem(result * base, L);
      }
      base := JsRem(base * base, L);
      e := e / 2;
      SquareStep(r, b, n, result, base);
      CongTrans(result * Pow(base, e), r * Pow(b, n), goal);
    }
    ReducedPower(result, base, a);
  }

  lemma ReducedPower(r: int, b: int, a: int)
    requires 0 <= r < L && Cong(r * Pow(b, 0), Pow(a, L - 2))
    ensures r == Inverse(a)
  {
    ModEq(r, Pow(a, L - 2));
    ModSmall(r);
  }

  /** One round of square-and-multiply keeps result · base^e. */
  lemma SquareStep(r: int, b: int, n: nat, r': int, b': int)
    requires n > 0 && r >= 0 && b >= 0
    requires r' == if n % 2 == 1 then JsRem(r * b, L) else r
    requires b' == JsRem(b * b, L)
    ensures Cong(r' * Pow(b', n / 2), r * Pow(b, n))
  {
    JsRemCong(r * b);
    JsRemCong(b * b);
    var half := n / 2;
    PowCong(b', b * b, half);
    PowSquare(b, half);
    if n % 2 == 1 {
      CongMul(r', r * b, Pow(b', half), Pow(b * b, half));
      PowStep(b, n);
      MulAssoc(r, b, Pow(b, 2 * half));
    } else {
      CongScale(r, Pow(b', half), Pow(b * b, half));
    }
  }

  /** The coefficient of index i, with numerator and denominator reduced as it goes. */
  method LagrangeAtZero(i: int, indices: seq<int>) returns (r: int)
    ensures r == Coefficient(i, indices)
  {
    hide Cong, Num, Den, Mod;
    var num, den := 1, 1;
    NoFactors(i);
    for k := 0 to |indices|
      invariant Cong(num, Num(i, indices[..k])) && Cong(den, Den(i, indices[..k]))
    {
      var j := indices[k];
      FactorStep(i, indices, k, num, den);
      if j == i {
        continue;
      }
      num := Mod(num * j);
      den := Mod(den * (j - i));
    }
    assert indices[..|indices|] == indices;
    var inverse := ModInverse(den);
    InverseCong(den, Den(i, indices));
    CongMul(num, Num(i, indices), inverse, Inverse(Den(i, indices)));
    ModEq(num * inverse, Num(i, indices) * Inverse(Den(i, indices)));
    r := Mod(num * inverse);
  }

  lemma NoFactors(i: int)
    ensures Cong(1, Num(i, [])) && Cong(1, Den(i, []))
  {
    CongBy(1, 1, 0);
  }

  /** One round of the loop multiplies in the factors of index k, unless it is i itself. */
  lemma FactorStep(i: int, indices: seq<int>, k: nat, num: int, den: int)
    requires k < |indices| && Cong(num, Num(i, indices[..k])) && Cong(den, Den(i, indices[..k]))
    ensures var j := indices[k];
            && Cong(if j == i then num else Mod(num * j), Num(i, indices[..k + 1]))
            && Cong(if j == i then den else Mod(den * (j - i)), Den(i, indices[..k + 1]))
  {
    hide Cong, Mod;
    var j := indices[k];
    assert indices[..k + 1][..k] == indices[..k];
    if j != i {
      ReducedFactor(num, Num(i, indices[..k]), j);
      ReducedFactor(den, Den(i, indices[..k]), j - i);
    }
  }

  lemma ReducedFactor(a: int, b: int, f: int)
    requires Cong(a, b)
    ensures Cong(Mod(a * f), b * f) && Cong(Mod(a * f), f * b)
  {
    CongScale(f, a, b);
    CongTrans(Mod(a * f), a * f, f * b);
  }

  lemma InverseCong(a: int, b: int)
    requires Cong(a, b)
    ensures Cong(Inverse(a), Inverse(b))
  {
    PowCong(a, b, L - 2);
    ModEq(Pow(a, L - 2), Pow(b, L - 2));
    CongBy(Inverse(a), Inverse(a), 0);
  }

  /** Combines at least `threshold` verified shares into the shared point. */
  method CombineShares(shares: seq<DecryptionShare>, threshold: nat) returns (k: Outcome<Point>)
    ensures k == Combine(shares, threshold)
  {
    hide Cong, Coefficient, Add, Scale, Unique;
    var unique := Chosen(shares, threshold);
    if |unique| < threshold {
      return Throws;
    }
    var indices := Indices(unique);
    var sum := ZERO;
    for n := 0 to |unique|
      invariant Sum(unique[..n], indices) == Returns(sum)
    {
      var s := unique[n];
      assert unique[..n + 1][..n] == unique[..n];
      var coefficient := LagrangeAtZero(s.index, indices);
      var d := ParsePoint(s.share);
      if d.Throws? {
        SumPrefix(unique, n + 1, indices);
        return Throws;
      }
      var term := Multiply(d.value, coefficient);
      if term.Throws? {
        SumPrefix(unique, n + 1, indices);
        return Throws;
      }
      sum := Add(sum, term.value);
    }
    assert unique[..|unique|] == unique;
    return Returns(sum);
  }

  lemma {:induction false} SumPrefix(terms: seq<DecryptionShare>, n: nat, indices: seq<int>)
    requires n <= |terms| && Sum(terms[..n], indices).Throws?
    ensures Sum(terms, indices).Throws?
  {
    if n == |terms| {
      assert terms[..n] == terms;
    } else {
      var init := terms[..|terms| - 1];
      assert init[..n] == terms[..n];
      SumPrefix(init, n, indices);
    }
  }

  // ----- Correctness of the combination -----

  /** A share carrying f(index)·R. */
  ghost predicate CorrectShare(s: DecryptionShare, f: seq<int>, r: Point) {
    s.share.Encoded? && s.share.point != ZERO && s.share.point == Scale(r, Eval(f, s.index))
  }

  ghost predicate CorrectShares(shares: seq<DecryptionShare>, f: seq<int>, r: Point) {
    forall s :: s in shares ==> CorrectShare(s, f, r)
  }

  /** Different indices that occur are different modulo L, and none is a multiple of L. */
  ghost predicate GoodIndices(shares: seq<DecryptionShare>) {
    && (forall s, t :: s in shares && t in shares && s.index != t.index ==> !Cong(s.index, t.index))
    && (forall s :: s in shares ==> !Cong(s.index, 0))
  }

  ghost function IndexSet(shares: seq<DecryptionShare>): set<int> {
    set s | s in shares :: s.index
  }

  ghost predicate NoRepeats(shares: seq<DecryptionShare>) {
    forall i, j :: 0 <= i < j < |shares| ==> shares[i].index != shares[j].index
  }

  lemma ConsIndices(e: DecryptionShare, rest: seq<DecryptionShare>)
    ensures IndexSet([e] + rest) == {e.index} + IndexSet(rest)
    ensures NoRepeats([e] + rest) <==> e.index !in IndexSet(rest) && NoRepeats(rest)
  {
    var all := [e] + rest;
    assert forall k :: 0 <= k < |rest| ==> all[k + 1] == rest[k];
    if NoRepeats(all) {
      forall s | s in rest ensures s.index != e.index {
        var k :| 0 <= k < |rest| && rest[k] == s;
        assert all[0].index != all[k + 1].index;
      }
    }
    if e.index !in IndexSet(rest) && NoRepeats(rest) {
      forall i, k | 0 <= i < k < |all| ensures all[i].index != all[k].index {
        assert all[k] == rest[k - 1] && rest[k - 1] in rest;
      }
    }
  }

  lemma SetEntryIs(entries: seq<DecryptionShare>, s: DecryptionShare)
    ensures SetEntry(entries, s) == if entries == [] then [s] + []
                                    else if entries[0].index == s.index then [s] + entries[1..]
                                    else [entries[0]] + SetEntry(entries[1..], s)
  {
  }

  lemma {:induction false} SetEntryIndices(entries: seq<DecryptionShare>, s: DecryptionShare)
    requires NoRepeats(entries)
    ensures NoRepeats(SetEntry(entries, s))
    ensures IndexSet(SetEntry(entries, s)) == IndexSet(entries) + {s.index}
  {
    SetEntryIs(entries, s);
    assert IndexSet([]) == {};
    hide SetEntry, IndexSet, NoRepeats;
    if entries == [] {
      ConsIndices(s, []);
    } else {
      var rest := entries[1..];
      assert entries == [entries[0]] + rest;
      ConsIndices(entries[0], rest);
      if entries[0].index == s.index {
        ConsIndices(s, rest);
      } else {
        SetEntryIndices(rest, s);
        ConsIndices(entries[0], SetEntry(rest, s));
      }
    }
  }

  /** The map keeps one share for every index that occurs. */
  lemma {:induction false} UniqueIndices(shares: seq<DecryptionShare>)
    ensures NoRepeats(Unique(shares)) && IndexSet(Unique(shares)) == IndexSet(shares)
  {
    if shares != [] {
      var init, s := shares[..|shares| - 1], shares[|shares| - 1];
      UniqueIndices(init);
      SetEntryIndices(Unique(init), s);
      assert shares == init + [s];
      assert IndexSet(shares) == IndexSet(init) + {s.index};
    }
  }

  lemma {:induction false} IndexSetSize(shares: seq<DecryptionShare>)
    requires NoRepeats(shares)
    ensures |IndexSet(shares)| == |shares|
  {
    if shares != [] {
      var init, s := shares[..|shares| - 1], shares[|shares| - 1];
      IndexSetSize(init);
      assert shares == init + [s];
      assert IndexSet(shares) == IndexSet(init) + {s.index};
    }
  }

  lemma ChosenFacts(shares: seq<DecryptionShare>, threshold: nat)
    ensures NoRepeats(Chosen(shares, threshold))
    ensures forall s :: s in Chosen(shares, threshold) ==> s in shares
    ensures |Chosen(shares, threshold)| == if |IndexSet(shares)| < threshold then |IndexSet(shares)| else threshold
  {
    UniqueIndices(shares);
    IndexSetSize(Unique(shares));
  }

  /** The sum of correct shares is R times the combination of the values. */
  lemma {:induction false} SumOfCorrect(terms: seq<DecryptionShare>, indices: seq<int>, f: seq<int>, r: Point)
    requires CorrectShares(terms, f, r)
    requires forall s :: s in terms ==> Coefficient(s.index, indices) != 0
    ensures Sum(terms, indices).Returns?
    ensures Cong(Sum(terms, indices).value.log,
                 Mul(r.log, Combination(Indices(terms), indices, Values(f, Indices(terms)))))
  {
    if terms == [] {
      CongBy(0, r.log * 0, 0);
    } else {
      var n := |terms| - 1;
      var init, s := terms[..n], terms[n];
      assert CorrectShare(s, f, r) && Coefficient(s.index, indices) != 0;
      SumOfCorrect(init, indices, f, r);
      assert Indices(terms)[..n] == Indices(init);
      assert Values(f, Indices(terms))[..n] == Values(f, Indices(init));
      hide Cong, Mul, Coefficient, Eval, Add, Scale, Values, Indices;
      SumStep(r.log, Eval(f, s.index), Coefficient(s.index, indices), s.share.point,
              Sum(init, indices).value, Combination(Indices(init), indices, Values(f, Indices(init))));
    }
  }

  lemma SumStep(r: int, v: int, c: int, d: Point, k: Point, t: int)
    requires Cong(d.log, r * v) && Cong(k.log, Mul(r, t))
    ensures Cong(Add(k, Scale(d, c)).log, Mul(r, t + Mul(c, v)))
  {
    CongScale(c, d.log, r * v);
    CongTrans(Scale(d, c).log, d.log * c, r * v * c);
    CongAdd(k.log, r * t, Scale(d, c).log, r * v * c);
    assert r * v * c == r * (c * v);
    assert r * t + r * (c * v) == r * (t + c * v);
    CongTrans(Add(k, Scale(d, c)).log, k.log + Scale(d, c).log, r * (t + c * v));
  }

  /** Any shares that are correct for one polynomial f of degree below the
      threshold combine to f(0)·R, whatever their number, order and repetition,
      provided the threshold is reached by distinct indices. */
  lemma CombineCorrect(shares: seq<DecryptionShare>, threshold: nat, f: seq<int>, r: Point)
    requires 0 < threshold <= |IndexSet(shares)| && |f| <= threshold
    requires CorrectShares(shares, f, r) && GoodIndices(shares)
    ensures Combine(shares, threshold) == Returns(Scale(r, Eval(f, 0)))
  {
    var terms := Chosen(shares, threshold);
    var js := Indices(terms);
    ChosenFacts(shares, threshold);
    ChosenIndices(shares, terms);
    SumOfCorrect(terms, js, f, r);
    InterpolateAtZero(f, js);
    hide *;
    CongScale(r.log, Combination(js, js, Values(f, js)), Eval(f, 0));
    FinishCombine(Sum(terms, js).value, r, Combination(js, js, Values(f, js)), Eval(f, 0));
  }

  lemma FinishCombine(k: Point, r: Point, t: int, v: int)
    requires Cong(k.log, Mul(r.log, t)) && Cong(r.log * t, r.log * v)
    ensures k == Scale(r, v)
  {
    CongTrans(k.log, r.log * t, r.log * v);
    CongSym(Scale(r, v).log, r.log * v);
    CongTrans(k.log, r.log * v, Scale(r, v).log);
    SamePoint(k, Scale(r, v));
  }

  lemma ChosenIndices(shares: seq<DecryptionShare>, terms: seq<DecryptionShare>)
    requires GoodIndices(shares) && NoRepeats(terms) && forall s :: s in terms ==> s in shares
    ensures DistinctIndices(Indices(terms)) && NonzeroIndices(Indices(terms))
    ensures forall s :: s in terms ==> Coefficient(s.index, Indices(terms)) != 0
  {
    var js := Indices(terms);
    forall m, n | 0 <= m < n < |js| ensures !Cong(js[m], js[n]) {
      assert terms[m] in shares && terms[n] in shares;
    }
    forall m | 0 <= m < |js| ensures !Cong(js[m], 0) {
      assert terms[m] in shares;
    }
    forall s | s in terms ensures Coefficient(s.index, js) != 0 {
      var at :| 0 <= at < |terms| && terms[at] == s;
      DistinctFrom(s.index, js, at);
      CoefficientNonzero(s.index, js);
    }
  }

  /** Fewer distinct indices than the threshold never combine. */
  lemma CombineNeedsThreshold(shares: seq<DecryptionShare>, threshold: nat)
    requires |IndexSet(shares)| < threshold
    ensures Combine(shares, threshold) == Throws
  {
    ChosenFacts(shares, threshold);
  }
}
