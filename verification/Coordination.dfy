/** The coordinator of a decryption: it collects decryption shares from validators
    it does not trust, and opens every order of a batch with the good ones. */
module Coordination {
  import opened Collections
  import opened Residues
  import opened Lagrange
  import opened Outcomes
  import opened Bytes
  import opened Group
  import opened Threshold
  import opened WireFormat
  import opened PlainOrders
  import opened Dkg
  import opened KeyGeneration
  import opened Release

  datatype Node = Node(index: int, address: string)

  /** What a validator answered: an error or nothing, something that is not a list,
      or a list, of which any entry may be missing or unreadable. */
  datatype Answer = Refused | NotAList | Shares(shares: seq<Option<DecryptionShare>>)

  datatype Row = Row(id: string, encryptedData: string, userAddress: string, nonce: int)

  datatype DecryptionOutcome = Decrypted(id: string, order: DecryptedOrder) | Failed(id: string)

  /** The network, the registered verification keys and the libraries. */
  datatype Setup = Setup(suite: Suite, hash: PointHash, json: JsonParser, nodes: seq<Node>, threshold: nat,
                         registered: map<string, PointText>)

  /** The share, if any, that is taken from one answer for order k. */
  function Accepted(u: Setup, node: Node, answer: Answer, text: string, k: nat): seq<DecryptionShare> {
    if node.address !in u.registered || !answer.Shares? || k >= |answer.shares| || answer.shares[k].None? then []
    else
      var s := answer.shares[k].value;
      if s.index != node.index then []
      else
        match ParseCiphertext(u.suite, text)
        case Throws => []
        case Returns(p) =>
          if VerifyDecryptionShare(u.hash, s, u.registered[node.address], u.suite.decode(p.r)) then [s] else []
  }

  /** The verified shares for order k from the first n nodes. */
  function Column(u: Setup, answers: seq<Answer>, text: string, k: nat, n: nat): seq<DecryptionShare>
    requires n <= |u.nodes| == |answers|
  {
    if n == 0 then []
    else Column(u, answers, text, k, n - 1) + Accepted(u, u.nodes[n - 1], answers[n - 1], text, k)
  }

  function Open(u: Setup, row: Row, shares: seq<DecryptionShare>): Outcome<DecryptedOrder> {
    if |shares| < u.threshold then Throws
    else
      var k :- Combine(shares, u.threshold);
      var plaintext :- DecryptWithSharedPoint(u.suite, row.encryptedData, u.suite.encode(k), row.userAddress);
      ParseDecryptedOrder(u.json, plaintext, row.userAddress, row.nonce)
  }

  function Conclude(u: Setup, row: Row, shares: seq<DecryptionShare>): DecryptionOutcome {
    match Open(u, row, shares)
    case Returns(o) => Decrypted(row.id, o)
    case Throws => Failed(row.id)
  }

  /** The answer of a registered validator cannot be iterated over. */
  predicate Breaks(u: Setup, answers: seq<Answer>, n: nat)
    requires n < |u.nodes| == |answers|
  {
    u.nodes[n].address in u.registered && answers[n].NotAList?
  }

  predicate SomeBreaks(u: Setup, answers: seq<Answer>)
    requires |u.nodes| == |answers|
  {
    exists n :: 0 <= n < |u.nodes| && Breaks(u, answers, n)
  }

  function OutcomeAt(u: Setup, rows: seq<Row>, answers: seq<Answer>, k: nat): DecryptionOutcome
    requires |u.nodes| == |answers| && k < |rows|
  {
    Conclude(u, rows[k], Column(u, answers, rows[k].encryptedData, k, |u.nodes|))
  }

  /** `coordinateDecryption`, once the answers are in: the shares are sorted into one
      column for each order, node by node, and then every order is opened on its own. */
  method CoordinateDecryption(u: Setup, rows: seq<Row>, answers: seq<Answer>)
    returns (r: Outcome<seq<DecryptionOutcome>>)
    requires |u.nodes| == |answers|
    ensures r.Throws? <==> SomeBreaks(u, answers)
    ensures r.Returns? ==> |r.value| == |rows|
                           && forall k :: 0 <= k < |rows| ==> r.value[k] == OutcomeAt(u, rows, answers, k)
  {
    hide Accepted, Conclude;
    var validShares := new seq<DecryptionShare>[|rows|](_ => []);
    for n := 0 to |answers|
      invariant forall m :: 0 <= m < n ==> !Breaks(u, answers, m)
      invariant forall k :: 0 <= k < |rows| ==> validShares[k] == Column(u, answers, rows[k].encryptedData, k, n)
    {
      if Breaks(u, answers, n) {
        return Throws;
      }
      var count := if u.nodes[n].address in u.registered && answers[n].Shares? then |answers[n].shares| else 0;
      for j := 0 to count
        invariant forall k :: 0 <= k < |rows| ==>
          validShares[k] == Column(u, answers, rows[k].encryptedData, k, if k < j then n + 1 else n)
      {
        if j < |rows| {
          var good := Accepted(u, u.nodes[n], answers[n], rows[j].encryptedData, j);
          validShares[j] := validShares[j] + good;
        }
      }
      forall k | count <= k < |rows|
        ensures Column(u, answers, rows[k].encryptedData, k, n + 1) == Column(u, answers, rows[k].encryptedData, k, n)
      {
        NothingBeyond(u, u.nodes[n], answers[n], rows[k].encryptedData, k);
      }
    }
    var outcomes: seq<DecryptionOutcome> := [];
    for k := 0 to |rows|
      invariant |outcomes| == k
      invariant forall i :: 0 <= i < k ==> outcomes[i] == OutcomeAt(u, rows, answers, i)
    {
      outcomes := outcomes + [Conclude(u, rows[k], validShares[k])];
    }
    return Returns(outcomes);
  }

  lemma NothingBeyond(u: Setup, node: Node, answer: Answer, text: string, k: nat)
    requires node.address !in u.registered || !answer.Shares? || k >= |answer.shares|
    ensures Accepted(u, node, answer, text, k) == []
  {
  }

  // ----- What is collected -----

  /** What the nodes answered for order k, node by node. */
  function Entries(answers: seq<Answer>, k: nat): (r: seq<Option<DecryptionShare>>)
    ensures |r| == |answers|
  {
    seq(|answers|, n requires 0 <= n < |answers| => EntryAt(answers[n], k))
  }

  /** The nodes whose share for the order is taken: it is under the node's own index, and
      verifies against the node's registered key for the order's R. */
  ghost function Taken(u: Setup, answers: seq<Answer>, text: string, k: nat, n: nat): set<nat>
    requires n <= |u.nodes| == |answers|
  {
    set i: nat | i < n && TakesShare(u, u.nodes[i], EntryAt(answers[i], k), text)
  }

  ghost predicate TakesShare(u: Setup, node: Node, entry: Option<DecryptionShare>, text: string) {
    && node.address in u.registered && entry.Some? && entry.value.index == node.index
    && exists p :: && ParseCiphertext(u.suite, text) == Returns(p)
                   && VerifyDecryptionShare(u.hash, entry.value, u.registered[node.address], u.suite.decode(p.r))
  }

  function Somes(shares: seq<DecryptionShare>): (r: seq<Option<DecryptionShare>>)
    ensures |r| == |shares|
  {
    seq(|shares|, k requires 0 <= k < |shares| => Some(shares[k]))
  }

  /** A column holds these shares, all of them, in the order of the nodes. */
  lemma {:induction false} ColumnExactly(u: Setup, answers: seq<Answer>, text: string, k: nat, n: nat)
    requires n <= |u.nodes| == |answers|
    ensures Picked(Entries(answers, k)[..n], Somes(Column(u, answers, text, k, n)), Taken(u, answers, text, k, n))
  {
    if n == 0 {
      PickedNone<Option<DecryptionShare>>(Taken(u, answers, text, k, 0));
      assert Somes([]) == [];
    } else {
      ColumnExactly(u, answers, text, k, n - 1);
      TakenExactly(u, u.nodes[n - 1], answers[n - 1], text, k);
      hide Picked, Accepted, TakesShare;
      var (s, before) := (Entries(answers, k)[..n], Column(u, answers, text, k, n - 1));
      assert s[..n - 1] == Entries(answers, k)[..n - 1];
      PickedLast(s, Somes(before), Taken(u, answers, text, k, n - 1), Taken(u, answers, text, k, n));
      var last := Accepted(u, u.nodes[n - 1], answers[n - 1], text, k);
      assert Somes(before + last) == Somes(before) + Somes(last);
    }
  }

  lemma TakenExactly(u: Setup, node: Node, answer: Answer, text: string, k: nat)
    ensures Somes(Accepted(u, node, answer, text, k))
            == if TakesShare(u, node, EntryAt(answer, k), text) then [EntryAt(answer, k)] else []
  {
    hide ParseCiphertext, VerifyDecryptionShare;
  }

  // ----- Isolation -----

  /** The answers agree on what they hold for order k. */
  ghost predicate SameAt(answers: seq<Answer>, answers': seq<Answer>, k: nat) {
    && |answers| == |answers'|
    && forall n :: 0 <= n < |answers| ==> EntryAt(answers[n], k) == EntryAt(answers'[n], k)
  }

  function EntryAt(answer: Answer, k: nat): Option<DecryptionShare> {
    if answer.Shares? && k < |answer.shares| then answer.shares[k] else None
  }

  lemma {:induction false} SameColumn(u: Setup, answers: seq<Answer>, answers': seq<Answer>, text: string, k: nat,
                                      n: nat)
    requires n <= |u.nodes| == |answers| && SameAt(answers, answers', k)
    ensures Column(u, answers, text, k, n) == Column(u, answers', text, k, n)
  {
    if n > 0 {
      SameColumn(u, answers, answers', text, k, n - 1);
      assert EntryAt(answers[n - 1], k) == EntryAt(answers'[n - 1], k);
      SameEntry(u, u.nodes[n - 1], answers[n - 1], answers'[n - 1], text, k);
    }
  }

  lemma SameEntry(u: Setup, node: Node, answer: Answer, answer': Answer, text: string, k: nat)
    requires EntryAt(answer, k) == EntryAt(answer', k)
    ensures Accepted(u, node, answer, text, k) == Accepted(u, node, answer', text, k)
  {
  }

  /** What becomes of order k depends on that order and on what the answers hold for
      it, and on nothing else in the batch or in the answers. */
  lemma Isolation(u: Setup, rows: seq<Row>, rows': seq<Row>, answers: seq<Answer>, answers': seq<Answer>, k: nat)
    requires |u.nodes| == |answers| && SameAt(answers, answers', k)
    requires k < |rows| && k < |rows'| && rows[k] == rows'[k]
    ensures OutcomeAt(u, rows, answers, k) == OutcomeAt(u, rows', answers', k)
  {
    SameColumn(u, answers, answers', rows[k].encryptedData, k, |u.nodes|);
  }

  // ----- Too few good shares -----

  /** A node whose entry for order k is taken. */
  ghost predicate Contributes(u: Setup, answers: seq<Answer>, text: string, k: nat, n: nat)
    requires |u.nodes| == |answers|
  {
    n < |u.nodes| && Accepted(u, u.nodes[n], answers[n], text, k) != []
  }

  ghost function Contributors(u: Setup, answers: seq<Answer>, text: string, k: nat, n: nat): set<nat>
    requires n <= |u.nodes| == |answers|
  {
    set m: nat | m < n && Contributes(u, answers, text, k, m)
  }

  lemma ContributorsNext(u: Setup, answers: seq<Answer>, text: string, k: nat, n: nat)
    requires 0 < n <= |u.nodes| == |answers|
    ensures |Contributors(u, answers, text, k, n)|
            == |Contributors(u, answers, text, k, n - 1)| + if Contributes(u, answers, text, k, n - 1) then 1 else 0
  {
    hide Contributes;
    if Contributes(u, answers, text, k, n - 1) {
      assert Contributors(u, answers, text, k, n) == Contributors(u, answers, text, k, n - 1) + {n - 1};
    } else {
      assert Contributors(u, answers, text, k, n) == Contributors(u, answers, text, k, n - 1);
    }
  }

  /** Every node contributes at most one share to an order. */
  lemma {:induction false} ColumnSize(u: Setup, answers: seq<Answer>, text: string, k: nat, n: nat)
    requires n <= |u.nodes| == |answers|
    ensures |Column(u, answers, text, k, n)| == |Contributors(u, answers, text, k, n)|
  {
    hide Accepted;
    if n > 0 {
      ColumnSize(u, answers, text, k, n - 1);
      AtMostOne(u, u.nodes[n - 1], answers[n - 1], text, k);
      ContributorsNext(u, answers, text, k, n);
      hide Contributors;
    } else {
      assert Contributors(u, answers, text, k, 0) == {};
    }
  }

  lemma AtMostOne(u: Setup, node: Node, answer: Answer, text: string, k: nat)
    ensures |Accepted(u, node, answer, text, k)| <= 1
  {
  }

  /** With good shares from fewer nodes than the threshold an order always fails. */
  lemma TooFewFail(u: Setup, rows: seq<Row>, answers: seq<Answer>, k: nat)
    requires |u.nodes| == |answers| && k < |rows|
    requires |Contributors(u, answers, rows[k].encryptedData, k, |u.nodes|)| < u.threshold
    ensures OutcomeAt(u, rows, answers, k) == Failed(rows[k].id)
  {
    ColumnSize(u, answers, rows[k].encryptedData, k, |u.nodes|);
  }

  // ----- Byzantine tolerance -----

  /** Nodes have different indices, also modulo L, none of them zero. */
  ghost predicate GoodNodes(u: Setup) {
    && (forall m, n :: 0 <= m < n < |u.nodes| ==> !Cong(u.nodes[m].index, u.nodes[n].index)
                                                  && !Cong(u.nodes[n].index, u.nodes[m].index))
    && (forall n :: 0 <= n < |u.nodes| ==> !Cong(u.nodes[n].index, 0))
  }

  /** Every registered key is the public image of the value of f at the node's index. */
  ghost predicate KeysOnPolynomial(u: Setup, f: seq<int>) {
    forall n :: 0 <= n < |u.nodes| && u.nodes[n].address in u.registered ==>
      u.registered[u.nodes[n].address] == Encoded(Scale(BASE, Eval(f, u.nodes[n].index)))
  }

  /** The hash did not hit the commitments of any share that is taken for order k. */
  ghost predicate NoneTakenLucky(u: Setup, answers: seq<Answer>, text: string, k: nat)
    requires |u.nodes| == |answers|
  {
    ParseCiphertext(u.suite, text).Returns? ==>
      forall n, s :: 0 <= n < |u.nodes| && s in Accepted(u, u.nodes[n], answers[n], text, k) ==>
        !LuckyAt(u, u.nodes[n], s, ParseCiphertext(u.suite, text).value.r)
  }

  ghost predicate LuckyAt(u: Setup, node: Node, s: DecryptionShare, r: seq<byte>) {
    node.address in u.registered && Lucky(u.hash, s, u.registered[node.address], u.suite.decode(r))
  }

  lemma AcceptedCorrect(u: Setup, node: Node, answer: Answer, text: string, k: nat, f: seq<int>, r: Point,
                        s: DecryptionShare)
    requires s in Accepted(u, node, answer, text, k)
    requires u.registered[node.address] == Encoded(Scale(BASE, Eval(f, node.index)))
    requires ParseCiphertext(u.suite, text).Returns?
    requires u.suite.decode(ParseCiphertext(u.suite, text).value.r) == Encoded(r)
    requires !LuckyAt(u, node, s, ParseCiphertext(u.suite, text).value.r)
    ensures CorrectShare(s, f, r) && s.index == node.index
  {
    hide Lucky, VerifyDecryptionShare, ParseCiphertext;
    VerifiedShareCorrect(u.hash, s, f, Scale(BASE, Eval(f, node.index)), r);
  }

  /** A share of the column comes from one of the nodes. */
  lemma {:induction false} ColumnFrom(u: Setup, answers: seq<Answer>, text: string, k: nat, n: nat, s: DecryptionShare)
    requires n <= |u.nodes| == |answers| && s in Column(u, answers, text, k, n)
    ensures exists m :: 0 <= m < n && s in Accepted(u, u.nodes[m], answers[m], text, k)
                        && u.nodes[m].address in u.registered && s.index == u.nodes[m].index
  {
    if s in Column(u, answers, text, k, n - 1) {
      ColumnFrom(u, answers, text, k, n - 1, s);
    } else {
      assert s in Accepted(u, u.nodes[n - 1], answers[n - 1], text, k);
    }
  }

  lemma {:induction false} ColumnHas(u: Setup, answers: seq<Answer>, text: string, k: nat, n: nat, m: nat,
                                     s: DecryptionShare)
    requires m < n <= |u.nodes| == |answers| && s in Accepted(u, u.nodes[m], answers[m], text, k)
    ensures s in Column(u, answers, text, k, n)
  {
    if m < n - 1 {
      ColumnHas(u, answers, text, k, n - 1, m, s);
    }
  }

  /** All verified shares of a column are correct, whoever sent them, if none was lucky. */
  lemma ColumnCorrect(u: Setup, answers: seq<Answer>, text: string, k: nat, f: seq<int>, r: Point)
    requires |u.nodes| == |answers| && GoodNodes(u) && KeysOnPolynomial(u, f)
    requires ParseCiphertext(u.suite, text).Returns? && NoneTakenLucky(u, answers, text, k)
    requires u.suite.decode(ParseCiphertext(u.suite, text).value.r) == Encoded(r)
    ensures var column := Column(u, answers, text, k, |u.nodes|);
            CorrectShares(column, f, r) && GoodIndices(column)
  {
    hide Accepted, Column, ParseCiphertext, LuckyAt, CorrectShare, Cong;
    var column := Column(u, answers, text, k, |u.nodes|);
    forall s | s in column ensures CorrectShare(s, f, r) && !Cong(s.index, 0) {
      ColumnFrom(u, answers, text, k, |u.nodes|, s);
      var m :| 0 <= m < |u.nodes| && s in Accepted(u, u.nodes[m], answers[m], text, k)
               && u.nodes[m].address in u.registered && s.index == u.nodes[m].index;
      AcceptedCorrect(u, u.nodes[m], answers[m], text, k, f, r, s);
    }
    forall s, t | s in column && t in column && s.index != t.index ensures !Cong(s.index, t.index) {
      ColumnFrom(u, answers, text, k, |u.nodes|, s);
      ColumnFrom(u, answers, text, k, |u.nodes|, t);
    }
  }

  ghost function IndicesOf(u: Setup, at: set<nat>): set<int>
    requires forall n :: n in at ==> n < |u.nodes|
  {
    set n | n in at :: u.nodes[n].index
  }

  lemma {:induction false} AsManyIndices(u: Setup, at: set<nat>)
    requires GoodNodes(u) && forall n :: n in at ==> n < |u.nodes|
    ensures |IndicesOf(u, at)| == |at|
    decreases |at|
  {
    if at != {} {
      var m :| m in at;
      AsManyIndices(u, at - {m});
      forall n | n in at - {m} ensures u.nodes[n].index != u.nodes[m].index {
        DifferentIndices(u, m, n);
      }
      assert IndicesOf(u, at) == IndicesOf(u, at - {m}) + {u.nodes[m].index};
    }
  }

  lemma DifferentIndices(u: Setup, m: nat, n: nat)
    requires GoodNodes(u) && m < |u.nodes| && n < |u.nodes| && m != n
    ensures u.nodes[m].index != u.nodes[n].index
  {
    if u.nodes[m].index == u.nodes[n].index {
      CongBy(u.nodes[m].index, u.nodes[n].index, 0);
    }
  }

  /** A node that holds its share of f answers honestly with usable proofs. */
  ghost predicate AnswersHonestly(u: Setup, f: seq<int>, texts: seq<string>, node: Node, answer: Answer,
                                  share: KeyShare, nonces: seq<int>)
  {
    && node.address in u.registered
    && share.index == node.index && share.secret == Hex(Mod(Eval(f, node.index))) && Mod(Eval(f, node.index)) != 0
    && |nonces| == |texts| && GoodNonces(nonces)
    && SharesFor(u.suite, u.hash, share, texts, nonces).Returns?
    && answer == HonestAnswer(u, share, texts, nonces)
    && var list := SharesFor(u.suite, u.hash, share, texts, nonces).value;
       forall k :: 0 <= k < |list| ==> list[k].z != Hex(0)
  }

  /** What a validator answers that finds the batch sealed. */
  function HonestAnswer(u: Setup, share: KeyShare, texts: seq<string>, nonces: seq<int>): Answer
    requires |nonces| == |texts| && GoodNonces(nonces)
  {
    match SharesFor(u.suite, u.hash, share, texts, nonces)
    case Throws => Refused
    case Returns(list) => Shares(seq(|list|, i requires 0 <= i < |list| => Some(list[i])))
  }

  lemma HonestAccepted(u: Setup, f: seq<int>, texts: seq<string>, node: Node, answer: Answer,
                       share: KeyShare, nonces: seq<int>, k: nat)
    requires AnswersHonestly(u, f, texts, node, answer, share, nonces) && k < |texts|
    requires u.registered[node.address] == Encoded(Scale(BASE, Eval(f, node.index)))
    ensures |Accepted(u, node, answer, texts[k], k)| == 1
    ensures Accepted(u, node, answer, texts[k], k)[0].index == node.index
  {
    ShareAt(u.suite, u.hash, share, texts, nonces, k);
    var s := SharesFor(u.suite, u.hash, share, texts, nonces).value[k];
    var r := u.suite.decode(ParseCiphertext(u.suite, texts[k]).value.r);
    SameImage(Eval(f, node.index));
    PartialIndex(u.hash, share, r, nonces[k]);
    Completeness(u.hash, share, r, nonces[k]);
    hide SharesFor, PartialDecrypt, VerifyDecryptionShare, ParseCiphertext, Scale;
    assert answer.shares[k] == Some(s);
  }

  lemma SameImage(v: int)
    ensures Scale(BASE, Mod(v)) == Scale(BASE, v)
  {
    ModEq(1 * Mod(v), 1 * v);
  }

  lemma PartialIndex(h: PointHash, share: KeyShare, r: PointText, k: int)
    requires 0 < k < L && PartialDecrypt(h, share, r, k).Returns?
    ensures PartialDecrypt(h, share, r, k).value.index == share.index
  {
  }

  function Texts(rows: seq<Row>): (t: seq<string>)
    ensures |t| == |rows|
  {
    seq(|rows|, k requires 0 <= k < |rows| => rows[k].encryptedData)
  }

  /** Honest nodes at these positions, each with its key share and nonces. */
  ghost predicate HonestAt(u: Setup, f: seq<int>, rows: seq<Row>, answers: seq<Answer>, honest: set<nat>,
                           keys: map<nat, KeyShare>, nonces: map<nat, seq<int>>)
    requires |u.nodes| == |answers|
  {
    forall n :: n in honest ==>
      && n < |u.nodes| && n in keys && n in nonces
      && AnswersHonestly(u, f, Texts(rows), u.nodes[n], answers[n], keys[n], nonces[n])
  }

  lemma EnoughIndices(u: Setup, f: seq<int>, rows: seq<Row>, answers: seq<Answer>, honest: set<nat>,
                      keys: map<nat, KeyShare>, nonces: map<nat, seq<int>>, k: nat)
    requires |u.nodes| == |answers| && k < |rows| && GoodNodes(u) && KeysOnPolynomial(u, f)
    requires HonestAt(u, f, rows, answers, honest, keys, nonces)
    ensures |IndexSet(Column(u, answers, rows[k].encryptedData, k, |u.nodes|))| >= |honest|
  {
    hide Column, Accepted, GoodNodes, AnswersHonestly;
    var text := rows[k].encryptedData;
    var column := Column(u, answers, text, k, |u.nodes|);
    forall n | n in honest ensures u.nodes[n].index in IndexSet(column) {
      HonestIsRegistered(u, f, Texts(rows), u.nodes[n], answers[n], keys[n], nonces[n]);
      HonestAccepted(u, f, Texts(rows), u.nodes[n], answers[n], keys[n], nonces[n], k);
      ColumnHas(u, answers, text, k, |u.nodes|, n, Accepted(u, u.nodes[n], answers[n], text, k)[0]);
    }
    AsManyIndices(u, honest);
    assert IndicesOf(u, honest) <= IndexSet(column);
    SubsetSize(IndicesOf(u, honest), IndexSet(column));
  }

  lemma HonestIsRegistered(u: Setup, f: seq<int>, texts: seq<string>, node: Node, answer: Answer, share: KeyShare,
                           nonces: seq<int>)
    requires AnswersHonestly(u, f, texts, node, answer, share, nonces)
    ensures node.address in u.registered
  {
  }

  lemma SubsetSize<T>(s: set<T>, t: set<T>)
    requires s <= t
    ensures |s| <= |t|
  {
    assert t == s + (t - s);
  }

  /** Whatever the other validators answer: if at least `threshold` registered ones hold
      their shares of one polynomial and answer honestly, every order that was
      encrypted to the group key and is valid comes out exactly as it was encrypted,
      unless a share that was taken for it is lucky. */
  lemma ByzantineTolerance(u: Setup, f: seq<int>, rows: seq<Row>, answers: seq<Answer>, honest: set<nat>,
                           keys: map<nat, KeyShare>, nonces: map<nat, seq<int>>,
                           k: nat, plaintext: string, e: int, nonce: seq<byte>, order: DecryptedOrder)
    requires Sound(u.suite) && |u.nodes| == |answers| && GoodNodes(u)
    requires 0 < u.threshold <= |honest| && |f| <= u.threshold && Scale(BASE, Eval(f, 0)) != ZERO
    requires KeysOnPolynomial(u, f) && HonestAt(u, f, rows, answers, honest, keys, nonces)
    requires k < |rows| && 0 < e < L && |nonce| == NONCE_BYTES && NoneTakenLucky(u, answers, rows[k].encryptedData, k)
    requires EncryptOrder(u.suite, plaintext, Encoded(Scale(BASE, Eval(f, 0))), rows[k].userAddress, e, nonce)
             == Returns(rows[k].encryptedData)
    requires ParseDecryptedOrder(u.json, Utf8(plaintext), rows[k].userAddress, rows[k].nonce) == Returns(order)
    ensures OutcomeAt(u, rows, answers, k) == Decrypted(rows[k].id, order)
  {
    hide *;
    var row := rows[k];
    var column := Column(u, answers, row.encryptedData, k, |u.nodes|);
    var r := Scale(BASE, e);
    EncryptedR(u.suite, plaintext, Eval(f, 0), row.userAddress, e, nonce);
    ColumnCorrect(u, answers, row.encryptedData, k, f, r);
    EnoughIndices(u, f, rows, answers, honest, keys, nonces, k);
    CombineCorrect(column, u.threshold, f, r);
    IndexSetBound(column);
    OrderRoundTrip(u.suite, plaintext, Eval(f, 0), row.userAddress, e, nonce);
    Concluded(u, rows, answers, k, Scale(r, Eval(f, 0)), Utf8(plaintext), order);
  }

  /** The registered keys are those of the result of a key generation. */
  ghost predicate RegisteredFrom(u: Setup, t: Transcript, participants: seq<int>) {
    && PublicResultOf(t, participants, u.threshold).Returns?
    && forall n :: 0 <= n < |u.nodes| ==>
         && u.nodes[n].index in participants
         && (u.nodes[n].address in u.registered ==>
               u.registered[u.nodes[n].address]
               == Encoded(PublicResultOf(t, participants, u.threshold).value.verificationKeys[u.nodes[n].index]))
  }

  /** From key generation to decryption: after any key generation that ended with this
      transcript, with validators that keep the shares they finalized. */
  lemma DecryptsAfterKeyGeneration(u: Setup, t: Transcript, participants: seq<int>, rows: seq<Row>,
                                   answers: seq<Answer>,
                                   honest: set<nat>, keys: map<nat, KeyShare>, nonces: map<nat, seq<int>>,
                                   k: nat, plaintext: string, e: int, nonce: seq<byte>, order: DecryptedOrder)
    requires Sound(u.suite) && |u.nodes| == |answers| && GoodNodes(u)
    requires RegisteredFrom(u, t, participants) && 0 < u.threshold <= |honest|
    requires HonestAt(u, ResultPolynomial(t, participants, u.threshold), rows, answers, honest, keys, nonces)
    requires k < |rows| && 0 < e < L && |nonce| == NONCE_BYTES && NoneTakenLucky(u, answers, rows[k].encryptedData, k)
    requires EncryptOrder(u.suite, plaintext,
                          Encoded(PublicResultOf(t, participants, u.threshold).value.groupPublicKey),
                          rows[k].userAddress, e, nonce) == Returns(rows[k].encryptedData)
    requires ParseDecryptedOrder(u.json, Utf8(plaintext), rows[k].userAddress, rows[k].nonce) == Returns(order)
    ensures OutcomeAt(u, rows, answers, k) == Decrypted(rows[k].id, order)
  {
    ResultOnOnePolynomial(t, participants, u.threshold);
    var f := ResultPolynomial(t, participants, u.threshold);
    hide Scale, Eval, ResultPolynomial, PublicResultOf, EncryptOrder, ParseDecryptedOrder, OutcomeAt, HonestAt, Sound,
         NoneTakenLucky, GoodNodes;
    assert KeysOnPolynomial(u, f);
    ByzantineTolerance(u, f, rows, answers, honest, keys, nonces, k, plaintext, e, nonce, order);
  }

  lemma Concluded(u: Setup, rows: seq<Row>, answers: seq<Answer>, k: nat, point: Point, plain: seq<byte>,
                  order: DecryptedOrder)
    requires |u.nodes| == |answers| && k < |rows|
    requires var column := Column(u, answers, rows[k].encryptedData, k, |u.nodes|);
             |column| >= u.threshold && Combine(column, u.threshold) == Returns(point)
    requires DecryptWithSharedPoint(u.suite, rows[k].encryptedData, u.suite.encode(point), rows[k].userAddress)
             == Returns(plain)
    requires ParseDecryptedOrder(u.json, plain, rows[k].userAddress, rows[k].nonce) == Returns(order)
    ensures OutcomeAt(u, rows, answers, k) == Decrypted(rows[k].id, order)
  {
    hide Column, Combine, DecryptWithSharedPoint, ParseDecryptedOrder;
  }

  lemma IndexSetBound(shares: seq<DecryptionShare>)
    ensures |IndexSet(shares)| <= |shares|
  {
    if shares != [] {
      var front, last := shares[..|shares| - 1], shares[|shares| - 1];
      IndexSetBound(front);
      assert IndexSet(shares) == IndexSet(front) + {last.index};
    }
  }

  lemma EncryptedR(c: Suite, plaintext: string, y: int, address: string, e: int, nonce: seq<byte>)
    requires Sound(c) && 0 < e < L && Scale(BASE, y) != ZERO && |nonce| == NONCE_BYTES
    ensures var text := EncryptOrder(c, plaintext, Encoded(Scale(BASE, y)), address, e, nonce);
            && text.Returns? && ParseCiphertext(c, text.value).Returns?
            && c.decode(ParseCiphertext(c, text.value).value.r) == Encoded(Scale(BASE, e))
  {
    CongUniqueIfZero(e);
    ScaleNonzero(BASE, e);
    hide Scale, Render, ParseCiphertext, Utf8;
    var (r, k) := (c.encode(Scale(BASE, e)), c.encode(Scale(Scale(BASE, y), e)));
    var body := c.seal(c.derive(KeyMaterial(r, k)), nonce, Aad(r, address), Utf8(plaintext));
    WireRoundTrip(c, ParsedCiphertext(r, nonce, body));
  }

  // ----- Nothing else comes out -----

  /** With this shared point the row's ciphertext, for the row's user, opens to the plaintext. */
  ghost predicate OpensTo(u: Setup, row: Row, point: Point, plaintext: seq<byte>) {
    ParseCiphertext(u.suite, row.encryptedData).Returns?
    && var p := ParseCiphertext(u.suite, row.encryptedData).value;
       u.suite.open(u.suite.derive(p.r + u.suite.encode(point)), p.nonce, p.r + Utf8(row.userAddress), p.body)
       == Returns(plaintext)
  }

  /** The row's ciphertext holds the order o of the row's user under the row's nonce. */
  ghost predicate HoldsOrder(u: Setup, row: Row, point: Point, o: DecryptedOrder) {
    exists plaintext, amountIn: nat, minimum: nat ::
      OpensTo(u, row, point, plaintext) && Holds(u.json, plaintext, row.userAddress, row.nonce, o, amountIn, minimum)
  }

  lemma OpenExactly(u: Setup, row: Row, shares: seq<DecryptionShare>, o: DecryptedOrder)
    ensures Open(u, row, shares) == Returns(o)
            <==> |shares| >= u.threshold && Combine(shares, u.threshold).Returns?
                 && HoldsOrder(u, row, Combine(shares, u.threshold).value, o)
  {
    hide Combine, ParseDecryptedOrder, Holds, ParseCiphertext;
    if Combine(shares, u.threshold).Returns? {
      var k := Combine(shares, u.threshold).value;
      forall plaintext
        ensures DecryptWithSharedPoint(u.suite, row.encryptedData, u.suite.encode(k), row.userAddress)
                == Returns(plaintext)
                <==> OpensTo(u, row, k, plaintext)
      {
      }
      forall plaintext
        ensures ParseDecryptedOrder(u.json, plaintext, row.userAddress, row.nonce) == Returns(o)
                <==> exists n: nat, m: nat :: Holds(u.json, plaintext, row.userAddress, row.nonce, o, n, m)
      {
        AcceptedExactly(u.json, plaintext, row.userAddress, row.nonce, o);
      }
      hide OpensTo, DecryptWithSharedPoint;
    }
  }

  /** Whatever the validators answer, an order comes out only under its own id, and only if
      the row's own ciphertext, opened for the row's user with the point that the shares
      combine to, holds it under the row's nonce. */
  lemma OnlyHeldOrders(u: Setup, rows: seq<Row>, answers: seq<Answer>, k: nat)
    requires |u.nodes| == |answers| && k < |rows|
    ensures var column := Column(u, answers, rows[k].encryptedData, k, |u.nodes|);
            match OutcomeAt(u, rows, answers, k)
            case Decrypted(id, o) =>
              && id == rows[k].id && |column| >= u.threshold && Combine(column, u.threshold).Returns?
              && HoldsOrder(u, rows[k], Combine(column, u.threshold).value, o)
            case Failed(id) => id == rows[k].id
  {
    var column := Column(u, answers, rows[k].encryptedData, k, |u.nodes|);
    hide Column, Combine, HoldsOrder, Open;
    if OutcomeAt(u, rows, answers, k).Decrypted? {
      OpenExactly(u, rows[k], column, OutcomeAt(u, rows, answers, k).order);
    }
  }

  /** With a threshold of honest answers: an order comes out if and only if the row's
      ciphertext, opened with f(0)·R, holds it for the row's user and nonce. Otherwise the
      order fails, whoever encrypted what. */
  lemma DecryptedExactly(u: Setup, f: seq<int>, rows: seq<Row>, answers: seq<Answer>, honest: set<nat>,
                         keys: map<nat, KeyShare>, nonces: map<nat, seq<int>>, k: nat, r: Point)
    requires |u.nodes| == |answers| && GoodNodes(u) && 0 < u.threshold <= |honest| && |f| <= u.threshold
    requires KeysOnPolynomial(u, f) && HonestAt(u, f, rows, answers, honest, keys, nonces)
    requires k < |rows| && NoneTakenLucky(u, answers, rows[k].encryptedData, k)
    requires ParseCiphertext(u.suite, rows[k].encryptedData).Returns?
    requires u.suite.decode(ParseCiphertext(u.suite, rows[k].encryptedData).value.r) == Encoded(r)
    ensures forall o :: OutcomeAt(u, rows, answers, k) == Decrypted(rows[k].id, o)
                        <==> HoldsOrder(u, rows[k], Scale(r, Eval(f, 0)), o)
    ensures (forall o :: !HoldsOrder(u, rows[k], Scale(r, Eval(f, 0)), o))
            ==> OutcomeAt(u, rows, answers, k) == Failed(rows[k].id)
  {
    var (row, point) := (rows[k], Scale(r, Eval(f, 0)));
    hide *;
    var column := Column(u, answers, row.encryptedData, k, |u.nodes|);
    ColumnCorrect(u, answers, row.encryptedData, k, f, r);
    EnoughIndices(u, f, rows, answers, honest, keys, nonces, k);
    CombineCorrect(column, u.threshold, f, r);
    IndexSetBound(column);
    forall o ensures OutcomeAt(u, rows, answers, k) == Decrypted(row.id, o) <==> HoldsOrder(u, row, point, o) {
      OpenExactly(u, row, column, o);
      OutcomeIs(u, rows, answers, k, o);
    }
    OnlyHeldOrders(u, rows, answers, k);
  }

  lemma OutcomeIs(u: Setup, rows: seq<Row>, answers: seq<Answer>, k: nat, o: DecryptedOrder)
    requires |u.nodes| == |answers| && k < |rows|
    ensures OutcomeAt(u, rows, answers, k) == Decrypted(rows[k].id, o)
            <==> Open(u, rows[k], Column(u, answers, rows[k].encryptedData, k, |u.nodes|)) == Returns(o)
  {
    hide Column, Open;
  }

  /** The plaintext names another user or another nonce than the row. */
  ghost predicate Mismatched(u: Setup, row: Row, plaintext: seq<byte>) {
    u.json(plaintext).Returns? ==>
      var raw := u.json(plaintext).value;
      || "user" !in raw || raw["user"] != TextField(row.userAddress)
      || "nonce" !in raw || raw["nonce"] != NumberField(row.nonce)
  }

  lemma MismatchedHoldsNothing(u: Setup, row: Row, plaintext: seq<byte>, o: DecryptedOrder, n: nat, m: nat)
    requires Mismatched(u, row, plaintext)
    ensures !Holds(u.json, plaintext, row.userAddress, row.nonce, o, n, m)
  {
    if Holds(u.json, plaintext, row.userAddress, row.nonce, o, n, m) {
      ClientTexts(u.json(plaintext).value, row.userAddress, row.nonce, o.tokenIn, o.tokenOut, n, m);
      hide Contains, ClientFields;
    }
  }

  /** A ciphertext resubmitted under another user or nonce than it was written for fails,
      although a threshold of honest validators decrypts it. */
  lemma MismatchFails(u: Setup, f: seq<int>, rows: seq<Row>, answers: seq<Answer>, honest: set<nat>,
                      keys: map<nat, KeyShare>, nonces: map<nat, seq<int>>,
                      k: nat, plaintext: string, e: int, nonce: seq<byte>)
    requires Sound(u.suite) && |u.nodes| == |answers| && GoodNodes(u)
    requires 0 < u.threshold <= |honest| && |f| <= u.threshold && Scale(BASE, Eval(f, 0)) != ZERO
    requires KeysOnPolynomial(u, f) && HonestAt(u, f, rows, answers, honest, keys, nonces)
    requires k < |rows| && 0 < e < L && |nonce| == NONCE_BYTES && NoneTakenLucky(u, answers, rows[k].encryptedData, k)
    requires EncryptOrder(u.suite, plaintext, Encoded(Scale(BASE, Eval(f, 0))), rows[k].userAddress, e, nonce)
             == Returns(rows[k].encryptedData)
    requires Mismatched(u, rows[k], Utf8(plaintext))
    ensures OutcomeAt(u, rows, answers, k) == Failed(rows[k].id)
  {
    hide *;
    var (row, r) := (rows[k], Scale(BASE, e));
    EncryptedR(u.suite, plaintext, Eval(f, 0), row.userAddress, e, nonce);
    OrderRoundTrip(u.suite, plaintext, Eval(f, 0), row.userAddress, e, nonce);
    DecryptedExactly(u, f, rows, answers, honest, keys, nonces, k, r);
    forall o ensures !HoldsOrder(u, row, Scale(r, Eval(f, 0)), o) {
      OnlyThisPlaintext(u, row, Scale(r, Eval(f, 0)), Utf8(plaintext), o);
    }
  }

  lemma OnlyThisPlaintext(u: Setup, row: Row, point: Point, plaintext: seq<byte>, o: DecryptedOrder)
    requires Mismatched(u, row, plaintext)
    requires DecryptWithSharedPoint(u.suite, row.encryptedData, u.suite.encode(point), row.userAddress)
             == Returns(plaintext)
    ensures !HoldsOrder(u, row, point, o)
  {
    hide Mismatched, Holds, ParseCiphertext;
    forall other, n: nat, m: nat | OpensTo(u, row, point, other)
      ensures !Holds(u.json, other, row.userAddress, row.nonce, o, n, m)
    {
      MismatchedHoldsNothing(u, row, plaintext, o, n, m);
    }
  }

  // ----- One unreadable ciphertext -----

  /** One ciphertext of a sealed batch that does not parse makes every order of the
      batch fail, however honest all validators are. */
  lemma BadCiphertextBlocksBatch(u: Setup, rows: seq<Row>, answers: seq<Answer>, shares: seq<KeyShare>,
                                 nonces: seq<seq<int>>, bad: nat, k: nat)
    requires |u.nodes| == |answers| == |shares| == |nonces| && u.threshold > 0 && bad < |rows| && k < |rows|
    requires ParseCiphertext(u.suite, rows[bad].encryptedData).Throws?
    requires forall n :: 0 <= n < |answers| ==>
      && |nonces[n]| == |rows| && GoodNonces(nonces[n]) && HexToScalar(shares[n].secret).Returns?
      && answers[n] == HonestAnswer(u, shares[n], Texts(rows), nonces[n])
    ensures OutcomeAt(u, rows, answers, k) == Failed(rows[k].id)
  {
    hide ParseCiphertext, SharesFor, OutcomeAt, Column;
    forall n | 0 <= n < |answers| ensures answers[n] == Refused {
      AllOrNothing(u.suite, u.hash, shares[n], Texts(rows), nonces[n]);
      assert Texts(rows)[bad] == rows[bad].encryptedData;
    }
    assert Contributors(u, answers, rows[k].encryptedData, k, |u.nodes|) == {};
    TooFewFail(u, rows, answers, k);
  }
}
