/** Which shares are combined, and to what, whether they are right or wrong. */
module Combining {
  import opened Collections
  import opened Residues
  import opened Lagrange
  import opened Outcomes
  import opened Group
  import opened Threshold

  // ----- Which shares -----

  /** Where an index occurs for the first time. */
  ghost function Firsts(shares: seq<DecryptionShare>): set<nat> {
    set k: nat | k < |shares| && forall i :: 0 <= i < k ==> shares[i].index != shares[k].index
  }

  /** No later share has the same index. */
  ghost predicate Latest(shares: seq<DecryptionShare>, s: DecryptionShare) {
    exists k :: 0 <= k < |shares| && shares[k] == s && forall i :: k < i < |shares| ==> shares[i].index != s.index
  }

  lemma {:induction false} SetEntryExactly(entries: seq<DecryptionShare>, s: DecryptionShare)
    ensures Indices(SetEntry(entries, s))
            == Indices(entries) + if s.index in Indices(entries) then [] else [s.index]
  {
    if entries != [] {
      var rest := entries[1..];
      SetEntryExactly(rest, s);
      IndicesCons(entries[0], rest);
      IndicesCons(s, rest);
      IndicesCons(entries[0], SetEntry(rest, s));
      assert entries == [entries[0]] + rest;
      assert SetEntry(entries, s) == if entries[0].index == s.index then [s] + rest
                                     else [entries[0]] + SetEntry(rest, s);
    }
  }

  lemma IndicesCons(s: DecryptionShare, rest: seq<DecryptionShare>)
    ensures Indices([s] + rest) == [s.index] + Indices(rest)
  {
  }

  lemma IndexOccurs(shares: seq<DecryptionShare>, i: int)
    ensures i in Indices(shares) <==> exists k :: 0 <= k < |shares| && shares[k].index == i
  {
    forall k | 0 <= k < |shares| ensures Indices(shares)[k] == shares[k].index {
    }
  }

  /** The indices are those that occur, each once, in the order of their first occurrence. */
  lemma {:induction false} UniqueOrder(shares: seq<DecryptionShare>)
    ensures Picked(Indices(shares), Indices(Unique(shares)), Firsts(shares))
  {
    if shares == [] {
      PickedNone<int>(Firsts(shares));
    } else {
      var n := |shares| - 1;
      var (front, last) := (shares[..n], shares[n]);
      UniqueOrder(front);
      SetEntryExactly(Unique(front), last);
      SameOccurrences(front, last.index);
      assert Indices(shares)[..n] == Indices(front);
      FirstsFront(shares);
      hide Picked, Unique, Indices;
      PickedLast(Indices(shares), Indices(Unique(front)), Firsts(front), Firsts(shares));
    }
  }

  lemma SameOccurrences(shares: seq<DecryptionShare>, i: int)
    ensures i in Indices(Unique(shares)) <==> i in Indices(shares)
  {
    UniqueIndices(shares);
    hide Unique, NoRepeats;
    IndexOccurs(shares, i);
    IndexOccurs(Unique(shares), i);
    assert i in IndexSet(shares) <==> i in IndexSet(Unique(shares));
  }

  lemma FirstsFront(shares: seq<DecryptionShare>)
    requires shares != []
    ensures forall i: nat :: i in Firsts(shares[..|shares| - 1]) <==> i in Firsts(shares) && i < |shares| - 1
    ensures |shares| - 1 in Firsts(shares) <==> shares[|shares| - 1].index !in Indices(shares[..|shares| - 1])
  {
    IndexOccurs(shares[..|shares| - 1], shares[|shares| - 1].index);
  }

  lemma {:induction false} SetEntryMembers(entries: seq<DecryptionShare>, s: DecryptionShare, e: DecryptionShare)
    requires NoRepeats(entries) && e in SetEntry(entries, s)
    ensures e == s || (e in entries && e.index != s.index)
  {
    if entries != [] {
      var rest := entries[1..];
      assert forall k :: 0 <= k < |rest| ==> rest[k] == entries[k + 1];
      if entries[0].index == s.index {
        assert e == s || e in rest;
      } else if e != entries[0] {
        assert e in SetEntry(rest, s);
        SetEntryMembers(rest, s, e);
      }
    }
  }

  lemma LatestStays(shares: seq<DecryptionShare>, s: DecryptionShare)
    requires shares != [] && Latest(shares[..|shares| - 1], s) && shares[|shares| - 1].index != s.index
    ensures Latest(shares, s)
  {
    var (n, front) := (|shares| - 1, shares[..|shares| - 1]);
    var k :| 0 <= k < n && front[k] == s && forall i :: k < i < n ==> front[i].index != s.index;
    assert shares[k] == s && forall i :: k < i < n ==> shares[i] == front[i];
  }

  /** Every kept share is the last one of its index. */
  lemma {:induction false} UniqueLatest(shares: seq<DecryptionShare>, s: DecryptionShare)
    requires s in Unique(shares)
    ensures Latest(shares, s)
  {
    var n := |shares| - 1;
    var front := Unique(shares[..n]);
    UniqueIndices(shares[..n]);
    SetEntryMembers(front, shares[n], s);
    hide NoRepeats, SetEntry, IndexSet;
    if s == shares[n] {
      assert shares[n] == s;
    } else {
      UniqueLatest(shares[..n], s);
      hide Latest;
      LatestStays(shares, s);
    }
  }

  /** The shares of the first `threshold` indices that occur, or of all if they are fewer:
      in the order in which the indices occur first, each the last one of its index. */
  ghost predicate IsChoice(shares: seq<DecryptionShare>, threshold: nat, chosen: seq<DecryptionShare>) {
    && |chosen| == (if |Firsts(shares)| < threshold then |Firsts(shares)| else threshold)
    && (exists all :: Picked(Indices(shares), all, Firsts(shares)) && Indices(chosen) <= all)
    && forall s :: s in chosen ==> Latest(shares, s)
  }

  lemma ChosenExactly(shares: seq<DecryptionShare>, threshold: nat)
    ensures IsChoice(shares, threshold, Chosen(shares, threshold))
  {
    var (u, chosen) := (Unique(shares), Chosen(shares, threshold));
    UniqueOrder(shares);
    PickedSize(Indices(shares), Indices(u), Firsts(shares));
    hide Unique, Latest, Picked, Firsts;
    forall s | s in chosen ensures Latest(shares, s) {
      UniqueLatest(shares, s);
    }
    assert Indices(chosen) == Indices(u)[..|chosen|];
  }

  // ----- To what -----

  function LogsOf(terms: seq<DecryptionShare>): (r: seq<int>)
    ensures |r| == |terms|
  {
    seq(|terms|, k requires 0 <= k < |terms| => if terms[k].share.Encoded? then terms[k].share.point.log else 0)
  }

  /** A point other than the identity, with a coefficient that is not zero modulo L. */
  predicate Usable(s: DecryptionShare, indices: seq<int>) {
    s.share.Encoded? && s.share.point != ZERO && Coefficient(s.index, indices) != 0
  }

  ghost predicate AllUsable(terms: seq<DecryptionShare>, indices: seq<int>) {
    forall k :: 0 <= k < |terms| ==> Usable(terms[k], indices)
  }

  lemma {:induction false} SumReturns(terms: seq<DecryptionShare>, indices: seq<int>)
    ensures Sum(terms, indices).Returns? <==> AllUsable(terms, indices)
  {
    if terms != [] {
      var n := |terms| - 1;
      SumReturns(terms[..n], indices);
      LastTerm(terms, indices);
      hide Sum, Usable;
      assert forall k :: 0 <= k < n ==> terms[..n][k] == terms[k];
    }
  }

  lemma LastTerm(terms: seq<DecryptionShare>, indices: seq<int>)
    requires terms != []
    ensures var (n, rest) := (|terms| - 1, Sum(terms[..|terms| - 1], indices));
            Sum(terms, indices)
            == if rest.Throws? || !Usable(terms[n], indices) then Throws
               else Returns(Add(rest.value, Scale(terms[n].share.point, Coefficient(terms[n].index, indices))))
  {
    hide Coefficient, Add, Scale;
  }

  lemma {:induction false} SumValue(terms: seq<DecryptionShare>, indices: seq<int>)
    requires AllUsable(terms, indices) && Sum(terms, indices).Returns?
    ensures Cong(Sum(terms, indices).value.log, Combination(Indices(terms), indices, LogsOf(terms)))
  {
    hide Cong, Coefficient, Add, Scale;
    if terms == [] {
      CongBy(0, 0, 0);
    } else {
      var n := |terms| - 1;
      var (front, last) := (terms[..n], terms[n]);
      SumValue(front, indices);
      assert Indices(terms)[..n] == Indices(front) && LogsOf(terms)[..n] == LogsOf(front);
      NextTerm(Sum(front, indices).value, Combination(Indices(front), indices, LogsOf(front)), last.share.point,
               Coefficient(last.index, indices));
      hide Indices, LogsOf;
    }
  }

  lemma NextTerm(k: Point, v: int, d: Point, c: int)
    requires Cong(k.log, v)
    ensures Cong(Add(k, Scale(d, c)).log, v + Mul(c, d.log))
  {
    CongBy(d.log * c, d.log * c, 0);
    CongAdd(k.log, v, Scale(d, c).log, d.log * c);
    assert d.log * c == c * d.log;
    CongTrans(Add(k, Scale(d, c)).log, k.log + Scale(d, c).log, v + d.log * c);
  }

  /** Shares combine if and only if enough different indices occur and every chosen share
      is usable. The logarithm of the combined point is then the sum of coefficient times
      logarithm, modulo L. */
  lemma CombineExactly(shares: seq<DecryptionShare>, threshold: nat)
    ensures exists chosen ::
              IsChoice(shares, threshold, chosen) && CombinesTo(chosen, threshold, Combine(shares, threshold))
  {
    var chosen := Chosen(shares, threshold);
    ChosenExactly(shares, threshold);
    SumReturns(chosen, Indices(chosen));
    if Sum(chosen, Indices(chosen)).Returns? {
      SumValue(chosen, Indices(chosen));
    }
    hide IsChoice, Chosen, Sum;
    assert CombinesTo(chosen, threshold, Combine(shares, threshold));
  }

  ghost predicate CombinesTo(chosen: seq<DecryptionShare>, threshold: nat, k: Outcome<Point>) {
    && (k.Returns? <==> |chosen| >= threshold && AllUsable(chosen, Indices(chosen)))
    && (k.Returns? ==>
          Cong(k.value.log, Combination(Indices(chosen), Indices(chosen), LogsOf(chosen))))
  }
}
