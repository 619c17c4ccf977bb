/** Small facts about the built-in collections. */
module Collections {

  lemma NonEmptySet<T>(s: set<T>)
    requires s != {}
    ensures exists x :: x in s
  {
    assert (forall x :: x !in s) ==> s == {};
  }

  ghost function Pick<T>(s: set<T>): (x: T)
    requires s != {}
    ensures x in s
  {
    NonEmptySet(s);
    var x :| x in s;
    x
  }

  lemma SubsetOfEqualSize<T>(s: set<T>, t: set<T>)
    requires s <= t && |s| == |t|
    ensures s == t
  {
    assert t == s + (t - s);
    assert |t| == |s| + |t - s|;
  }

  // ----- Filters -----

  ghost predicate Increasing(at: seq<nat>) {
    forall i, j :: 0 <= i < j < |at| ==> at[i] < at[j]
  }

  /** The positions `at`, in order, are the good ones, and hold what is kept. */
  ghost predicate PickedAt<T>(s: seq<T>, kept: seq<T>, good: set<nat>, at: seq<nat>) {
    && |at| == |kept|
    && Increasing(at)
    && (forall k :: 0 <= k < |at| ==> at[k] < |s| && kept[k] == s[at[k]])
    && (forall i: nat :: i in at <==> i in good)
  }

  /** The elements at the good positions, each once and in their order. */
  ghost predicate Picked<T>(s: seq<T>, kept: seq<T>, good: set<nat>) {
    exists at: seq<nat> :: PickedAt(s, kept, good, at)
  }

  lemma PickedNone<T>(good: set<nat>)
    requires good == {}
    ensures Picked<T>([], [], good)
  {
    var at: seq<nat> := [];
    assert PickedAt<T>([], [], good, at);
  }

  lemma PickedAll<T>(s: seq<T>, good: set<nat>)
    requires forall i: nat :: i in good <==> i < |s|
    ensures Picked(s, s, good)
  {
    var at: seq<nat> := seq(|s|, k => k);
    forall i: nat ensures i in at <==> i in good {
      assert i < |s| ==> at[i] == i;
    }
    assert PickedAt(s, s, good, at);
  }

  lemma PickedNext<T>(s: seq<T>, rest: seq<T>, goodRest: set<nat>, good: set<nat>)
    requires s != [] && Picked(s[1..], rest, goodRest)
    requires forall i: nat :: i + 1 in good <==> i in goodRest
    ensures Picked(s, (if 0 in good then [s[0]] else []) + rest, good)
  {
    var at: seq<nat> :| PickedAt(s[1..], rest, goodRest, at);
    var moved := Moved(s, rest, goodRest, good, at);
    hide PickedAt;
    if 0 in good {
      PickedFirst(s, rest, good, moved);
    } else {
      assert [] + rest == rest && good - {0} == good;
    }
  }

  lemma Moved<T>(s: seq<T>, rest: seq<T>, goodRest: set<nat>, good: set<nat>, at: seq<nat>)
    returns (moved: seq<nat>)
    requires s != [] && PickedAt(s[1..], rest, goodRest, at)
    requires forall i: nat :: i + 1 in good <==> i in goodRest
    ensures PickedAt(s, rest, good - {0}, moved)
  {
    moved := seq(|at|, k requires 0 <= k < |at| => at[k] + 1);
    forall i: nat ensures i in moved <==> i in good - {0} {
      MovedMember(at, moved, i);
      assert i > 0 ==> i == (i - 1) + 1;
    }
  }

  lemma PickedFirst<T>(s: seq<T>, rest: seq<T>, good: set<nat>, moved: seq<nat>)
    requires s != [] && 0 in good && PickedAt(s, rest, good - {0}, moved)
    ensures Picked(s, [s[0]] + rest, good)
  {
    forall k | 0 <= k < |moved| ensures moved[k] > 0 {
      assert moved[k] in moved;
    }
    assert PickedAt(s, [s[0]] + rest, good, [0] + moved);
  }

  lemma MovedMember(at: seq<nat>, moved: seq<nat>, i: nat)
    requires |moved| == |at| && forall k :: 0 <= k < |at| ==> moved[k] == at[k] + 1
    ensures i in moved <==> i > 0 && i - 1 in at
  {
    if i > 0 && i - 1 in at {
      var k :| 0 <= k < |at| && at[k] == i - 1;
      assert moved[k] == i;
    }
  }

  lemma PickedLast<T>(s: seq<T>, kept: seq<T>, before: set<nat>, good: set<nat>)
    requires s != [] && Picked(s[..|s| - 1], kept, before)
    requires forall i: nat :: i in before <==> i in good && i < |s| - 1
    requires forall i: nat :: i in good ==> i < |s|
    ensures Picked(s, kept + if |s| - 1 in good then [s[|s| - 1]] else [], good)
  {
    var n: nat := |s| - 1;
    var at: seq<nat> :| PickedAt(s[..n], kept, before, at);
    if n in good {
      var at': seq<nat> := at + [n];
      forall i: nat ensures i in at' <==> i in good {
      }
      assert PickedAt(s, kept + [s[n]], good, at');
    } else {
      assert kept + [] == kept && PickedAt(s, kept, good, at);
    }
  }

  lemma PickedMembers<T>(s: seq<T>, kept: seq<T>, good: set<nat>, b: T)
    requires Picked(s, kept, good)
    ensures b in kept <==> exists i: nat :: i in good && i < |s| && s[i] == b
  {
    var at: seq<nat> :| PickedAt(s, kept, good, at);
    if b in kept {
      var k :| 0 <= k < |kept| && kept[k] == b;
      assert at[k] in at;
    }
    forall i: nat | i in good && i < |s| && s[i] == b ensures b in kept {
      assert i in at;
      var k :| 0 <= k < |at| && at[k] == i;
      assert kept[k] == b;
    }
  }

  lemma {:induction false} IncreasingSize(at: seq<nat>, good: set<nat>)
    requires Increasing(at) && forall i: nat :: i in at <==> i in good
    ensures |at| == |good|
  {
    if at == [] {
      assert good == {};
    } else {
      var last := at[|at| - 1];
      forall i: nat ensures i in at[..|at| - 1] <==> i in good - {last} {
        assert at == at[..|at| - 1] + [last];
      }
      IncreasingSize(at[..|at| - 1], good - {last});
      assert good == (good - {last}) + {last};
    }
  }

  lemma PickedSize<T>(s: seq<T>, kept: seq<T>, good: set<nat>)
    requires Picked(s, kept, good)
    ensures |kept| == |good|
  {
    var at: seq<nat> :| PickedAt(s, kept, good, at);
    IncreasingSize(at, good);
  }

  lemma {:induction false} IncreasingUnique(at: seq<nat>, at': seq<nat>)
    requires Increasing(at) && Increasing(at') && forall i: nat :: i in at <==> i in at'
    ensures at == at'
  {
    assert (at != [] ==> at[0] in at) && (at' != [] ==> at'[0] in at');
    if at != [] {
      var (m, n) := (|at| - 1, |at'| - 1);
      SameLast(at, at');
      forall i: nat ensures i in at[..m] <==> i in at'[..n] {
        FrontMember(at, i);
        FrontMember(at', i);
      }
      IncreasingUnique(at[..m], at'[..n]);
    }
  }

  lemma SameLast(at: seq<nat>, at': seq<nat>)
    requires Increasing(at) && Increasing(at') && forall i: nat :: i in at <==> i in at'
    requires at != [] && at' != []
    ensures at[|at| - 1] == at'[|at'| - 1]
    ensures at == at[..|at| - 1] + [at[|at| - 1]] && at' == at'[..|at'| - 1] + [at'[|at'| - 1]]
  {
    assert at[|at| - 1] in at' && at'[|at'| - 1] in at;
  }

  lemma FrontMember(at: seq<nat>, i: nat)
    requires at != [] && Increasing(at)
    ensures i in at[..|at| - 1] <==> i in at && i != at[|at| - 1]
  {
    assert at == at[..|at| - 1] + [at[|at| - 1]];
  }

  lemma PickedUnique<T>(s: seq<T>, kept: seq<T>, kept': seq<T>, good: set<nat>)
    requires Picked(s, kept, good) && Picked(s, kept', good)
    ensures kept == kept'
  {
    var at: seq<nat> :| PickedAt(s, kept, good, at);
    var at': seq<nat> :| PickedAt(s, kept', good, at');
    IncreasingUnique(at, at');
  }

  // ----- Concatenations -----

  /** The parts lie side by side, beginning at these positions. */
  ghost predicate JoinedAt<T>(all: seq<T>, parts: seq<seq<T>>, at: seq<nat>) {
    && |at| == |parts| + 1 && at[0] == 0 && at[|parts|] == |all|
    && forall k :: 0 <= k < |parts| ==> PartAt(all, parts[k], at[k], at[k + 1])
  }

  ghost predicate PartAt<T>(all: seq<T>, part: seq<T>, from: nat, to: nat) {
    from <= to <= |all| && all[from..to] == part
  }

  ghost predicate Joined<T>(all: seq<T>, parts: seq<seq<T>>) {
    exists at: seq<nat> :: JoinedAt(all, parts, at)
  }

  lemma JoinedNone<T>()
    ensures Joined<T>([], [])
  {
    var at: seq<nat> := [0];
    assert JoinedAt<T>([], [], at);
  }

  lemma JoinedNext<T>(all: seq<T>, parts: seq<seq<T>>)
    requires parts != [] && Joined(all, parts[..|parts| - 1])
    ensures Joined(all + parts[|parts| - 1], parts)
  {
    var (n, all') := (|parts| - 1, all + parts[|parts| - 1]);
    var at: seq<nat> :| JoinedAt(all, parts[..n], at);
    var at': seq<nat> := at + [|all'|];
    forall k | 0 <= k < |parts| ensures PartAt(all', parts[k], at'[k], at'[k + 1]) {
      if k < n {
        assert PartAt(all, parts[..n][k], at[k], at[k + 1]);
        assert all'[at[k]..at[k + 1]] == all[at[k]..at[k + 1]];
      }
    }
    assert JoinedAt(all', parts, at');
  }
}
