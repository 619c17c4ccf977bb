/** Runs that show why each condition on batches is needed. In each of them every event
    meets the other four conditions, and a property proved under all five fails: batch
    creations that overlap, one that dies half way, a settlement that starts before a
    creation is through, a second settlement while updates of a failed one are in flight,
    and a settled batch that its settlement then sets to `failed`. */
module BatchRaces {
  import opened Outcomes
  import opened BatchLifecycle
  import opened BatchOrders

  const NOTHING: World := World(map[], map[], map[], map[], {})

  /** Some run under the conditions comes from w to w'. */
  ghost predicate Leads(cs: set<Condition>, w: World, w': World) {
    exists ws, es, i :: IsRunWith(cs, ws, es) && 0 <= i < |ws| && ws[i] == w && ws[|ws| - 1] == w'
  }

  lemma Start(cs: set<Condition>)
    ensures Leads(cs, NOTHING, NOTHING)
  {
    assert IsRunWith(cs, [NOTHING], []) && [NOTHING][0] == NOTHING;
  }

  lemma Then(cs: set<Condition>, w: World, w': World, e: Event)
    requires Leads(cs, w, w') && Enabled(w', e) && forall c :: c in cs ==> Meets(c, w', e)
    ensures Leads(cs, w, Step(w', e))
  {
    hide Enabled, Step, Meets;
    var ws, es, i :| IsRunWith(cs, ws, es) && 0 <= i < |ws| && ws[i] == w && ws[|ws| - 1] == w';
    var (ws', es') := (ws + [Step(w', e)], es + [e]);
    assert forall k :: 0 <= k < |es| ==> es'[k] == es[k];
    assert IsRunWith(cs, ws', es') && ws'[i] == w && ws'[|ws'| - 1] == Step(w', e);
  }

  lemma Rest(cs: set<Condition>, w: World, w': World)
    requires Leads(cs, w, w')
    ensures Leads(cs, w', w')
  {
  }

  // ----- Two orders and their batch -----

  const O: OrderId := "o"
  const P: OrderId := "p"

  function Orders(o: OrderStatus, p: OrderStatus): map<OrderId, OrderRow> {
    map[O := OrderRow("x", o), P := OrderRow("y", p)]
  }

  /** Both orders are in the batch a. */
  function InBatch(o: OrderStatus, p: OrderStatus, status: BatchStatus, tasks: map<nat, Task>,
                   asked: set<(BatchId, seq<string>)>): World
  {
    World(Orders(o, p), map["a" := BatchRow([O, P], status)], map["a" := ["x", "y"]], tasks, asked)
  }

  lemma TwoOrders(o: OrderStatus, p: OrderStatus)
    ensures Unique([O, P]) == [O, P] && AllKnown(Orders(o, p), [O, P]) && Texts(Orders(o, p), [O, P]) == ["x", "y"]
    ensures Rebuilt(Orders(o, p), [O, P], [O, P]) == ["x", "y"]
  {
    assert [O][..0] == [] && Unique([]) == [] && Unique([O]) == [O];
    assert [O, P][..1] == [O];
    RebuiltIsTexts(Orders(o, p), [O, P], [O, P]);
  }

  lemma SelectTwo(w: World, t: nat, batch: BatchId)
    requires w.orders == Orders(Pending, Pending) && t !in w.tasks && Fresh(w, batch)
    ensures Enabled(w, Select(t, [O, P], batch))
    ensures Step(w, Select(t, [O, P], batch)) == w.(tasks := w.tasks[t := Selected([O, P], ["x", "y"], batch)])
  {
    hide Unique, Texts, Fresh;
    TwoOrders(Pending, Pending);
  }

  /** Both orders are pending and selected for the new batch a. */
  function Selecting(): World {
    World(Orders(Pending, Pending), map[], map[], map[0 := Selected([O, P], ["x", "y"], "a")], {})
  }

  lemma SelectingReached(cs: set<Condition>)
    ensures Leads(cs, NOTHING, Selecting())
  {
    Start(cs);
    Then(cs, NOTHING, NOTHING, Submit(O, "x"));
    var w := World(map[O := OrderRow("x", Pending)], map[], map[], map[], {});
    assert Step(NOTHING, Submit(O, "x")) == w;
    Then(cs, NOTHING, w, Submit(P, "y"));
    var w1 := World(Orders(Pending, Pending), map[], map[], map[], {});
    assert Step(w, Submit(P, "y")) == w1;
    SelectTwo(w1, 0, "a");
    Then(cs, NOTHING, w1, Select(0, [O, P], "a"));
  }

  /** The batch is stored, its orders are not yet marked. */
  function Gap(): World {
    InBatch(Pending, Pending, Created, map[0 := Recorded([O, P], "a")], {})
  }

  lemma GapReached(cs: set<Condition>)
    ensures Leads(cs, NOTHING, Gap())
  {
    SelectingReached(cs);
    var w := Selecting();
    Then(cs, NOTHING, w, Seal(0));
    var w1 := w.(ledger := map["a" := ["x", "y"]], tasks := map[0 := Sealed([O, P], "a")]);
    assert Step(w, Seal(0)) == w1;
    Then(cs, NOTHING, w1, Record(0));
    assert Step(w1, Record(0)) == Gap();
  }

  function Ready(): World {
    InBatch(Batched, Batched, Created, map[], {})
  }

  lemma ReadyReached(cs: set<Condition>)
    ensures Leads(cs, NOTHING, Ready())
  {
    GapReached(cs);
    Then(cs, NOTHING, Gap(), Mark(0));
    assert Marked(Orders(Pending, Pending), [O, P]) == Orders(Batched, Batched);
    assert Step(Gap(), Mark(0)) == Ready();
  }

  // ----- Creations -----

  /** Two creations that both read the orders as pending put them into two batches. */
  lemma OverlappingCreations()
    ensures exists w :: Leads(ALL - {NoOverlap}, NOTHING, w) && "a" in w.batches && "b" in w.batches
                        && O in w.batches["a"].orderIds && O in w.batches["b"].orderIds
  {
    var cs := ALL - {NoOverlap};
    SelectingReached(cs);
    var w := Selecting();
    SelectTwo(w, 1, "b");
    Then(cs, NOTHING, w, Select(1, [O, P], "b"));
    var w1 := w.(tasks := w.tasks[1 := Selected([O, P], ["x", "y"], "b")]);
    FirstCreation(cs, w1);
    SecondCreation(cs, Step(Step(w1, Seal(0)), Record(0)));
  }

  lemma FirstCreation(cs: set<Condition>, w: World)
    requires Leads(cs, NOTHING, w) && w.batches == map[] && w.ledger == map[]
    requires w.tasks.Keys == {0, 1} && w.tasks[0] == Selected([O, P], ["x", "y"], "a")
    ensures Enabled(w, Seal(0)) && Enabled(Step(w, Seal(0)), Record(0))
    ensures var w' := Step(Step(w, Seal(0)), Record(0));
            && Leads(cs, NOTHING, w') && w'.batches == Gap().batches && w'.ledger == Gap().ledger
            && 1 in w'.tasks && w'.tasks[1] == w.tasks[1]
  {
    Then(cs, NOTHING, w, Seal(0));
    Then(cs, NOTHING, Step(w, Seal(0)), Record(0));
  }

  lemma SecondCreation(cs: set<Condition>, w: World)
    requires Leads(cs, NOTHING, w) && w.batches == Gap().batches && w.ledger == Gap().ledger
    requires 1 in w.tasks && w.tasks[1] == Selected([O, P], ["x", "y"], "b")
    ensures exists w' :: Leads(cs, NOTHING, w') && "a" in w'.batches && "b" in w'.batches
                         && O in w'.batches["a"].orderIds && O in w'.batches["b"].orderIds
  {
    Then(cs, NOTHING, w, Seal(1));
    var w1 := Step(w, Seal(1));
    Then(cs, NOTHING, w1, Record(1));
    var w2 := Step(w1, Record(1));
    assert w2.batches == w.batches["b" := BatchRow([O, P], Created)];
    assert O in w2.batches["a"].orderIds && O in w2.batches["b"].orderIds;
  }

  /** So does a creation that dies after storing its batch: the orders stay pending, and
      the next creation selects them again. */
  lemma CreationDiesInTheGap()
    ensures exists w :: Leads(ALL - {NoLostCreation}, NOTHING, w) && "a" in w.batches && "b" in w.batches
                        && O in w.batches["a"].orderIds && O in w.batches["b"].orderIds
  {
    var cs := ALL - {NoLostCreation};
    GapReached(cs);
    Then(cs, NOTHING, Gap(), Crash(0));
    var w := InBatch(Pending, Pending, Created, map[], {});
    assert Step(Gap(), Crash(0)) == w;
    SelectTwo(w, 1, "b");
    Then(cs, NOTHING, w, Select(1, [O, P], "b"));
    SecondCreation(cs, Step(w, Select(1, [O, P], "b")));
  }

  // ----- Attempts to settle -----

  lemma Harmless(w: World, e: Event)
    requires e.Ask? || e.Write? || e.Finish? || e.Slip? || e.Land?
    ensures forall c :: Meets(c, w, e)
  {
  }

  lemma ClaimTwo(o: OrderStatus, p: OrderStatus, status: BatchStatus, tasks: map<nat, Task>,
                 asked: set<(BatchId, seq<string>)>, t: nat)
    requires status in {Created, BatchFailed} && t !in tasks
    ensures var w := InBatch(o, p, status, tasks, asked);
            && Enabled(w, Claim(t, "a"))
            && Step(w, Claim(t, "a")) == InBatch(o, p, Submitted, tasks[t := Claimed("a")], asked)
  {
  }

  lemma AskTwo(o: OrderStatus, p: OrderStatus, tasks: map<nat, Task>, asked: set<(BatchId, seq<string>)>,
               t: nat, verdicts: seq<bool>)
    requires t in tasks && tasks[t] == Claimed("a") && |verdicts| == 2
    ensures var w := InBatch(o, p, Submitted, tasks, asked);
            && Enabled(w, Ask(t, [O, P], verdicts))
            && Step(w, Ask(t, [O, P], verdicts))
               == InBatch(o, p, Submitted, tasks[t := Writing("a", verdicts, {0, 1})], asked + {("a", ["x", "y"])})
  {
    hide Rebuilt, Unique, Texts, Below, AllPending, Fresh, Marked, WithStatus;
    TwoOrders(o, p);
    assert Below(2) == {0, 1};
    assert Orders(o, p).Keys == {O, P};
  }

  lemma WriteO(o: OrderStatus, p: OrderStatus, status: BatchStatus, tasks: map<nat, Task>,
               asked: set<(BatchId, seq<string>)>, t: nat)
    requires t in tasks && tasks[t].Writes() && tasks[t].batch == "a" && |tasks[t].verdicts| == 2 && 0 in tasks[t].left
    ensures var w := InBatch(o, p, status, tasks, asked);
            && Enabled(w, Write(t, 0))
            && Step(w, Write(t, 0))
               == InBatch(StatusOf(tasks[t].verdicts[0]), p, status, tasks[t := AfterWrite(tasks[t], 0)], asked)
  {
  }

  lemma WriteP(o: OrderStatus, p: OrderStatus, status: BatchStatus, tasks: map<nat, Task>,
               asked: set<(BatchId, seq<string>)>, t: nat)
    requires t in tasks && tasks[t].Writes() && tasks[t].batch == "a" && |tasks[t].verdicts| == 2 && 1 in tasks[t].left
    ensures var w := InBatch(o, p, status, tasks, asked);
            && Enabled(w, Write(t, 1))
            && Step(w, Write(t, 1))
               == InBatch(o, StatusOf(tasks[t].verdicts[1]), status, tasks[t := AfterWrite(tasks[t], 1)], asked)
  {
  }

  /** An attempt claims the batch and asks for its verdicts. */
  lemma Asked(cs: set<Condition>, w: World, o: OrderStatus, p: OrderStatus, status: BatchStatus,
              tasks: map<nat, Task>, asked: set<(BatchId, seq<string>)>, t: nat, verdicts: seq<bool>)
    requires status in {Created, BatchFailed} && t !in tasks && |verdicts| == 2
    requires Leads(cs, w, InBatch(o, p, status, tasks, asked))
    requires forall c :: c in cs ==> Meets(c, InBatch(o, p, status, tasks, asked), Claim(t, "a"))
    ensures Leads(cs, w, InBatch(o, p, Submitted, tasks[t := Writing("a", verdicts, {0, 1})],
                                 asked + {("a", ["x", "y"])}))
  {
    hide *;
    var tasks' := tasks[t := Claimed("a")];
    ClaimTwo(o, p, status, tasks, asked, t);
    Then(cs, w, InBatch(o, p, status, tasks, asked), Claim(t, "a"));
    AskTwo(o, p, tasks', asked, t, verdicts);
    Harmless(InBatch(o, p, Submitted, tasks', asked), Ask(t, [O, P], verdicts));
    Then(cs, w, InBatch(o, p, Submitted, tasks', asked), Ask(t, [O, P], verdicts));
    assert tasks'[t := Writing("a", verdicts, {0, 1})] == tasks[t := Writing("a", verdicts, {0, 1})];
  }

  /** Both orders are written. */
  lemma BothWritten(cs: set<Condition>, w: World, o: OrderStatus, p: OrderStatus, status: BatchStatus,
                    tasks: map<nat, Task>, asked: set<(BatchId, seq<string>)>, t: nat, verdicts: seq<bool>)
    requires |verdicts| == 2
    requires Leads(cs, w, InBatch(o, p, status, tasks[t := Writing("a", verdicts, {0, 1})], asked))
    ensures Leads(cs, w, InBatch(StatusOf(verdicts[0]), StatusOf(verdicts[1]), status,
                                 tasks[t := Writing("a", verdicts, {})], asked))
  {
    hide Leads, InBatch, Enabled, Step, Meets, StatusOf;
    var tasks1 := tasks[t := Writing("a", verdicts, {0, 1})];
    WriteO(o, p, status, tasks1, asked, t);
    Harmless(InBatch(o, p, status, tasks1, asked), Write(t, 0));
    Then(cs, w, InBatch(o, p, status, tasks1, asked), Write(t, 0));
    var tasks2 := tasks[t := Writing("a", verdicts, {1})];
    assert {0, 1} - {0} == {1} && tasks1[t := AfterWrite(tasks1[t], 0)] == tasks2;
    WriteP(StatusOf(verdicts[0]), p, status, tasks2, asked, t);
    Harmless(InBatch(StatusOf(verdicts[0]), p, status, tasks2, asked), Write(t, 1));
    Then(cs, w, InBatch(StatusOf(verdicts[0]), p, status, tasks2, asked), Write(t, 1));
    assert {1} - {1} == {} && tasks2[t := AfterWrite(tasks2[t], 1)] == tasks[t := Writing("a", verdicts, {})];
  }

  lemma ConcludeTwo(o: OrderStatus, p: OrderStatus, status: BatchStatus, tasks: map<nat, Task>,
                    asked: set<(BatchId, seq<string>)>, t: nat)
    requires t in tasks && tasks[t].Writing? && tasks[t].batch == "a" && tasks[t].left == {}
    ensures var (w, task) := (InBatch(o, p, status, tasks, asked), tasks[t]);
            && Enabled(w, Finish(t)) && Enabled(w, Slip(t)) && Enabled(w, Fail(t))
            && Step(w, Finish(t)) == InBatch(o, p, BatchSettled, Without(tasks, t), asked)
            && Step(w, Slip(t)) == InBatch(o, p, BatchSettled, tasks[t := Slipped("a", task.verdicts, {})], asked)
            && Step(w, Fail(t)) == InBatch(o, p, BatchFailed, tasks[t := Unsettled("a", task.verdicts, {})], asked)
  {
  }

  const A: set<(BatchId, seq<string>)> := {("a", ["x", "y"])}

  /** The first attempt has its verdicts and has sent the updates of the orders. */
  function FirstAsked(verdicts: seq<bool>): World {
    InBatch(Batched, Batched, Submitted, map[1 := Writing("a", verdicts, {0, 1})], A)
  }

  lemma FirstAskedReached(cs: set<Condition>, verdicts: seq<bool>)
    requires |verdicts| == 2
    ensures Leads(cs, NOTHING, FirstAsked(verdicts))
  {
    ReadyReached(cs);
    Asked(cs, NOTHING, Batched, Batched, Created, map[], {}, 1, verdicts);
    assert {} + A == A;
  }

  /** The first attempt has written both orders as settled. */
  function FirstWritten(): World {
    InBatch(OrderSettled, OrderSettled, Submitted, map[1 := Writing("a", [true, true], {})], A)
  }

  lemma FirstWrittenReached(cs: set<Condition>)
    ensures Leads(cs, NOTHING, FirstWritten())
  {
    FirstAskedReached(cs, [true, true]);
    BothWritten(cs, NOTHING, Batched, Batched, Submitted, map[], A, 1, [true, true]);
  }

  // ----- A claim in the gap -----

  /** The batch is written before its creation is through. */
  function Early(): World {
    InBatch(OrderSettled, OrderSettled, Submitted, Gap().tasks[1 := Writing("a", [true, true], {})], A)
  }

  lemma EarlyReached()
    ensures Leads(ALL - {NoEarlyClaim}, NOTHING, Early())
  {
    hide Leads, Enabled, Step;
    var cs := ALL - {NoEarlyClaim};
    GapReached(cs);
    Asked(cs, NOTHING, Pending, Pending, Created, Gap().tasks, {}, 1, [true, true]);
    assert {} + A == A;
    BothWritten(cs, NOTHING, Pending, Pending, Submitted, Gap().tasks, A, 1, [true, true]);
  }

  /** A settlement that claims the batch in the gap: at the end the batch is settled and
      its orders are `batched`. */
  lemma ClaimInTheGap()
    ensures exists w :: Leads(ALL - {NoEarlyClaim}, NOTHING, w) && "a" in w.batches
                        && w.batches["a"] == BatchRow([O, P], BatchSettled)
                        && O in w.orders && w.orders[O].status == Batched
  {
    EarlyReached();
    EarlyFinished();
    var w := InBatch(OrderSettled, OrderSettled, BatchSettled, Gap().tasks, A);
    Then(ALL - {NoEarlyClaim}, NOTHING, w, Mark(0));
    assert Step(w, Mark(0)).orders[O].status == Batched;
  }

  lemma EarlyFinished()
    requires Leads(ALL - {NoEarlyClaim}, NOTHING, Early())
    ensures Leads(ALL - {NoEarlyClaim}, NOTHING, InBatch(OrderSettled, OrderSettled, BatchSettled, Gap().tasks, A))
  {
    hide Leads, Enabled, Step;
    ConcludeTwo(OrderSettled, OrderSettled, Submitted, Early().tasks, A, 1);
    Then(ALL - {NoEarlyClaim}, NOTHING, Early(), Finish(1));
    assert Without(Early().tasks, 1) == Gap().tasks;
  }

  // ----- A claim while updates are in flight -----

  /** An order of the settled batch a turns from settled to failed. */
  predicate Reverses(w: World, w': World) {
    && "a" in w.batches && w.batches["a"] == BatchRow([O, P], BatchSettled)
    && "a" in w'.batches && w'.batches["a"] == BatchRow([O, P], BatchSettled)
    && P in w.orders && w.orders[P].status == OrderSettled && P in w'.orders && w'.orders[P].status == OrderFailed
  }

  const LATE: map<nat, Task> := map[1 := Leftover("a", [false, false], {0, 1})]

  /** The first attempt failed with its updates in flight; a second one has written both
      orders. */
  function Again(): World {
    InBatch(OrderSettled, OrderSettled, Submitted, LATE[2 := Writing("a", [true, true], {})], A)
  }

  lemma AgainReached()
    ensures Leads(ALL - {Drained}, NOTHING, Again())
  {
    var cs := ALL - {Drained};
    FirstAskedReached(cs, [false, false]);
    var w := FirstAsked([false, false]);
    Then(cs, NOTHING, w, Fail(1));
    assert Step(w, Fail(1)) == InBatch(Batched, Batched, BatchFailed, LATE, A);
    Asked(cs, NOTHING, Batched, Batched, BatchFailed, LATE, A, 2, [true, true]);
    assert A + A == A;
    BothWritten(cs, NOTHING, Batched, Batched, Submitted, LATE, A, 2, [true, true]);
  }

  /** A batch claimed again while updates of a failed attempt are in flight: after it was
      settled, a late update turns a settled order into a failed one. */
  lemma LateUpdateAfterSettling()
    ensures exists w, w' :: Leads(ALL - {Drained}, w, w') && Reverses(w, w')
  {
    hide Leads, Enabled, Step;
    var cs := ALL - {Drained};
    AgainReached();
    ConcludeTwo(OrderSettled, OrderSettled, Submitted, Again().tasks, A, 2);
    Then(cs, NOTHING, Again(), Finish(2));
    var w := InBatch(OrderSettled, OrderSettled, BatchSettled, LATE, A);
    assert Without(Again().tasks, 2) == LATE;
    Rest(cs, NOTHING, w);
    WriteP(OrderSettled, OrderSettled, BatchSettled, LATE, A, 1);
    Then(cs, w, w, Write(1, 1));
    assert Reverses(w, Step(w, Write(1, 1)));
  }

  /** If the late update lands before the batch is settled, it is settled with an order
      whose status is not its verdict's. */
  lemma LateUpdateBeforeSettling()
    ensures exists w, t :: && Leads(ALL - {Drained}, NOTHING, w) && t in w.tasks && Enabled(w, Finish(t))
                           && w.tasks[t].verdicts == [true, true] && w.batches[w.tasks[t].batch].orderIds == [O, P]
                           && HasStatus(Step(w, Finish(t)), P, OrderFailed)
  {
    var cs := ALL - {Drained};
    AgainReached();
    WriteP(OrderSettled, OrderSettled, Submitted, Again().tasks, A, 1);
    Then(cs, NOTHING, Again(), Write(1, 1));
    var w := Step(Again(), Write(1, 1));
    assert w.tasks[2] == Writing("a", [true, true], {}) && HasStatus(w, P, OrderFailed);
    assert Enabled(w, Finish(2)) && HasStatus(Step(w, Finish(2)), P, OrderFailed);
  }

  /** The first attempt failed with its update of the batch to `settled` in flight; a
      second one has its verdicts. */
  function Unsettling(): World {
    InBatch(OrderSettled, OrderSettled, Submitted,
            map[1 := Unsettled("a", [true, true], {})][2 := Writing("a", [true, false], {0, 1})], A)
  }

  lemma UnsettlingReached()
    ensures Leads(ALL - {Drained}, NOTHING, Unsettling())
  {
    hide Leads, Enabled, Step;
    var cs := ALL - {Drained};
    FirstWrittenReached(cs);
    ConcludeTwo(OrderSettled, OrderSettled, Submitted, FirstWritten().tasks, A, 1);
    Then(cs, NOTHING, FirstWritten(), Fail(1));
    var tasks: map<nat, Task> := map[1 := Unsettled("a", [true, true], {})];
    assert FirstWritten().tasks[1 := tasks[1]] == tasks;
    Asked(cs, NOTHING, OrderSettled, OrderSettled, BatchFailed, tasks, A, 2, [true, false]);
    assert A + A == A;
  }

  /** The late update of the batch lands. */
  function Landed(): World {
    InBatch(OrderSettled, OrderSettled, BatchSettled, map[2 := Writing("a", [true, false], {0, 1})], A)
  }

  lemma LandGoes()
    ensures Enabled(Unsettling(), Land(1)) && Step(Unsettling(), Land(1)) == Landed()
  {
  }

  /** An update of the batch to `settled` that was rejected lands after the next attempt
      has claimed it: the batch is settled while that attempt still writes, and a settled
      order turns into a failed one. */
  lemma SettledWhileWriting()
    ensures exists w, w', t :: && Leads(ALL - {Drained}, w, w') && Reverses(w, w')
                               && t in w.tasks && w.tasks[t] == Writing("a", [true, false], {0, 1})
  {
    hide Leads, Enabled, Step;
    var (cs, w) := (ALL - {Drained}, Landed());
    UnsettlingReached();
    LandGoes();
    Then(cs, NOTHING, Unsettling(), Land(1));
    Rest(cs, NOTHING, w);
    WriteP(OrderSettled, OrderSettled, BatchSettled, w.tasks, A, 2);
    Then(cs, w, w, Write(2, 1));
    assert Reverses(w, Step(w, Write(2, 1)));
  }

  // ----- A settled batch that is set to failed -----

  /** The batch is settled, but its settlement has not been told. */
  function FirstSettled(): World {
    InBatch(OrderSettled, OrderSettled, BatchSettled, map[1 := Slipped("a", [true, true], {})], A)
  }

  lemma FirstSettledReached(cs: set<Condition>)
    ensures Leads(cs, NOTHING, FirstSettled())
  {
    hide Leads, Enabled, Step;
    FirstWrittenReached(cs);
    ConcludeTwo(OrderSettled, OrderSettled, Submitted, FirstWritten().tasks, A, 1);
    Harmless(FirstWritten(), Slip(1));
    Then(cs, NOTHING, FirstWritten(), Slip(1));
    assert FirstWritten().tasks[1 := Slipped("a", [true, true], {})] == FirstSettled().tasks;
  }

  /** An update of the batch to `settled` that took effect but was rejected: the batch is
      set to `failed`, and the next attempt turns a settled order into a failed one. */
  lemma SettledThenFailed()
    ensures exists w, w' :: Leads(ALL - {Kept}, w, w') && Reverses(w, w')
  {
    var (cs, w) := (ALL - {Kept}, FirstSettled());
    FirstSettledReached(cs);
    Rest(cs, NOTHING, w);
    Then(cs, w, w, Fail(1));
    assert Step(w, Fail(1)) == InBatch(OrderSettled, OrderSettled, BatchFailed, map[], A);
    SecondAttempt(cs, w);
    assert Reverses(w, InBatch(OrderSettled, OrderFailed, BatchSettled, map[], A));
  }

  lemma SecondAttempt(cs: set<Condition>, w: World)
    requires Leads(cs, w, InBatch(OrderSettled, OrderSettled, BatchFailed, map[], A))
    ensures Leads(cs, w, InBatch(OrderSettled, OrderFailed, BatchSettled, map[], A))
  {
    hide Leads, Enabled, Step;
    Asked(cs, w, OrderSettled, OrderSettled, BatchFailed, map[], A, 2, [true, false]);
    assert A + A == A;
    BothWritten(cs, w, OrderSettled, OrderSettled, Submitted, map[], A, 2, [true, false]);
    var tasks: map<nat, Task> := map[2 := Writing("a", [true, false], {})];
    ConcludeTwo(OrderSettled, OrderFailed, Submitted, tasks, A, 2);
    Then(cs, w, InBatch(OrderSettled, OrderFailed, Submitted, tasks, A), Finish(2));
    assert Without(tasks, 2) == map[];
  }
}
