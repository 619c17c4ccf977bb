/** Orders and batches in the database under any interleaving of batch creations and
    settlements. A creation or settlement is a task that takes one database or
    ledger action at a time; between two of its actions others may act. */
module BatchLifecycle {
  import opened Collections
  import opened Outcomes

  type OrderId = string
  type BatchId = string

  datatype OrderStatus = Pending | Batched | OrderSettled | OrderFailed
  datatype BatchStatus = Created | Submitted | BatchSettled | BatchFailed

  datatype OrderRow = OrderRow(encryptedData: string, status: OrderStatus)
  datatype BatchRow = BatchRow(orderIds: seq<OrderId>, status: BatchStatus)

  /** How far a task has come. The first three are stages of `createBatch`, the next three
      of `settleBatch`, and the last two what a failed `settleBatch` leaves behind. All
      updates of orders start at once: the first that is rejected makes `settleBatch`
      fail, and the others stay in flight (`Leftover`). An update that is rejected may
      still take effect: that of the batch to `settled` before the batch is set to
      `failed` (`Slipped`), or at any time after it (`Unsettled`). */
  datatype Task =
    | Selected(ids: seq<OrderId>, texts: seq<string>, batch: BatchId)
    | Sealed(ids: seq<OrderId>, batch: BatchId)
    | Recorded(ids: seq<OrderId>, batch: BatchId)
    | Claimed(batch: BatchId)
    | Writing(batch: BatchId, verdicts: seq<bool>, left: set<nat>)
    | Slipped(batch: BatchId, verdicts: seq<bool>, left: set<nat>)
    | Leftover(batch: BatchId, verdicts: seq<bool>, left: set<nat>)
    | Unsettled(batch: BatchId, verdicts: seq<bool>, left: set<nat>)
  {
    predicate Creates() {
      Selected? || Sealed? || Recorded?
    }

    predicate Settles() {
      Claimed? || Writing? || Slipped?
    }

    predicate Writes() {
      Writing? || Leftover?
    }

    /** It may still set the batch to `settled`. */
    predicate Concludes() {
      Writing? || Unsettled?
    }

    /** It has failed, and an update that it sent is in flight. */
    predicate Late() {
      Unsettled? || (Leftover? && left != {})
    }
  }

  /** The tables, the lists sealed on the ledger, the tasks in flight, and the lists
      that validators were asked to decrypt. */
  datatype World = World(orders: map<OrderId, OrderRow>, batches: map<BatchId, BatchRow>,
                         ledger: map<BatchId, seq<string>>, tasks: map<nat, Task>,
                         asked: set<(BatchId, seq<string>)>)

  /** `Finish` is the update of the batch to `settled`, `Fail` that to `failed`. If the
      first is rejected it may have taken effect all the same (`Slip`, before `Fail`), or
      take effect later (`Land`, after `Fail`). */
  datatype Event =
    | Submit(order: OrderId, text: string)
    | Select(task: nat, requested: seq<OrderId>, newBatch: BatchId)
    | Seal(task: nat)
    | Record(task: nat)
    | Mark(task: nat)
    | Claim(task: nat, batch: BatchId)
    | Ask(task: nat, rows: seq<OrderId>, verdicts: seq<bool>)
    | Write(task: nat, at: nat)
    | Finish(task: nat)
    | Slip(task: nat)
    | Fail(task: nat)
    | Land(task: nat)
    | Crash(task: nat)

  // ----- The actions -----

  /** The ids without repetitions, in the order of their first occurrence. */
  function Unique(ids: seq<OrderId>): (r: seq<OrderId>)
    ensures forall id :: id in r <==> id in ids
    ensures forall i, j :: 0 <= i < j < |r| ==> r[i] != r[j]
  {
    if ids == [] then []
    else
      var front := Unique(ids[..|ids| - 1]);
      var last := ids[|ids| - 1];
      assert forall id :: id in ids <==> id in ids[..|ids| - 1] || id == last;
      if last in front then front else front + [last]
  }

  /** Where an id occurs for the first time. */
  ghost function Firsts(ids: seq<OrderId>): set<nat> {
    set k: nat | k < |ids| && forall i :: 0 <= i < k ==> ids[i] != ids[k]
  }

  lemma {:induction false} UniqueExactly(ids: seq<OrderId>)
    ensures Picked(ids, Unique(ids), Firsts(ids))
  {
    if ids == [] {
      PickedNone<OrderId>(Firsts(ids));
    } else {
      var n := |ids| - 1;
      UniqueExactly(ids[..n]);
      assert ids[n] in Unique(ids[..n]) <==> ids[n] in ids[..n];
      hide Picked;
      PickedLast(ids, Unique(ids[..n]), Firsts(ids[..n]), Firsts(ids));
      assert Unique(ids[..n]) + [] == Unique(ids[..n]);
    }
  }

  predicate AllPending(orders: map<OrderId, OrderRow>, ids: seq<OrderId>) {
    forall k :: 0 <= k < |ids| ==> ids[k] in orders && orders[ids[k]].status == Pending
  }

  predicate AllKnown(orders: map<OrderId, OrderRow>, ids: seq<OrderId>) {
    forall k :: 0 <= k < |ids| ==> ids[k] in orders
  }

  function Texts(orders: map<OrderId, OrderRow>, ids: seq<OrderId>): (r: seq<string>)
    requires AllKnown(orders, ids)
    ensures |r| == |ids|
  {
    seq(|ids|, k requires 0 <= k < |ids| => orders[ids[k]].encryptedData)
  }

  /** The batch's ciphertexts as `settleBatch` rebuilds them: the listed orders that are
      among the rows which the database returned, in the order of the batch. */
  function Rebuilt(orders: map<OrderId, OrderRow>, ids: seq<OrderId>, rows: seq<OrderId>): seq<string>
    requires AllKnown(orders, ids)
  {
    if ids == [] then []
    else
      var n := |ids| - 1;
      Rebuilt(orders, ids[..n], rows) + if ids[n] in rows then [orders[ids[n]].encryptedData] else []
  }

  ghost function Returned(ids: seq<OrderId>, rows: seq<OrderId>): set<nat> {
    set k: nat | k < |ids| && ids[k] in rows
  }

  /** The ciphertexts of the orders among the rows, in the order of the batch. */
  lemma {:induction false} RebuiltExactly(orders: map<OrderId, OrderRow>, ids: seq<OrderId>, rows: seq<OrderId>)
    requires AllKnown(orders, ids)
    ensures Picked(Texts(orders, ids), Rebuilt(orders, ids, rows), Returned(ids, rows))
  {
    if ids == [] {
      PickedNone<string>(Returned(ids, rows));
    } else {
      var n := |ids| - 1;
      RebuiltExactly(orders, ids[..n], rows);
      assert Texts(orders, ids)[..n] == Texts(orders, ids[..n]);
      hide Picked;
      PickedLast(Texts(orders, ids), Rebuilt(orders, ids[..n], rows), Returned(ids[..n], rows), Returned(ids, rows));
    }
  }

  function WithStatus(orders: map<OrderId, OrderRow>, id: OrderId, status: OrderStatus): map<OrderId, OrderRow> {
    if id in orders then orders[id := orders[id].(status := status)] else orders
  }

  function Marked(orders: map<OrderId, OrderRow>, ids: seq<OrderId>): map<OrderId, OrderRow> {
    map id | id in orders :: if id in ids then orders[id].(status := Batched) else orders[id]
  }

  function Below(n: nat): (r: set<nat>)
    ensures forall k :: k in r <==> 0 <= k < n
  {
    if n == 0 then {} else Below(n - 1) + {n - 1}
  }

  /** A batch id that nothing knows yet. */
  predicate Fresh(w: World, batch: BatchId) {
    batch !in w.batches && batch !in w.ledger
    && forall t :: t in w.tasks && w.tasks[t].Creates() ==> w.tasks[t].batch != batch
  }

  /** What the environment does: tasks have different numbers, batch ids are fresh, rows
      are never deleted, the rows of a batch come in any order, and there is one verdict
      for each order. */
  predicate Enabled(w: World, e: Event) {
    match e
    case Submit(o, _) => o !in w.orders
    case Select(t, _, batch) => t !in w.tasks && Fresh(w, batch)
    case Seal(t) => t in w.tasks && w.tasks[t].Selected?
    case Record(t) => t in w.tasks && w.tasks[t].Sealed?
    case Mark(t) => t in w.tasks && w.tasks[t].Recorded?
    case Claim(t, _) => t !in w.tasks
    case Ask(t, rows, verdicts) =>
      && t in w.tasks && w.tasks[t].Claimed? && w.tasks[t].batch in w.batches
      && var ids := w.batches[w.tasks[t].batch].orderIds;
         AllKnown(w.orders, ids) && |verdicts| == |ids| && forall k :: 0 <= k < |ids| ==> ids[k] in rows
    case Write(t, at) => t in w.tasks && w.tasks[t].Writes() && at in w.tasks[t].left
    case Finish(t) => t in w.tasks && w.tasks[t].Writing? && w.tasks[t].left == {} && w.tasks[t].batch in w.batches
    case Slip(t) => t in w.tasks && w.tasks[t].Writing? && w.tasks[t].left == {} && w.tasks[t].batch in w.batches
    case Fail(t) => t in w.tasks && w.tasks[t].Settles() && w.tasks[t].batch in w.batches
    case Land(t) => t in w.tasks && w.tasks[t].Unsettled? && w.tasks[t].batch in w.batches
    case Crash(t) => t in w.tasks
  }

  function Without(tasks: map<nat, Task>, t: nat): map<nat, Task> {
    tasks - {t}
  }

  function WithBatch(w: World, batch: BatchId, status: BatchStatus): World
    requires batch in w.batches
  {
    w.(batches := w.batches[batch := w.batches[batch].(status := status)])
  }

  /** The updates in flight when a settlement that writes fails: those of orders, or if
      these are through that of the batch. */
  function Remains(task: Task): Task
    requires task.Writing?
  {
    if task.left == {} then Unsettled(task.batch, task.verdicts, {})
    else Leftover(task.batch, task.verdicts, task.left)
  }

  /** One of its updates of orders is through. */
  function AfterWrite(task: Task, at: nat): Task
    requires task.Writes()
  {
    match task
    case Writing(batch, verdicts, left) => Writing(batch, verdicts, left - {at})
    case Leftover(batch, verdicts, left) => Leftover(batch, verdicts, left - {at})
  }

  function Step(w: World, e: Event): World
    requires Enabled(w, e)
  {
    match e
    case Submit(o, text) => w.(orders := w.orders[o := OrderRow(text, Pending)])
    case Select(t, requested, batch) =>
      var ids := Unique(requested);
      if ids == [] || !AllPending(w.orders, ids) then w
      else w.(tasks := w.tasks[t := Selected(ids, Texts(w.orders, ids), batch)])
    case Seal(t) =>
      var s := w.tasks[t];
      w.(ledger := w.ledger[s.batch := s.texts], tasks := w.tasks[t := Sealed(s.ids, s.batch)])
    case Record(t) =>
      var s := w.tasks[t];
      w.(batches := w.batches[s.batch := BatchRow(s.ids, Created)], tasks := w.tasks[t := Recorded(s.ids, s.batch)])
    case Mark(t) => w.(orders := Marked(w.orders, w.tasks[t].ids), tasks := Without(w.tasks, t))
    case Claim(t, batch) =>
      if batch !in w.batches || !(w.batches[batch].status.Created? || w.batches[batch].status.BatchFailed?) then w
      else w.(batches := w.batches[batch := w.batches[batch].(status := Submitted)],
              tasks := w.tasks[t := Claimed(batch)])
    case Ask(t, rows, verdicts) =>
      var batch := w.tasks[t].batch;
      var ids := w.batches[batch].orderIds;
      w.(asked := w.asked + {(batch, Rebuilt(w.orders, ids, rows))},
         tasks := w.tasks[t := Writing(batch, verdicts, Below(|ids|))])
    case Write(t, at) =>
      var s := w.tasks[t];
      var ids := if s.batch in w.batches then w.batches[s.batch].orderIds else [];
      var status := if at < |s.verdicts| && s.verdicts[at] then OrderSettled else OrderFailed;
      w.(orders := if at < |ids| then WithStatus(w.orders, ids[at], status) else w.orders,
         tasks := w.tasks[t := AfterWrite(s, at)])
    case Finish(t) => WithBatch(w, w.tasks[t].batch, BatchSettled).(tasks := Without(w.tasks, t))
    case Slip(t) =>
      var s := w.tasks[t];
      WithBatch(w, s.batch, BatchSettled).(tasks := w.tasks[t := Slipped(s.batch, s.verdicts, s.left)])
    case Fail(t) =>
      var s := w.tasks[t];
      WithBatch(w, s.batch, BatchFailed).(tasks := if s.Writing? then w.tasks[t := Remains(s)] else Without(w.tasks, t))
    case Land(t) => WithBatch(w, w.tasks[t].batch, BatchSettled).(tasks := Without(w.tasks, t))
    case Crash(t) => w.(tasks := Without(w.tasks, t))
  }

  ghost predicate IsRun(ws: seq<World>, es: seq<Event>) {
    && |ws| == |es| + 1 && ws[0] == World(map[], map[], map[], map[], {})
    && forall k :: 0 <= k < |es| ==> Enabled(ws[k], es[k]) && ws[k + 1] == Step(ws[k], es[k])
  }

  // ----- What every interleaving keeps -----

  ghost predicate KnownWithTexts(w: World, ids: seq<OrderId>, texts: seq<string>) {
    AllKnown(w.orders, ids) && texts == Texts(w.orders, ids)
  }

  /** A task in flight: its batch is in the right state, and what it will seal or has
      sealed are the ciphertexts of its orders. */
  ghost predicate TaskOk(w: World, task: Task) {
    match task
    case Selected(ids, texts, batch) =>
      batch !in w.batches && batch !in w.ledger && KnownWithTexts(w, ids, texts)
    case Sealed(ids, batch) =>
      batch !in w.batches && batch in w.ledger && KnownWithTexts(w, ids, w.ledger[batch])
    case Recorded(ids, batch) =>
      batch in w.batches && w.batches[batch].orderIds == ids
    case Claimed(batch) => Held(w, batch)
    case Writing(batch, verdicts, left) => Held(w, batch) && SentOk(w, batch, verdicts, left)
    case Slipped(batch, verdicts, left) => Held(w, batch) && SentOk(w, batch, verdicts, left) && left == {}
    case Leftover(batch, verdicts, left) => batch in w.batches && SentOk(w, batch, verdicts, left)
    case Unsettled(batch, verdicts, left) => batch in w.batches && SentOk(w, batch, verdicts, left) && left == {}
  }

  /** Nobody else can claim the batch. */
  ghost predicate Held(w: World, batch: BatchId) {
    batch in w.batches && w.batches[batch].status in {Submitted, BatchSettled}
  }

  ghost predicate SentOk(w: World, batch: BatchId, verdicts: seq<bool>, left: set<nat>)
    requires batch in w.batches
  {
    && w.batches[batch].status != Created
    && |verdicts| == |w.batches[batch].orderIds| && forall k :: k in left ==> k < |verdicts|
  }

  ghost predicate TasksOk(w: World) {
    forall t :: t in w.tasks ==> TaskOk(w, w.tasks[t])
  }

  /** No two creations work on one batch, and no two settlements. */
  ghost predicate OneTaskPerBatch(w: World) {
    forall t, u :: t in w.tasks && u in w.tasks && t != u && w.tasks[t].batch == w.tasks[u].batch
                   ==> Compatible(w.tasks[t], w.tasks[u])
  }

  predicate Compatible(task: Task, other: Task) {
    !(task.Creates() && other.Creates()) && !(task.Settles() && other.Settles())
  }

  ghost predicate BatchOk(w: World, batch: BatchId)
    requires batch in w.batches
  {
    batch in w.ledger && KnownWithTexts(w, w.batches[batch].orderIds, w.ledger[batch])
  }

  ghost predicate BatchesOk(w: World) {
    forall b :: b in w.batches ==> BatchOk(w, b)
  }

  ghost predicate AskedOk(w: World) {
    forall a :: a in w.asked ==> a.0 in w.ledger && a.1 == w.ledger[a.0]
  }

  ghost predicate Inv(w: World) {
    TasksOk(w) && OneTaskPerBatch(w) && BatchesOk(w) && AskedOk(w)
  }

  /** Orders keep their ciphertexts, ledger entries and batch contents stay. */
  ghost predicate Grows(w: World, w': World) {
    && (forall id :: id in w.orders ==> id in w'.orders && w'.orders[id].encryptedData == w.orders[id].encryptedData)
    && (forall b :: b in w.batches ==>
          && b in w'.batches && w'.batches[b].orderIds == w.batches[b].orderIds
          && (w.batches[b].status != Created ==> w'.batches[b].status != Created))
  }

  lemma StepGrows(w: World, e: Event)
    requires Inv(w) && Enabled(w, e)
    ensures Grows(w, Step(w, e))
  {
    hide Rebuilt, Unique, OneTaskPerBatch, AskedOk, BatchesOk;
    if e.Record? {
      assert TaskOk(w, w.tasks[e.task]);
    }
  }

  lemma TextsKept(w: World, w': World, ids: seq<OrderId>, texts: seq<string>)
    requires Grows(w, w') && KnownWithTexts(w, ids, texts)
    ensures KnownWithTexts(w', ids, texts)
  {
    assert Texts(w'.orders, ids) == Texts(w.orders, ids);
  }

  /** Whatever order the database returns the rows in, the list is that of the batch. */
  lemma {:induction false} RebuiltIsTexts(orders: map<OrderId, OrderRow>, ids: seq<OrderId>, rows: seq<OrderId>)
    requires AllKnown(orders, ids) && forall id :: id in ids ==> id in rows
    ensures Rebuilt(orders, ids, rows) == Texts(orders, ids)
  {
    if ids != [] {
      var n := |ids| - 1;
      RebuiltIsTexts(orders, ids[..n], rows);
      assert Texts(orders, ids) == Texts(orders, ids[..n]) + [orders[ids[n]].encryptedData];
    }
  }

  /** The parts of the world that a task's state speaks about have not changed. */
  ghost predicate Undisturbed(w: World, w': World, task: Task) {
    var b := task.batch;
    && ((task.Selected? || task.Sealed?) ==>
          && (b in w'.batches <==> b in w.batches) && (b in w'.ledger <==> b in w.ledger)
          && (b in w.ledger ==> w'.ledger[b] == w.ledger[b]))
    && (task.Settles() && b in w.batches ==>
          b in w'.batches && w'.batches[b].status in {w.batches[b].status, BatchSettled})
  }

  lemma TaskKept(w: World, w': World, task: Task)
    requires TaskOk(w, task) && Grows(w, w') && Undisturbed(w, w', task)
    ensures TaskOk(w', task)
  {
    hide KnownWithTexts, Grows;
    match task
    case Selected(ids, texts, _) => TextsKept(w, w', ids, texts);
    case Sealed(ids, batch) => TextsKept(w, w', ids, w.ledger[batch]);
    case Recorded(_, batch) => BatchGrows(w, w', batch);
    case Claimed(batch) => BatchGrows(w, w', batch);
    case Writing(batch, _, _) => BatchGrows(w, w', batch);
    case Slipped(batch, _, _) => BatchGrows(w, w', batch);
    case Leftover(batch, _, _) => BatchGrows(w, w', batch);
    case Unsettled(batch, _, _) => BatchGrows(w, w', batch);
  }

  lemma BatchGrows(w: World, w': World, batch: BatchId)
    requires Grows(w, w') && batch in w.batches
    ensures batch in w'.batches && w'.batches[batch].orderIds == w.batches[batch].orderIds
    ensures w.batches[batch].status != Created ==> w'.batches[batch].status != Created
  {
  }

  lemma BatchKept(w: World, w': World, batch: BatchId)
    requires batch in w.batches && BatchOk(w, batch) && Grows(w, w')
    requires batch in w.ledger ==> batch in w'.ledger && w'.ledger[batch] == w.ledger[batch]
    ensures batch in w'.batches && BatchOk(w', batch)
  {
    BatchGrows(w, w', batch);
    TextsKept(w, w', w.batches[batch].orderIds, w.ledger[batch]);
  }

  /** All tasks but t are undisturbed, t itself is fine, and no ledger entry changed. */
  lemma OneTaskMoved(w: World, w': World, t: nat)
    requires Inv(w) && Grows(w, w')
    requires forall u :: u in w'.tasks && u != t ==>
      u in w.tasks && w'.tasks[u] == w.tasks[u] && Undisturbed(w, w', w.tasks[u])
    requires t in w'.tasks ==> TaskOk(w', w'.tasks[t])
    requires forall b :: b in w.ledger ==> b in w'.ledger && w'.ledger[b] == w.ledger[b]
    requires forall b :: b in w'.batches && b !in w.batches ==> BatchOk(w', b)
    ensures TasksOk(w') && BatchesOk(w')
  {
    hide Grows, BatchOk, TaskOk, OneTaskPerBatch, Undisturbed;
    forall u | u in w'.tasks ensures TaskOk(w', w'.tasks[u]) {
      if u != t {
        TaskKept(w, w', w.tasks[u]);
      }
    }
    forall b | b in w'.batches ensures BatchOk(w', b) {
      if b in w.batches {
        BatchKept(w, w', b);
      }
    }
  }

  lemma OneStays(w: World, w': World)
    requires OneTaskPerBatch(w)
    requires forall u :: u in w'.tasks ==>
      && u in w.tasks && w'.tasks[u].batch == w.tasks[u].batch
      && w'.tasks[u].Creates() == w.tasks[u].Creates() && (w'.tasks[u].Settles() ==> w.tasks[u].Settles())
    ensures OneTaskPerBatch(w')
  {
  }

  lemma OneMore(w: World, w': World, t: nat)
    requires OneTaskPerBatch(w) && t in w'.tasks
    requires forall u :: u in w'.tasks && u != t ==> u in w.tasks && w'.tasks[u] == w.tasks[u]
    requires forall u :: u in w.tasks && u != t && w.tasks[u].batch == w'.tasks[t].batch
                         ==> Compatible(w.tasks[u], w'.tasks[t])
    ensures OneTaskPerBatch(w')
  {
  }

  lemma AskedKept(w: World, w': World)
    requires AskedOk(w) && w'.asked == w.asked
    requires forall b :: b in w.ledger ==> b in w'.ledger && w'.ledger[b] == w.ledger[b]
    ensures AskedOk(w')
  {
  }

  // The events, one by one.

  lemma CreateStep(w: World, e: Event)
    requires Inv(w) && Enabled(w, e) && (e.Select? || e.Seal? || e.Record?)
    ensures Inv(Step(w, e))
  {
    var w' := Step(w, e);
    if w' != w {
      StepGrows(w, e);
      NewTask(w, e);
      OthersUndisturbed(w, e);
      hide *;
      OneTaskMoved(w, w', e.task);
      AskedKept(w, w');
    }
  }

  lemma OthersUndisturbed(w: World, e: Event)
    requires Inv(w) && Enabled(w, e) && (e.Select? || e.Seal? || e.Record?) && Step(w, e) != w
    ensures var w' := Step(w, e);
            && OneTaskPerBatch(w') && w'.asked == w.asked
            && forall u :: u in w'.tasks && u != e.task ==>
                 u in w.tasks && w'.tasks[u] == w.tasks[u] && Undisturbed(w, w', w.tasks[u])
  {
    hide Unique, KnownWithTexts, Fresh;
    var w' := Step(w, e);
    StillOne(w, e);
    forall u | u in w'.tasks && u != e.task ensures Undisturbed(w, w', w.tasks[u]) {
      assert TaskOk(w, w.tasks[u]);
    }
  }

  lemma StillOne(w: World, e: Event)
    requires OneTaskPerBatch(w) && Enabled(w, e) && (e.Select? || e.Seal? || e.Record?) && Step(w, e) != w
    ensures OneTaskPerBatch(Step(w, e))
  {
    hide Unique, AllPending;
    if e.Select? {
      OneMore(w, Step(w, e), e.task);
    } else {
      OneStays(w, Step(w, e));
    }
  }

  lemma NewTask(w: World, e: Event)
    requires Inv(w) && Enabled(w, e) && (e.Select? || e.Seal? || e.Record?) && Step(w, e) != w
    ensures var w' := Step(w, e);
            && e.task in w'.tasks && TaskOk(w', w'.tasks[e.task])
            && (forall b :: b in w.ledger ==> b in w'.ledger && w'.ledger[b] == w.ledger[b])
            && (forall b :: b in w'.batches && b !in w.batches ==> BatchOk(w', b))
  {
    hide Unique, OneTaskPerBatch;
    if e.task in w.tasks {
      assert TaskOk(w, w.tasks[e.task]);
    }
  }

  lemma ClaimStep(w: World, e: Event)
    requires Inv(w) && Enabled(w, e) && e.Claim?
    ensures Inv(Step(w, e))
  {
    StepGrows(w, e);
    hide Grows, KnownWithTexts;
    var w' := Step(w, e);
    if w' != w {
      forall u | u in w.tasks
        ensures Undisturbed(w, w', w.tasks[u]) && (w.tasks[u].batch == e.batch ==> !w.tasks[u].Settles())
      {
        assert TaskOk(w, w.tasks[u]);
      }
      OneMore(w, w', e.task);
      OneTaskMoved(w, w', e.task);
      AskedKept(w, w');
    }
  }

  lemma AskStep(w: World, e: Event)
    requires Inv(w) && Enabled(w, e) && e.Ask?
    ensures Inv(Step(w, e))
  {
    var w' := Step(w, e);
    StepGrows(w, e);
    AskedTask(w, e);
    AskedList(w, e);
    hide *;
    OneStays(w, w');
    OneTaskMoved(w, w', e.task);
  }

  lemma AskedTask(w: World, e: Event)
    requires Inv(w) && Enabled(w, e) && e.Ask?
    ensures var (w', t) := (Step(w, e), e.task);
            && t in w'.tasks && TaskOk(w', w'.tasks[t]) && w'.tasks[t].batch == w.tasks[t].batch
            && !w'.tasks[t].Creates() && !w.tasks[t].Creates() && w.tasks[t].Settles()
            && (forall u :: u in w'.tasks && u != t ==>
                  u in w.tasks && w'.tasks[u] == w.tasks[u] && Undisturbed(w, w', w.tasks[u]))
            && w'.ledger == w.ledger && w'.batches == w.batches
  {
    hide Rebuilt, KnownWithTexts, OneTaskPerBatch, AskedOk;
    assert TaskOk(w, w.tasks[e.task]);
  }

  lemma AskedList(w: World, e: Event)
    requires Inv(w) && Enabled(w, e) && e.Ask?
    ensures AskedOk(Step(w, e))
  {
    hide TasksOk, OneTaskPerBatch, Rebuilt;
    var b := w.tasks[e.task].batch;
    assert BatchOk(w, b);
    RebuiltIsTexts(w.orders, w.batches[b].orderIds, e.rows);
    assert Step(w, e).asked == w.asked + {(b, w.ledger[b])};
  }

  lemma SettleStep(w: World, e: Event)
    requires Inv(w) && Enabled(w, e) && (e.Write? || e.Finish? || e.Slip? || e.Fail? || e.Land?)
    ensures Inv(Step(w, e))
  {
    var w' := Step(w, e);
    StepGrows(w, e);
    OwnTaskMoved(w, e);
    OthersUnsettled(w, e);
    hide *;
    OneStays(w, w');
    OneTaskMoved(w, w', e.task);
    AskedKept(w, w');
  }

  lemma OwnTaskMoved(w: World, e: Event)
    requires Inv(w) && Enabled(w, e) && (e.Write? || e.Finish? || e.Slip? || e.Fail? || e.Land?)
    ensures var (w', t) := (Step(w, e), e.task);
            && w'.asked == w.asked && w'.ledger == w.ledger && w'.batches.Keys <= w.batches.Keys
            && (t in w'.tasks ==>
                  && TaskOk(w', w'.tasks[t]) && w'.tasks[t].batch == w.tasks[t].batch
                  && w'.tasks[t].Creates() == w.tasks[t].Creates() && (w'.tasks[t].Settles() ==> w.tasks[t].Settles()))
  {
    hide WithStatus, KnownWithTexts, OneTaskPerBatch, BatchesOk, AskedOk;
    assert TaskOk(w, w.tasks[e.task]);
  }

  lemma OthersUnsettled(w: World, e: Event)
    requires Inv(w) && Enabled(w, e) && (e.Write? || e.Finish? || e.Slip? || e.Fail? || e.Land?)
    ensures var w' := Step(w, e);
            forall u :: u in w'.tasks && u != e.task ==>
              u in w.tasks && w'.tasks[u] == w.tasks[u] && Undisturbed(w, w', w.tasks[u])
  {
    hide WithStatus, KnownWithTexts, BatchesOk, AskedOk, Unique, AllPending, Fresh, Marked, Rebuilt, Below, AllKnown;
    var w' := Step(w, e);
    assert TaskOk(w, w.tasks[e.task]);
    forall u | u in w'.tasks && u != e.task ensures Undisturbed(w, w', w.tasks[u]) {
      assert TaskOk(w, w.tasks[u]);
    }
  }

  lemma OtherStep(w: World, e: Event)
    requires Inv(w) && Enabled(w, e) && (e.Submit? || e.Mark? || e.Crash?)
    ensures Inv(Step(w, e))
  {
    var w' := Step(w, e);
    var t := if e.Submit? then 0 else e.task;
    StepGrows(w, e);
    OnlyOrders(w, e);
    hide Grows, Undisturbed, TaskOk, BatchOk, Step, Enabled;
    forall u | u in w'.tasks ensures TaskOk(w', w'.tasks[u]) {
      TaskKept(w, w', w.tasks[u]);
    }
    OneStays(w, w');
    hide OneTaskPerBatch;
    OneTaskMoved(w, w', t);
    AskedKept(w, w');
  }

  lemma OnlyOrders(w: World, e: Event)
    requires Enabled(w, e) && (e.Submit? || e.Mark? || e.Crash?)
    ensures var w' := Step(w, e);
            && w'.batches == w.batches && w'.ledger == w.ledger && w'.asked == w.asked
            && forall u :: u in w'.tasks ==>
                 u in w.tasks && w'.tasks[u] == w.tasks[u] && Undisturbed(w, w', w.tasks[u])
  {
  }

  lemma StepKeeps(w: World, e: Event)
    requires Inv(w) && Enabled(w, e)
    ensures Inv(Step(w, e))
  {
    hide *;
    match e
    case Submit(_, _) => OtherStep(w, e);
    case Select(_, _, _) => CreateStep(w, e);
    case Seal(_) => CreateStep(w, e);
    case Record(_) => CreateStep(w, e);
    case Mark(_) => OtherStep(w, e);
    case Claim(_, _) => ClaimStep(w, e);
    case Ask(_, _, _) => AskStep(w, e);
    case Write(_, _) => SettleStep(w, e);
    case Finish(_) => SettleStep(w, e);
    case Slip(_) => SettleStep(w, e);
    case Fail(_) => SettleStep(w, e);
    case Land(_) => SettleStep(w, e);
    case Crash(_) => OtherStep(w, e);
  }

  /** Over every interleaving: a batch in settlement has one holder, every batch is sealed
      with the ciphertexts of its orders in its order, and the lists shown to validators
      are the sealed ones. */
  lemma {:induction false} RunKeeps(ws: seq<World>, es: seq<Event>, k: nat)
    requires IsRun(ws, es) && k < |ws|
    ensures Inv(ws[k])
  {
    if k > 0 {
      RunKeeps(ws, es, k - 1);
      StepKeeps(ws[k - 1], es[k - 1]);
    }
  }

  /** At most one task at a time settles a batch. */
  lemma OneHolder(ws: seq<World>, es: seq<Event>, k: nat, t: nat, u: nat)
    requires IsRun(ws, es) && k < |ws| && t in ws[k].tasks && u in ws[k].tasks
    requires ws[k].tasks[t].Settles() && ws[k].tasks[u].Settles() && ws[k].tasks[t].batch == ws[k].tasks[u].batch
    ensures t == u
  {
    RunKeeps(ws, es, k);
    hide TasksOk, BatchesOk, AskedOk;
  }

  /** Every list shown to validators is the list sealed for that batch. */
  lemma AskedIsSealed(ws: seq<World>, es: seq<Event>, k: nat, batch: BatchId, list: seq<string>)
    requires IsRun(ws, es) && k < |ws| && (batch, list) in ws[k].asked
    ensures batch in ws[k].ledger && list == ws[k].ledger[batch]
  {
    RunKeeps(ws, es, k);
  }

  /** The event shows the list to the validators: that of the batch that the task claimed,
      the ciphertexts of its orders in their order. */
  ghost predicate Shows(w: World, e: Event, batch: BatchId, list: seq<string>) {
    && Enabled(w, e) && e.Ask? && w.tasks[e.task].batch == batch
    && list == Texts(w.orders, w.batches[batch].orderIds)
  }

  lemma ShownNow(w: World, e: Event, batch: BatchId, list: seq<string>)
    requires Enabled(w, e)
    ensures (batch, list) in Step(w, e).asked <==> (batch, list) in w.asked || Shows(w, e, batch, list)
  {
    hide Unique, Rebuilt, WithStatus;
    if e.Ask? {
      var b := w.tasks[e.task].batch;
      RebuiltIsTexts(w.orders, w.batches[b].orderIds, e.rows);
    }
  }

  /** The validators were asked exactly for what earlier events showed them. */
  lemma {:induction false} AskedExactly(ws: seq<World>, es: seq<Event>, k: nat, batch: BatchId, list: seq<string>)
    requires IsRun(ws, es) && k < |ws|
    ensures (batch, list) in ws[k].asked <==> exists i :: 0 <= i < k && Shows(ws[i], es[i], batch, list)
  {
    hide Enabled, Step, Shows;
    if k > 0 {
      AskedExactly(ws, es, k - 1, batch, list);
      ShownNow(ws[k - 1], es[k - 1], batch, list);
    }
  }

  /** A settled batch leaves that status exactly if a settlement that holds it fails. */
  lemma SettledStays(w: World, e: Event, batch: BatchId)
    requires Inv(w) && Enabled(w, e) && batch in w.batches && w.batches[batch].status == BatchSettled
    ensures batch in Step(w, e).batches
    ensures Step(w, e).batches[batch].status == BatchSettled <==> !(e.Fail? && w.tasks[e.task].batch == batch)
  {
    hide OneTaskPerBatch, BatchesOk, AskedOk, Unique, Rebuilt, KnownWithTexts;
    if !e.Submit? && e.task in w.tasks {
      assert TaskOk(w, w.tasks[e.task]);
    }
  }

  /** `settled` is final, unless a settlement fails whose update to `settled` took effect. */
  lemma {:induction false} SettledIsFinal(ws: seq<World>, es: seq<Event>, i: nat, j: nat, batch: BatchId)
    requires IsRun(ws, es) && i <= j < |ws| && batch in ws[i].batches && ws[i].batches[batch].status == BatchSettled
    requires forall k :: i <= k < j ==> KeepsSettled(ws[k], es[k])
    ensures batch in ws[j].batches && ws[j].batches[batch].status == BatchSettled
  {
    hide *;
    if i < j {
      SettledIsFinal(ws, es, i, j - 1, batch);
      RunKeeps(ws, es, j - 1);
      RunStep(ws, es, j - 1);
      SettledStays(ws[j - 1], es[j - 1], batch);
      if es[j - 1].Fail? {
        KeptFails(ws[j - 1], es[j - 1]);
      }
    }
  }

  /** No settlement sets a batch to `failed` that is settled. */
  predicate KeepsSettled(w: World, e: Event) {
    e.Fail? && e.task in w.tasks && w.tasks[e.task].batch in w.batches ==>
      w.batches[w.tasks[e.task].batch].status != BatchSettled
  }

  lemma KeptFails(w: World, e: Event)
    requires Enabled(w, e) && e.Fail? && KeepsSettled(w, e)
    ensures w.tasks[e.task].batch in w.batches && w.batches[w.tasks[e.task].batch].status != BatchSettled
  {
  }

  lemma RunStep(ws: seq<World>, es: seq<Event>, k: nat)
    requires IsRun(ws, es) && k + 1 < |ws|
    ensures k < |es| && Enabled(ws[k], es[k]) && ws[k + 1] == Step(ws[k], es[k])
  {
    hide Enabled, Step;
  }
}
