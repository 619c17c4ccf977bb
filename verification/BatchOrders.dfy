/** Which batch an order belongs to, and what becomes of it, as long as creations and
    settlements do not get in each other's way. */
module BatchOrders {
  import opened Outcomes
  import opened BatchLifecycle

  /** What the code does not enforce itself. No creation selects orders that another
      creation in flight has selected; no creation dies between storing the batch and
      marking its orders; no batch is claimed in that gap; no batch is claimed while an
      update of an attempt that failed is in flight; no batch that is settled is set to
      `failed`. */
  datatype Condition = NoOverlap | NoLostCreation | NoEarlyClaim | Drained | Kept

  predicate Meets(c: Condition, w: World, e: Event) {
    match c
    case NoOverlap => e.Select? ==>
      forall t :: t in w.tasks && w.tasks[t].Creates() ==> Disjoint(w.tasks[t].ids, Unique(e.requested))
    case NoLostCreation => e.Crash? && e.task in w.tasks ==> !w.tasks[e.task].Recorded?
    case NoEarlyClaim => e.Claim? ==>
      forall t :: t in w.tasks && w.tasks[t].Recorded? ==> w.tasks[t].batch != e.batch
    case Drained => e.Claim? ==>
      forall t :: t in w.tasks && w.tasks[t].Late() ==> w.tasks[t].batch != e.batch
    case Kept => KeepsSettled(w, e)
  }

  /** A run whose events meet the given conditions. */
  ghost predicate IsRunWith(cs: set<Condition>, ws: seq<World>, es: seq<Event>) {
    IsRun(ws, es) && forall k, c :: 0 <= k < |es| && c in cs ==> Meets(c, ws[k], es[k])
  }

  const ALL: set<Condition> := {NoOverlap, NoLostCreation, NoEarlyClaim, Drained, Kept}

  predicate Disjoint(a: seq<OrderId>, b: seq<OrderId>) {
    forall k :: 0 <= k < |a| ==> a[k] !in b
  }

  predicate Distinct(a: seq<OrderId>) {
    forall i, j :: 0 <= i < j < |a| ==> a[i] != a[j]
  }

  function StatusOf(verdict: bool): OrderStatus {
    if verdict then OrderSettled else OrderFailed
  }

  // ----- The invariant -----

  /** The one batch that each order was last selected for. */
  type Owners = map<OrderId, BatchId>

  ghost predicate Owned(owner: Owners, ids: seq<OrderId>, batch: BatchId) {
    Distinct(ids) && forall k :: 0 <= k < |ids| ==> ids[k] in owner && owner[ids[k]] == batch
  }

  /** Every creation in flight and every batch owns its orders. */
  ghost predicate OwnersOk(w: World, owner: Owners) {
    && (forall t :: t in w.tasks && w.tasks[t].Creates() ==> Owned(owner, w.tasks[t].ids, w.tasks[t].batch))
    && (forall b :: b in w.batches ==> Owned(owner, w.batches[b].orderIds, b))
  }

  ghost predicate InGap(w: World, batch: BatchId) {
    exists t :: t in w.tasks && w.tasks[t].Recorded? && w.tasks[t].batch == batch
  }

  ghost predicate NonePending(w: World, ids: seq<OrderId>) {
    forall k :: 0 <= k < |ids| ==> ids[k] in w.orders && w.orders[ids[k]].status != Pending
  }

  /** Once its orders are marked, none of them is pending again. */
  ghost predicate GapsOk(w: World) {
    forall b :: b in w.batches && !InGap(w, b) ==> NonePending(w, w.batches[b].orderIds)
  }

  /** Between storing a batch and marking its orders it is not claimed. */
  ghost predicate GapsShut(w: World) {
    forall b :: b in w.batches && InGap(w, b) ==> w.batches[b].status == Created
  }

  /** Every order belongs to the one batch that it was last selected for. */
  ghost predicate Sole(w: World, owner: Owners) {
    OwnersOk(w, owner) && GapsOk(w)
  }

  ghost predicate HasStatus(w: World, id: OrderId, status: OrderStatus) {
    id in w.orders && w.orders[id].status == status
  }

  ghost predicate Final(w: World, id: OrderId) {
    HasStatus(w, id, OrderSettled) || HasStatus(w, id, OrderFailed)
  }

  /** The orders that a settlement has written so far are settled or failed. */
  ghost predicate TaskFinal(w: World, ids: seq<OrderId>, left: set<nat>) {
    forall k :: 0 <= k < |ids| && k !in left ==> Final(w, ids[k])
  }

  ghost predicate FinalWritesOk(w: World) {
    forall t :: t in w.tasks && w.tasks[t].Concludes() && w.tasks[t].batch in w.batches ==>
      TaskFinal(w, w.batches[w.tasks[t].batch].orderIds, w.tasks[t].left)
  }

  ghost predicate SettledOk(w: World) {
    forall b :: b in w.batches && w.batches[b].status == BatchSettled ==> TaskFinal(w, w.batches[b].orderIds, {})
  }

  ghost predicate Own(w: World, owner: Owners) {
    Sole(w, owner) && GapsShut(w) && FinalWritesOk(w) && SettledOk(w)
  }

  /** What a settlement has written so far stands as written. */
  ghost predicate TaskWrites(w: World, ids: seq<OrderId>, verdicts: seq<bool>, left: set<nat>) {
    |verdicts| == |ids| && forall k :: 0 <= k < |ids| && k !in left ==> HasStatus(w, ids[k], StatusOf(verdicts[k]))
  }

  ghost predicate WritesOk(w: World) {
    forall t :: t in w.tasks && w.tasks[t].Concludes() && w.tasks[t].batch in w.batches ==>
      TaskWrites(w, w.batches[w.tasks[t].batch].orderIds, w.tasks[t].verdicts, w.tasks[t].left)
  }

  ghost predicate HoldersOk(w: World) {
    forall t :: t in w.tasks && (w.tasks[t].Claimed? || w.tasks[t].Writing?) && w.tasks[t].batch in w.batches ==>
      w.batches[w.tasks[t].batch].status == Submitted
  }

  /** Updates of a failed attempt are in flight only while its batch is failed. */
  ghost predicate LateOk(w: World) {
    forall t :: t in w.tasks && w.tasks[t].Late() && w.tasks[t].batch in w.batches ==>
      w.batches[w.tasks[t].batch].status == BatchFailed
  }

  ghost predicate OneLate(w: World) {
    forall t, u :: t in w.tasks && u in w.tasks && t != u && w.tasks[t].Late() && w.tasks[u].Late()
                   ==> w.tasks[t].batch != w.tasks[u].batch
  }

  /** What holds in addition if no batch is claimed before its late updates are through. */
  ghost predicate Exact(w: World) {
    WritesOk(w) && HoldersOk(w) && LateOk(w) && OneLate(w)
  }

  function NextOwners(w: World, owner: Owners, e: Event): Owners
    requires Enabled(w, e)
  {
    if e.Select? && Step(w, e) != w then owner + map id | id in Unique(e.requested) :: e.newBatch else owner
  }

  lemma OwnedByOne(owner: Owners, ids: seq<OrderId>, batch: BatchId, ids': seq<OrderId>, batch': BatchId)
    requires Owned(owner, ids, batch) && Owned(owner, ids', batch') && batch != batch'
    ensures Disjoint(ids, ids')
  {
  }

  // ----- Owners -----

  lemma SelectOwners(w: World, owner: Owners, e: Event)
    requires Inv(w) && Sole(w, owner) && Enabled(w, e) && Meets(NoOverlap, w, e) && e.Select?
    ensures OwnersOk(Step(w, e), NextOwners(w, owner, e))
  {
    var (w', owner', ids) := (Step(w, e), NextOwners(w, owner, e), Unique(e.requested));
    if w' != w {
      SelectFacts(w, owner, e);
      hide Step, NextOwners, Unique, Inv, AllPending;
      forall b | b in w.batches ensures Owned(owner', w.batches[b].orderIds, b) {
        PendingNotInBatch(w, ids, b);
        OwnedStays(owner, owner', w.batches[b].orderIds, b, ids);
      }
      forall t | t in w.tasks && w.tasks[t].Creates() ensures Owned(owner', w.tasks[t].ids, w.tasks[t].batch) {
        DisjointSymmetric(w.tasks[t].ids, ids);
        OwnedStays(owner, owner', w.tasks[t].ids, w.tasks[t].batch, ids);
      }
    }
  }

  lemma SelectFacts(w: World, owner: Owners, e: Event)
    requires Enabled(w, e) && e.Select? && Step(w, e) != w
    ensures var (w', owner', ids) := (Step(w, e), NextOwners(w, owner, e), Unique(e.requested));
            && AllPending(w.orders, ids) && w'.batches == w.batches
            && w'.tasks == w.tasks[e.task := Selected(ids, Texts(w.orders, ids), e.newBatch)]
            && Owned(owner', ids, e.newBatch)
            && forall id :: id in owner && id !in ids ==> id in owner' && owner'[id] == owner[id]
  {
  }

  lemma DisjointSymmetric(a: seq<OrderId>, b: seq<OrderId>)
    requires Disjoint(a, b)
    ensures Disjoint(b, a)
  {
  }

  lemma OwnedStays(owner: Owners, owner': Owners, ids: seq<OrderId>, batch: BatchId, changed: seq<OrderId>)
    requires Owned(owner, ids, batch) && Disjoint(changed, ids)
    requires forall id :: id in owner && id !in changed ==> id in owner' && owner'[id] == owner[id]
    ensures Owned(owner', ids, batch)
  {
  }

  /** Pending orders that no creation in flight has selected are in no batch. */
  lemma PendingNotInBatch(w: World, ids: seq<OrderId>, batch: BatchId)
    requires Inv(w) && GapsOk(w) && batch in w.batches && AllPending(w.orders, ids)
    requires forall t :: t in w.tasks && w.tasks[t].Creates() ==> Disjoint(w.tasks[t].ids, ids)
    ensures Disjoint(ids, w.batches[batch].orderIds)
  {
    if InGap(w, batch) {
      var t :| t in w.tasks && w.tasks[t].Recorded? && w.tasks[t].batch == batch;
      assert TaskOk(w, w.tasks[t]);
      DisjointSymmetric(w.tasks[t].ids, ids);
    }
  }

  lemma OtherOwners(w: World, owner: Owners, e: Event)
    requires Inv(w) && OwnersOk(w, owner) && Enabled(w, e) && !e.Select?
    ensures OwnersOk(Step(w, e), owner)
  {
    hide Owned, Rebuilt, Marked, WithStatus, OneTaskPerBatch, AskedOk, BatchesOk;
  }

  // ----- Gaps -----

  lemma NonePendingKept(w: World, e: Event, ids: seq<OrderId>)
    requires Enabled(w, e) && NonePending(w, ids)
    ensures NonePending(Step(w, e), ids)
  {
    hide Rebuilt, Unique, AllPending, Fresh;
  }

  lemma MarkedNotPending(w: World, e: Event)
    requires Inv(w) && Enabled(w, e) && e.Mark?
    ensures NonePending(Step(w, e), w.batches[w.tasks[e.task].batch].orderIds)
  {
    assert TaskOk(w, w.tasks[e.task]);
    assert BatchOk(w, w.tasks[e.task].batch);
  }

  /** The gap of a batch opens with `Record` and closes with `Mark`. */
  lemma GapAfter(w: World, e: Event, batch: BatchId)
    requires Inv(w) && Enabled(w, e) && Meets(NoLostCreation, w, e)
    ensures InGap(Step(w, e), batch) <==>
              (InGap(w, batch) && !(e.Mark? && w.tasks[e.task].batch == batch))
              || (e.Record? && w.tasks[e.task].batch == batch)
  {
    var w' := Step(w, e);
    GapTasks(w, e);
    hide Step, Enabled, Meets, TasksOk, AskedOk, BatchesOk;
    if InGap(w, batch) {
      var t :| t in w.tasks && w.tasks[t].Recorded? && w.tasks[t].batch == batch;
      assert !(e.Mark? && e.task == t) ==> t in w'.tasks && w'.tasks[t] == w.tasks[t];
    }
    if InGap(w', batch) {
      var u :| u in w'.tasks && w'.tasks[u].Recorded? && w'.tasks[u].batch == batch;
      assert u in w.tasks && w.tasks[u].batch == batch;
    }
    if e.Record? {
      assert w'.tasks[e.task].Recorded?;
    }
  }

  lemma GapTasks(w: World, e: Event)
    requires Enabled(w, e) && Meets(NoLostCreation, w, e)
    ensures var w' := Step(w, e);
            && (e.Mark? ==> e.task in w.tasks && w.tasks[e.task].Recorded?)
            && (e.Record? ==> e.task in w.tasks && w.tasks[e.task].Creates() && e.task in w'.tasks
                              && w'.tasks[e.task].Recorded? && w'.tasks[e.task].batch == w.tasks[e.task].batch)
            && (forall t :: t in w.tasks && w.tasks[t].Recorded? ==>
                  if e.Mark? && e.task == t then t !in w'.tasks else t in w'.tasks && w'.tasks[t] == w.tasks[t])
            && (forall t :: t in w'.tasks && w'.tasks[t].Recorded? && !(e.Record? && e.task == t) ==>
                  t in w.tasks && w'.tasks[t] == w.tasks[t])
  {
    hide Rebuilt, Marked, WithStatus, Unique, AllPending, Fresh, Below;
  }

  lemma GapsKept(w: World, e: Event)
    requires Inv(w) && GapsOk(w) && Enabled(w, e) && Meets(NoLostCreation, w, e)
    ensures GapsOk(Step(w, e))
  {
    var w' := Step(w, e);
    StepGrows(w, e);
    forall b | b in w'.batches && !InGap(w', b) ensures NonePending(w', w'.batches[b].orderIds) {
      GapAfter(w, e, b);
      if b in w.batches {
        BatchGrows(w, w', b);
        hide Step, Inv, Grows, NonePending, InGap;
        if InGap(w, b) {
          MarkedNotPending(w, e);
        } else {
          NonePendingKept(w, e, w.batches[b].orderIds);
        }
      } else {
        NewBatch(w, e, b);
      }
    }
  }

  lemma ShutKept(w: World, e: Event)
    requires Inv(w) && GapsShut(w) && Enabled(w, e) && Meets(NoLostCreation, w, e) && Meets(NoEarlyClaim, w, e)
    ensures GapsShut(Step(w, e))
  {
    var w' := Step(w, e);
    forall b | b in w'.batches && InGap(w', b) ensures w'.batches[b].status == Created {
      GapAfter(w, e, b);
      if b in w.batches {
        StatusInGap(w, e, b);
      } else {
        NewBatch(w, e, b);
      }
    }
  }

  lemma NewBatch(w: World, e: Event, batch: BatchId)
    requires Enabled(w, e) && batch in Step(w, e).batches && batch !in w.batches
    ensures e.Record? && w.tasks[e.task].batch == batch && Step(w, e).batches[batch].status == Created
  {
    hide Rebuilt, Marked, WithStatus, Unique, AllPending, Fresh;
  }

  lemma StatusInGap(w: World, e: Event, batch: BatchId)
    requires Inv(w) && GapsShut(w) && Enabled(w, e) && Meets(NoEarlyClaim, w, e) && batch in w.batches
    ensures !(e.Record? && w.tasks[e.task].batch == batch)
    ensures InGap(w, batch) ==> batch in Step(w, e).batches && Step(w, e).batches[batch].status == Created
  {
    hide Rebuilt, Marked, WithStatus, OneTaskPerBatch, AskedOk, BatchesOk, Unique, AllPending, Fresh, NonePending;
    if !e.Submit? && e.task in w.tasks {
      assert TaskOk(w, w.tasks[e.task]);
    }
  }

  // ----- Writes -----

  /** Apart from its own settlements and its own marking, nothing touches the orders of a batch. */
  lemma StatusKept(w: World, owner: Owners, e: Event, batch: BatchId, k: nat, status: OrderStatus)
    requires Inv(w) && OwnersOk(w, owner) && Enabled(w, e) && batch in w.batches && k < |w.batches[batch].orderIds|
    requires HasStatus(w, w.batches[batch].orderIds[k], status)
    requires e.Mark? ==> w.tasks[e.task].batch != batch
    requires e.Write? ==> w.tasks[e.task].batch != batch || e.at != k
    ensures HasStatus(Step(w, e), w.batches[batch].orderIds[k], status)
  {
    hide Rebuilt, Unique, AllPending, Fresh, OneTaskPerBatch, AskedOk, KnownWithTexts;
    var ids := w.batches[batch].orderIds;
    assert Owned(owner, ids, batch);
    if e.Mark? {
      var t := w.tasks[e.task];
      assert Owned(owner, t.ids, t.batch);
      OwnedByOne(owner, ids, batch, t.ids, t.batch);
    } else if e.Write? {
      var t := w.tasks[e.task];
      assert TaskOk(w, t);
      if t.batch != batch {
        assert Owned(owner, w.batches[t.batch].orderIds, t.batch);
        OwnedByOne(owner, ids, batch, w.batches[t.batch].orderIds, t.batch);
      }
    }
  }

  lemma WriteWrites(w: World, e: Event)
    requires Inv(w) && Enabled(w, e) && e.Write?
    ensures var t := w.tasks[e.task];
            && t.batch in w.batches && e.at < |w.batches[t.batch].orderIds| == |t.verdicts|
            && HasStatus(Step(w, e), w.batches[t.batch].orderIds[e.at], StatusOf(t.verdicts[e.at]))
  {
    hide OneTaskPerBatch, AskedOk;
    assert TaskOk(w, w.tasks[e.task]);
    assert BatchOk(w, w.tasks[e.task].batch);
  }

  /** A batch in settlement or settled is not in its gap, so it is not marked any more. */
  lemma NotMarked(w: World, e: Event, batch: BatchId)
    requires GapsShut(w) && Enabled(w, e) && e.Mark? && batch in w.batches && w.batches[batch].status != Created
    ensures w.tasks[e.task].batch != batch
  {
    MarkInGap(w, e);
  }

  lemma MarkInGap(w: World, e: Event)
    requires Enabled(w, e) && e.Mark?
    ensures InGap(w, w.tasks[e.task].batch)
  {
  }

  /** A settled or failed order of a claimed batch stays settled or failed, though a late
      update may exchange the two. */
  lemma StaysFinal(w: World, owner: Owners, e: Event, batch: BatchId, k: nat)
    requires Inv(w) && OwnersOk(w, owner) && GapsShut(w) && Enabled(w, e)
    requires batch in w.batches && w.batches[batch].status != Created && k < |w.batches[batch].orderIds|
    requires Final(w, w.batches[batch].orderIds[k])
    ensures Final(Step(w, e), w.batches[batch].orderIds[k])
  {
    if e.Mark? {
      NotMarked(w, e, batch);
    }
    if e.Write? {
      WriteWrites(w, e);
    }
    hide Step, Inv, Enabled, OwnersOk, GapsShut;
    if !(e.Write? && w.tasks[e.task].batch == batch && e.at == k) {
      var status := if HasStatus(w, w.batches[batch].orderIds[k], OrderSettled) then OrderSettled else OrderFailed;
      StatusKept(w, owner, e, batch, k, status);
    }
  }

  /** A task that may still settle its batch keeps its verdicts. */
  lemma ConcludingTask(w: World, e: Event, t: nat)
    requires Inv(w) && Enabled(w, e) && t in w.tasks && w.tasks[t].Concludes()
    requires t in Step(w, e).tasks && Step(w, e).tasks[t].Concludes()
    ensures var (task, task') := (w.tasks[t], Step(w, e).tasks[t]);
            && task'.batch == task.batch && task'.verdicts == task.verdicts
            && task'.left == if e.Write? && e.task == t then task.left - {e.at} else task.left
  {
    hide Rebuilt, Marked, WithStatus, Unique, AllPending, Fresh, Below, OneTaskPerBatch, BatchesOk, AskedOk;
    assert TaskOk(w, w.tasks[t]);
  }

  lemma ConcludingOk(w: World, t: nat)
    requires TasksOk(w) && t in w.tasks && w.tasks[t].Concludes()
    ensures var task := w.tasks[t];
            && task.batch in w.batches && w.batches[task.batch].status != Created
            && |task.verdicts| == |w.batches[task.batch].orderIds|
  {
    assert TaskOk(w, w.tasks[t]);
  }

  lemma TaskFinalKept(w: World, owner: Owners, e: Event, t: nat)
    requires Inv(w) && Own(w, owner) && Enabled(w, e) && t in w.tasks && w.tasks[t].Concludes()
    requires t in Step(w, e).tasks && Step(w, e).tasks[t].Concludes()
    ensures w.tasks[t].batch in w.batches
    ensures TaskFinal(Step(w, e), w.batches[w.tasks[t].batch].orderIds, Step(w, e).tasks[t].left)
  {
    ConcludingOk(w, t);
    ConcludingTask(w, e, t);
    var (w', b) := (Step(w, e), w.tasks[t].batch);
    if e.Write? {
      WriteWrites(w, e);
    }
    hide Step, Inv, Enabled;
    forall k | 0 <= k < |w.batches[b].orderIds| && k !in w'.tasks[t].left ensures Final(w', w.batches[b].orderIds[k]) {
      if !(e.Write? && e.task == t && e.at == k) {
        assert TaskFinal(w, w.batches[b].orderIds, w.tasks[t].left);
        StaysFinal(w, owner, e, b, k);
      }
    }
  }

  lemma JustAsked(w: World, e: Event, t: nat)
    requires Enabled(w, e) && t in Step(w, e).tasks && Step(w, e).tasks[t].Concludes()
    requires t !in w.tasks || !w.tasks[t].Concludes()
    ensures var task := Step(w, e).tasks[t];
            && task.batch in w.batches && |task.verdicts| == |w.batches[task.batch].orderIds|
            && forall k :: 0 <= k < |task.verdicts| ==> k in task.left
  {
    hide Rebuilt, Marked, WithStatus, Unique, AllPending, Fresh;
  }

  lemma FinalWritesKept(w: World, owner: Owners, e: Event)
    requires Inv(w) && Own(w, owner) && Enabled(w, e)
    ensures FinalWritesOk(Step(w, e))
  {
    StepGrows(w, e);
    var w' := Step(w, e);
    forall t | t in w'.tasks && w'.tasks[t].Concludes() && w'.tasks[t].batch in w'.batches
      ensures TaskFinal(w', w'.batches[w'.tasks[t].batch].orderIds, w'.tasks[t].left)
    {
      if t in w.tasks && w.tasks[t].Concludes() {
        TaskFinalKept(w, owner, e, t);
        ConcludingTask(w, e, t);
        BatchGrows(w, w', w.tasks[t].batch);
      } else {
        JustAsked(w, e, t);
        BatchGrows(w, w', w'.tasks[t].batch);
      }
    }
  }

  // ----- Settled batches -----

  /** A batch becomes settled only by a task that has no update of an order left. */
  lemma JustSettled(w: World, e: Event, batch: BatchId)
    requires Inv(w) && Enabled(w, e)
    requires batch in Step(w, e).batches && Step(w, e).batches[batch].status == BatchSettled
    ensures batch in w.batches
    ensures w.batches[batch].status == BatchSettled
            || (&& (e.Finish? || e.Slip? || e.Land?) && w.tasks[e.task].batch == batch
                && w.tasks[e.task].Concludes() && w.tasks[e.task].left == {})
  {
    hide Rebuilt, Marked, WithStatus, Unique, AllPending, Fresh, Below, OneTaskPerBatch, BatchesOk, AskedOk;
    if e.Land? {
      assert TaskOk(w, w.tasks[e.task]);
    }
  }

  lemma SettledKept(w: World, owner: Owners, e: Event)
    requires Inv(w) && Own(w, owner) && Enabled(w, e)
    ensures SettledOk(Step(w, e))
  {
    StepGrows(w, e);
    var w' := Step(w, e);
    forall b | b in w'.batches && w'.batches[b].status == BatchSettled
      ensures TaskFinal(w', w'.batches[b].orderIds, {})
    {
      JustSettled(w, e, b);
      BatchGrows(w, w', b);
      if w.batches[b].status != BatchSettled {
        ConcludingOk(w, e.task);
      }
      var ids := w.batches[b].orderIds;
      assert TaskFinal(w, ids, {});
      hide Step, Inv, Enabled, Own, Grows;
      forall k | 0 <= k < |ids| ensures Final(w', ids[k]) {
        StaysFinal(w, owner, e, b, k);
      }
    }
  }

  // ----- Exact outcomes -----

  /** While a task may still settle its batch, nothing else writes to the orders of the batch. */
  lemma OtherBatch(w: World, e: Event, t: nat)
    requires Inv(w) && HoldersOk(w) && LateOk(w) && OneLate(w) && Enabled(w, e) && e.Write?
    requires t in w.tasks && w.tasks[t].Concludes() && e.task != t
    ensures w.tasks[t].batch != w.tasks[e.task].batch
  {
    hide BatchesOk, AskedOk;
    assert TaskOk(w, w.tasks[t]) && TaskOk(w, w.tasks[e.task]);
  }

  lemma TaskWritesKept(w: World, owner: Owners, e: Event, t: nat)
    requires Inv(w) && Own(w, owner) && Exact(w) && Enabled(w, e) && t in w.tasks && w.tasks[t].Concludes()
    requires t in Step(w, e).tasks && Step(w, e).tasks[t].Concludes()
    ensures var task := Step(w, e).tasks[t];
            w.tasks[t].batch in w.batches
            && TaskWrites(Step(w, e), w.batches[w.tasks[t].batch].orderIds, task.verdicts, task.left)
  {
    ConcludingOk(w, t);
    ConcludingTask(w, e, t);
    var (w', task) := (Step(w, e), w.tasks[t]);
    var ids := w.batches[task.batch].orderIds;
    assert TaskWrites(w, ids, task.verdicts, task.left);
    if e.Mark? {
      NotMarked(w, e, task.batch);
    }
    if e.Write? {
      WriteWrites(w, e);
      if e.task != t {
        OtherBatch(w, e, t);
      }
    }
    hide Step, Inv, Enabled, Own, Exact;
    forall k | 0 <= k < |ids| && k !in w'.tasks[t].left ensures HasStatus(w', ids[k], StatusOf(task.verdicts[k])) {
      if !(e.Write? && e.task == t && e.at == k) {
        OwnFacts(w, owner);
        StatusKept(w, owner, e, task.batch, k, StatusOf(task.verdicts[k]));
      }
    }
  }

  lemma OwnFacts(w: World, owner: Owners)
    requires Own(w, owner)
    ensures OwnersOk(w, owner) && GapsShut(w)
  {
  }

  lemma WritesKept(w: World, owner: Owners, e: Event)
    requires Inv(w) && Own(w, owner) && Exact(w) && Enabled(w, e)
    ensures WritesOk(Step(w, e))
  {
    StepGrows(w, e);
    var w' := Step(w, e);
    forall t | t in w'.tasks && w'.tasks[t].Concludes() && w'.tasks[t].batch in w'.batches
      ensures TaskWrites(w', w'.batches[w'.tasks[t].batch].orderIds, w'.tasks[t].verdicts, w'.tasks[t].left)
    {
      if t in w.tasks && w.tasks[t].Concludes() {
        TaskWritesKept(w, owner, e, t);
        ConcludingTask(w, e, t);
        BatchGrows(w, w', w.tasks[t].batch);
      } else {
        JustAsked(w, e, t);
        BatchGrows(w, w', w'.tasks[t].batch);
      }
    }
  }

  /** What an event does to the status of a batch that it does not store. */
  lemma StatusAfter(w: World, e: Event, batch: BatchId)
    requires Inv(w) && Enabled(w, e) && batch in w.batches
    ensures batch in Step(w, e).batches
    ensures var (old', new') := (w.batches[batch].status, Step(w, e).batches[batch].status);
            || new' == old'
            || (e.Claim? && e.batch == batch && old' in {Created, BatchFailed} && new' == Submitted)
            || ((e.Finish? || e.Slip? || e.Fail? || e.Land?) && w.tasks[e.task].batch == batch
                && new' == if e.Fail? then BatchFailed else BatchSettled)
  {
    hide Rebuilt, Marked, WithStatus, Unique, AllPending, Fresh, Below;
    hide OneTaskPerBatch, BatchesOk, AskedOk, KnownWithTexts;
    if e.Record? {
      assert TaskOk(w, w.tasks[e.task]);
    }
  }

  lemma HoldersKept(w: World, e: Event)
    requires Inv(w) && HoldersOk(w) && LateOk(w) && Enabled(w, e)
    ensures HoldersOk(Step(w, e))
  {
    hide Rebuilt, Marked, WithStatus, Unique, AllPending, Fresh, Below, BatchesOk, AskedOk, KnownWithTexts;
    var w' := Step(w, e);
    forall t | t in w'.tasks && (w'.tasks[t].Claimed? || w'.tasks[t].Writing?) && w'.tasks[t].batch in w'.batches
      ensures w'.batches[w'.tasks[t].batch].status == Submitted
    {
      if t in w.tasks {
        assert TaskOk(w, w.tasks[t]);
        StatusAfter(w, e, w.tasks[t].batch);
      }
    }
  }

  /** A task is late because its settlement has just failed, or it was late before. */
  lemma LateBefore(w: World, e: Event, t: nat)
    requires Inv(w) && HoldersOk(w) && Enabled(w, e) && t in Step(w, e).tasks && Step(w, e).tasks[t].Late()
    ensures t in w.tasks && w.tasks[t].batch == Step(w, e).tasks[t].batch && w.tasks[t].batch in w.batches
    ensures w.tasks[t].Late()
            || (e.Fail? && e.task == t && w.tasks[t].Writing? && w.batches[w.tasks[t].batch].status == Submitted)
  {
    hide Rebuilt, Marked, WithStatus, Unique, AllPending, Fresh, Below;
    hide OneTaskPerBatch, BatchesOk, AskedOk, KnownWithTexts;
    assert TaskOk(w, w.tasks[t]);
  }

  lemma LateKept(w: World, e: Event)
    requires Inv(w) && HoldersOk(w) && LateOk(w) && OneLate(w) && Enabled(w, e) && Meets(Drained, w, e)
    ensures LateOk(Step(w, e))
  {
    hide Rebuilt, Marked, WithStatus, Unique, AllPending, Fresh, Below;
    hide OneTaskPerBatch, BatchesOk, AskedOk, KnownWithTexts;
    var w' := Step(w, e);
    forall t | t in w'.tasks && w'.tasks[t].Late() && w'.tasks[t].batch in w'.batches
      ensures w'.batches[w'.tasks[t].batch].status == BatchFailed
    {
      LateBefore(w, e, t);
      StatusAfter(w, e, w.tasks[t].batch);
    }
  }

  lemma OneLateKept(w: World, e: Event)
    requires Inv(w) && HoldersOk(w) && LateOk(w) && OneLate(w) && Enabled(w, e)
    ensures OneLate(Step(w, e))
  {
    var w' := Step(w, e);
    forall t, u | t in w'.tasks && u in w'.tasks && t != u && w'.tasks[t].Late() && w'.tasks[u].Late()
      ensures w'.tasks[t].batch != w'.tasks[u].batch
    {
      LateBefore(w, e, t);
      LateBefore(w, e, u);
      hide Step, Enabled, Inv;
    }
  }

  /** The orders of a settled batch keep their statuses. */
  lemma SettledStatusKept(w: World, owner: Owners, e: Event, batch: BatchId, k: nat, status: OrderStatus)
    requires Inv(w) && Own(w, owner) && HoldersOk(w) && LateOk(w) && Enabled(w, e)
    requires batch in w.batches && w.batches[batch].status == BatchSettled && k < |w.batches[batch].orderIds|
    requires HasStatus(w, w.batches[batch].orderIds[k], status)
    ensures HasStatus(Step(w, e), w.batches[batch].orderIds[k], status)
  {
    if e.Mark? {
      NotMarked(w, e, batch);
    }
    if e.Write? {
      assert TaskOk(w, w.tasks[e.task]);
    }
    hide Step, Inv;
    StatusKept(w, owner, e, batch, k, status);
  }

  /** When a batch becomes settled, every order of it has the status of its verdict. */
  lemma SettlingBatch(w: World, owner: Owners, e: Event, batch: BatchId)
    requires Inv(w) && Own(w, owner) && Exact(w) && Enabled(w, e)
    requires batch in w.batches && w.batches[batch].status != BatchSettled
    requires batch in Step(w, e).batches && Step(w, e).batches[batch].status == BatchSettled
    ensures (e.Finish? || e.Slip? || e.Land?) && w.tasks[e.task].batch == batch && w.tasks[e.task].Concludes()
    ensures TaskWrites(Step(w, e), w.batches[batch].orderIds, w.tasks[e.task].verdicts, {})
  {
    JustSettled(w, e, batch);
    var t := w.tasks[e.task];
    assert TaskWrites(w, w.batches[batch].orderIds, t.verdicts, {});
  }

  // ----- Runs -----

  lemma StepIsSole(w: World, owner: Owners, e: Event)
    requires Inv(w) && Sole(w, owner) && Enabled(w, e) && Meets(NoOverlap, w, e) && Meets(NoLostCreation, w, e)
    ensures Sole(Step(w, e), NextOwners(w, owner, e))
  {
    hide Step, Inv, Meets, Enabled, OwnersOk, GapsOk;
    GapsKept(w, e);
    if e.Select? {
      SelectOwners(w, owner, e);
    } else {
      OtherOwners(w, owner, e);
    }
  }

  lemma StepOwns(w: World, owner: Owners, e: Event)
    requires Inv(w) && Own(w, owner) && Enabled(w, e)
    requires Meets(NoOverlap, w, e) && Meets(NoLostCreation, w, e) && Meets(NoEarlyClaim, w, e)
    ensures Own(Step(w, e), NextOwners(w, owner, e))
  {
    hide Step, Inv, Meets, Enabled, Sole, GapsShut, FinalWritesOk, SettledOk;
    StepIsSole(w, owner, e);
    ShutKept(w, e);
    FinalWritesKept(w, owner, e);
    SettledKept(w, owner, e);
  }

  lemma StepExact(w: World, owner: Owners, e: Event)
    requires Inv(w) && Own(w, owner) && Exact(w) && Enabled(w, e) && Meets(Drained, w, e)
    ensures Exact(Step(w, e))
  {
    hide Step, Inv, Own, Meets, Enabled, WritesOk, HoldersOk, LateOk, OneLate;
    WritesKept(w, owner, e);
    HoldersKept(w, e);
    LateKept(w, e);
    OneLateKept(w, e);
  }

  lemma NothingOwned(w: World)
    requires w.tasks == map[] && w.batches == map[]
    ensures Sole(w, map[]) && Own(w, map[]) && Exact(w)
  {
  }

  lemma WithStep(cs: set<Condition>, ws: seq<World>, es: seq<Event>, k: nat)
    requires IsRunWith(cs, ws, es) && k + 1 < |ws|
    ensures IsRun(ws, es) && k < |es| && Enabled(ws[k], es[k]) && ws[k + 1] == Step(ws[k], es[k])
    ensures forall c :: c in cs ==> Meets(c, ws[k], es[k])
  {
    hide Enabled, Step, Meets;
  }

  lemma WithStart(cs: set<Condition>, ws: seq<World>, es: seq<Event>)
    requires IsRunWith(cs, ws, es)
    ensures IsRun(ws, es) && ws[0].tasks == map[] && ws[0].batches == map[]
  {
  }

  lemma {:induction false} RunIsSole(ws: seq<World>, es: seq<Event>, k: nat)
    requires IsRunWith({NoOverlap, NoLostCreation}, ws, es) && k < |ws|
    ensures exists owner :: Sole(ws[k], owner)
  {
    hide *;
    WithStart({NoOverlap, NoLostCreation}, ws, es);
    if k == 0 {
      NothingOwned(ws[0]);
    } else {
      RunIsSole(ws, es, k - 1);
      RunKeeps(ws, es, k - 1);
      var owner :| Sole(ws[k - 1], owner);
      WithStep({NoOverlap, NoLostCreation}, ws, es, k - 1);
      StepIsSole(ws[k - 1], owner, es[k - 1]);
    }
  }

  /** If creations do not overlap or get lost half way, no order is ever in two batches. */
  lemma OneBatchPerOrder(ws: seq<World>, es: seq<Event>, k: nat, a: BatchId, b: BatchId)
    requires IsRunWith({NoOverlap, NoLostCreation}, ws, es) && k < |ws|
    requires a in ws[k].batches && b in ws[k].batches && a != b
    ensures Disjoint(ws[k].batches[a].orderIds, ws[k].batches[b].orderIds)
  {
    hide Step, Enabled, Meets;
    RunIsSole(ws, es, k);
    var owner :| Sole(ws[k], owner);
    OwnedByOne(owner, ws[k].batches[a].orderIds, a, ws[k].batches[b].orderIds, b);
  }

  lemma {:induction false} RunOwns(cs: set<Condition>, ws: seq<World>, es: seq<Event>, k: nat)
    requires IsRunWith(cs, ws, es) && k < |ws| && NoOverlap in cs && NoLostCreation in cs && NoEarlyClaim in cs
    ensures exists owner :: Own(ws[k], owner)
  {
    hide *;
    WithStart(cs, ws, es);
    if k == 0 {
      NothingOwned(ws[0]);
    } else {
      RunOwns(cs, ws, es, k - 1);
      RunKeeps(ws, es, k - 1);
      var owner :| Own(ws[k - 1], owner);
      WithStep(cs, ws, es, k - 1);
      StepOwns(ws[k - 1], owner, es[k - 1]);
    }
  }

  /** If moreover no batch is claimed before its creation is through, every order of a
      settled batch is settled or failed, also after late updates of failed attempts. */
  lemma SettledOrdersFinal(ws: seq<World>, es: seq<Event>, k: nat, batch: BatchId, n: nat)
    requires IsRunWith({NoOverlap, NoLostCreation, NoEarlyClaim}, ws, es) && k < |ws|
    requires batch in ws[k].batches && ws[k].batches[batch].status == BatchSettled
             && n < |ws[k].batches[batch].orderIds|
    ensures Final(ws[k], ws[k].batches[batch].orderIds[n])
  {
    hide Step, Enabled, Meets;
    RunOwns({NoOverlap, NoLostCreation, NoEarlyClaim}, ws, es, k);
    var owner :| Own(ws[k], owner);
    assert TaskFinal(ws[k], ws[k].batches[batch].orderIds, {});
  }

  lemma {:induction false} RunExact(cs: set<Condition>, ws: seq<World>, es: seq<Event>, k: nat)
    requires IsRunWith(cs, ws, es) && k < |ws|
    requires NoOverlap in cs && NoLostCreation in cs && NoEarlyClaim in cs && Drained in cs
    ensures Exact(ws[k]) && exists owner :: Own(ws[k], owner)
  {
    hide *;
    RunOwns(cs, ws, es, k);
    WithStart(cs, ws, es);
    if k == 0 {
      NothingOwned(ws[0]);
    } else {
      RunExact(cs, ws, es, k - 1);
      RunKeeps(ws, es, k - 1);
      var owner :| Own(ws[k - 1], owner);
      WithStep(cs, ws, es, k - 1);
      StepExact(ws[k - 1], owner, es[k - 1]);
    }
  }

  /** If also no batch is claimed while a late update is in flight, every order of a batch
      that becomes settled has just the status of its verdict: settled if it was
      decrypted, failed otherwise. */
  lemma SettlementWritesVerdicts(ws: seq<World>, es: seq<Event>, k: nat, batch: BatchId)
    requires IsRunWith(ALL - {Kept}, ws, es) && k < |es|
    requires batch in ws[k].batches && ws[k].batches[batch].status != BatchSettled
    requires batch in ws[k + 1].batches && ws[k + 1].batches[batch].status == BatchSettled
    ensures (es[k].Finish? || es[k].Slip? || es[k].Land?) && es[k].task in ws[k].tasks
    ensures var t := ws[k].tasks[es[k].task];
            && t.batch == batch && t.Concludes()
            && TaskWrites(ws[k + 1], ws[k].batches[batch].orderIds, t.verdicts, {})
  {
    WithStep(ALL - {Kept}, ws, es, k);
    RunExact(ALL - {Kept}, ws, es, k);
    RunKeeps(ws, es, k);
    var owner :| Own(ws[k], owner);
    hide Own, Exact, Inv, Step;
    SettlingBatch(ws[k], owner, es[k], batch);
  }

  /** If all five conditions are met, the orders of a settled batch stay as they are. */
  lemma {:induction false} SettledOrdersStay(ws: seq<World>, es: seq<Event>, i: nat, j: nat, batch: BatchId, n: nat)
    requires IsRunWith(ALL, ws, es) && i <= j < |ws|
    requires batch in ws[i].batches && ws[i].batches[batch].status == BatchSettled
             && n < |ws[i].batches[batch].orderIds|
    ensures batch in ws[j].batches && ws[j].batches[batch].orderIds == ws[i].batches[batch].orderIds
    ensures ws[j].batches[batch].status == BatchSettled
    ensures var id := ws[i].batches[batch].orderIds[n];
            Final(ws[i], id) && HasStatus(ws[j], id, ws[i].orders[id].status)
  {
    hide Own, Inv, Step, Enabled, Meets, Exact, KeepsSettled;
    SettledOrdersFinal(ws, es, i, batch, n);
    if i < j {
      SettledOrdersStay(ws, es, i, j - 1, batch, n);
      WithStep(ALL, ws, es, j - 1);
      RunExact(ALL, ws, es, j - 1);
      RunKeeps(ws, es, j - 1);
      var owner :| Own(ws[j - 1], owner);
      ExactLate(ws[j - 1]);
      SettledStatusKept(ws[j - 1], owner, es[j - 1], batch, n, ws[i].orders[ws[i].batches[batch].orderIds[n]].status);
      SettledStays(ws[j - 1], es[j - 1], batch);
      MeetsKept(ws[j - 1], es[j - 1]);
      if es[j - 1].Fail? {
        KeptFails(ws[j - 1], es[j - 1]);
      }
      BatchStays(ws[j - 1], es[j - 1], batch);
    }
  }

  lemma MeetsKept(w: World, e: Event)
    requires Meets(Kept, w, e)
    ensures KeepsSettled(w, e)
  {
  }

  lemma BatchStays(w: World, e: Event, batch: BatchId)
    requires Inv(w) && Enabled(w, e) && batch in w.batches
    ensures batch in Step(w, e).batches && Step(w, e).batches[batch].orderIds == w.batches[batch].orderIds
  {
    StepGrows(w, e);
  }

  lemma ExactLate(w: World)
    requires Exact(w)
    ensures HoldersOk(w) && LateOk(w)
  {
  }
}
