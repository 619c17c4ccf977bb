/** The batch and settlement controllers as they update the tables in place, each call
    uninterrupted. `BatchLifecycle` has the same actions one by one. */
module BatchStores {
  import opened Outcomes
  import opened BatchLifecycle
  import opened BatchOrders

  class BatchStore {
    var orders: map<OrderId, OrderRow>
    var batches: map<BatchId, BatchRow>
    var ledger: map<BatchId, seq<string>>
    var asked: set<(BatchId, seq<string>)>

    function View(): World
      reads this
    {
      World(orders, batches, ledger, map[], asked)
    }

    constructor ()
      ensures View() == World(map[], map[], map[], map[], {})
    {
      orders, batches, ledger, asked := map[], map[], map[], {};
    }

    /** The requested orders without repetitions, if there are any and all are pending. */
    method SelectOrders(requested: seq<OrderId>) returns (r: Outcome<seq<OrderId>>)
      ensures r == if Unique(requested) == [] || !AllPending(orders, Unique(requested)) then Throws
                   else Returns(Unique(requested))
    {
      var ids: seq<OrderId> := [];
      for k := 0 to |requested|
        invariant ids == Unique(requested[..k])
      {
        assert requested[..k + 1][..k] == requested[..k];
        if requested[k] !in ids {
          ids := ids + [requested[k]];
        }
      }
      assert requested[..|requested|] == requested;
      if ids == [] || !AllPending(orders, ids) {
        return Throws;
      }
      return Returns(ids);
    }

    method MarkOrders(ids: seq<OrderId>)
      modifies this`orders
      ensures orders == Marked(old(orders), ids)
    {
      assert orders == Marked(orders, ids[..0]);
      for k := 0 to |ids|
        invariant orders == Marked(old(orders), ids[..k])
      {
        assert ids[..k + 1] == ids[..k] + [ids[k]];
        orders := WithStatus(orders, ids[k], Batched);
      }
      assert ids[..|ids|] == ids;
    }

    /** `createBatch`: seals the list before anything refers to the batch. */
    method CreateBatch(requested: seq<OrderId>, batch: BatchId) returns (r: Outcome<()>)
      requires batch !in batches && batch !in ledger
      modifies this
      ensures r.Throws? <==> Unique(requested) == [] || !AllPending(old(orders), Unique(requested))
      ensures r.Throws? ==> View() == old(View())
      ensures r.Returns? ==> View() == CreatedBy(old(View()), requested, batch)
    {
      hide Marked, Texts, Unique;
      var ids :- SelectOrders(requested);
      ledger := ledger[batch := Texts(orders, ids)];
      batches := batches[batch := BatchRow(ids, Created)];
      MarkOrders(ids);
      TasksGone(old(View()), requested, batch);
      return Returns(());
    }

    /** The conditional update that claims a batch. */
    method ClaimBatch(batch: BatchId) returns (claimed: bool)
      modifies this`batches
      ensures claimed <==> batch in old(batches) && old(batches)[batch].status in {Created, BatchFailed}
      ensures batches == if claimed then old(batches)[batch := old(batches)[batch].(status := Submitted)]
                         else old(batches)
    {
      claimed := batch in batches && batches[batch].status in {Created, BatchFailed};
      if claimed {
        batches := batches[batch := batches[batch].(status := Submitted)];
      }
    }

    /** The first n updates of orders. */
    method WriteOutcomes(ids: seq<OrderId>, verdicts: seq<bool>, n: nat)
      requires n <= |ids| == |verdicts|
      modifies this`orders
      ensures orders == Written(old(orders), ids, verdicts, n)
    {
      for k := 0 to n
        invariant orders == Written(old(orders), ids, verdicts, k)
      {
        orders := WithStatus(orders, ids[k], StatusOf(verdicts[k]));
      }
    }

    /** `settleBatch`, with the rows as the database returns them, the validators'
        verdicts, and after how many updates of orders a call to the chain or the
        database fails, if one does. Updates that land later are those of the tasks that
        `BatchLifecycle` calls late. */
    method SettleBatch(batch: BatchId, rows: seq<OrderId>, verdicts: seq<bool>, failsAfter: Option<nat>)
      returns (settled: bool)
      requires batch in batches ==>
                 AllKnown(orders, batches[batch].orderIds) && |verdicts| == |batches[batch].orderIds|
      modifies this
      ensures ledger == old(ledger)
      ensures var claims := batch in old(batches) && old(batches)[batch].status in {Created, BatchFailed};
              && (settled <==> claims && failsAfter.None?)
              && (!claims ==> View() == old(View()))
              && (claims ==>
                    var row := old(batches)[batch];
                    && asked == old(asked) + {(batch, Rebuilt(old(orders), row.orderIds, rows))}
                    && batches == old(batches)[batch := row.(status := if settled then BatchSettled else BatchFailed)]
                    && orders == Written(old(orders), row.orderIds, verdicts, UpdatesBefore(failsAfter, |verdicts|)))
    {
      var claimed := ClaimBatch(batch);
      if !claimed {
        return false;
      }
      var ids := batches[batch].orderIds;
      asked := asked + {(batch, Rebuilt(orders, ids, rows))};
      WriteOutcomes(ids, verdicts, UpdatesBefore(failsAfter, |verdicts|));
      if failsAfter.Some? {
        batches := batches[batch := batches[batch].(status := BatchFailed)];
        return false;
      }
      batches := batches[batch := batches[batch].(status := BatchSettled)];
      return true;
    }
  }

  function UpdatesBefore(failsAfter: Option<nat>, all: nat): (n: nat)
    ensures n <= all
  {
    if failsAfter.Some? && failsAfter.value < all then failsAfter.value else all
  }

  /** The orders after the first n outcomes were written. */
  function Written(orders: map<OrderId, OrderRow>, ids: seq<OrderId>, verdicts: seq<bool>, n: nat)
    : map<OrderId, OrderRow>
    requires n <= |ids| == |verdicts|
  {
    if n == 0 then orders
    else WithStatus(Written(orders, ids, verdicts, n - 1), ids[n - 1], StatusOf(verdicts[n - 1]))
  }

  /** Every order of the batch ends with the status of its own verdict, all others are untouched. */
  lemma {:induction false} WrittenStatus(orders: map<OrderId, OrderRow>, ids: seq<OrderId>, verdicts: seq<bool>,
                                         n: nat, id: OrderId)
    requires n <= |ids| == |verdicts| && id in orders && Distinct(ids)
    ensures id in Written(orders, ids, verdicts, n)
    ensures Written(orders, ids, verdicts, n)[id].encryptedData == orders[id].encryptedData
    ensures forall k :: 0 <= k < n && ids[k] == id ==>
      Written(orders, ids, verdicts, n)[id].status == StatusOf(verdicts[k])
    ensures id !in ids[..n] ==> Written(orders, ids, verdicts, n)[id] == orders[id]
  {
    if n > 0 {
      WrittenStatus(orders, ids, verdicts, n - 1, id);
      assert ids[..n] == ids[..n - 1] + [ids[n - 1]];
    }
  }

  /** The four actions of a creation that nothing interrupts. */
  function CreatedBy(w: World, requested: seq<OrderId>, batch: BatchId): World
    requires w.tasks == map[] && batch !in w.batches && batch !in w.ledger
    requires Unique(requested) != [] && AllPending(w.orders, Unique(requested))
  {
    var selected := Step(w, Select(0, requested, batch));
    var recorded := Step(Step(selected, Seal(0)), Record(0));
    Step(recorded, Mark(0))
  }

  lemma TasksGone(w: World, requested: seq<OrderId>, batch: BatchId)
    requires w.tasks == map[] && batch !in w.batches && batch !in w.ledger
    requires Unique(requested) != [] && AllPending(w.orders, Unique(requested))
    ensures var ids := Unique(requested);
            CreatedBy(w, requested, batch)
            == World(Marked(w.orders, ids), w.batches[batch := BatchRow(ids, Created)],
                     w.ledger[batch := Texts(w.orders, ids)], map[], w.asked)
  {
    hide Marked, Texts, Unique, AllPending;
    assert CreatedBy(w, requested, batch).tasks == map[];
  }
}
