/** The settlement contract as it updates its storage and the token ledgers in
    place, with the host's rollback of calls that panic or return an error. */
module SettlementEngines {
  import opened Outcomes
  import opened Totals
  import opened PoolMath
  import opened Settlement

  class SettlementEngine {
    var admin: Option<Address>
    var reserves: map<Pool, (int, int)>
    var supply: map<Pool, int>
    var shares: map<(Address, Pool), int>
    var fees: map<Address, int>
    var results: map<BatchId, seq<SettlementResult>>
    var balances: map<(Address, Address), int>
    var allowances: map<(Address, Address), int>

    function View(): State
      reads this
    {
      State(admin, reserves, supply, shares, fees, results, balances, allowances)
    }

    /** A deployed contract over existing token ledgers. */
    constructor (balances: map<(Address, Address), int>, allowances: map<(Address, Address), int>)
      ensures View() == State(None, map[], map[], map[], map[], map[], balances, allowances)
    {
      admin, reserves, supply, shares, fees, results := None, map[], map[], map[], map[], map[];
      this.balances, this.allowances := balances, allowances;
    }

    /** The host's rollback. */
    method Rollback(s: State)
      modifies this
      ensures View() == s
    {
      admin, reserves, supply, shares := s.admin, s.reserves, s.supply, s.shares;
      fees, results, balances, allowances := s.fees, s.results, s.balances, s.allowances;
    }

    method SetReserves(a: Address, b: Address, ra: int, rb: int)
      modifies this`reserves
      ensures View() == SetReservesOrdered(old(View()), a, b, ra, rb)
    {
      reserves := reserves[PoolKey(a, b) := if a == PoolKey(a, b).0 then (ra, rb) else (rb, ra)];
    }

    method Move(token: Address, from: Address, to: Address, amount: int) returns (r: Call<()>)
      modifies this`balances
      ensures Result(Transfer(old(View()), token, from, to, amount), r, View())
    {
      if amount < 0 || Balance(View(), token, from) < amount {
        return Panic;
      }
      balances := balances[(token, from) := Balance(View(), token, from) - amount];
      var credit :- Int(Balance(View(), token, to) + amount);
      balances := balances[(token, to) := credit];
      return Done(());
    }

    method MoveFrom(token: Address, from: Address, amount: int) returns (r: Call<()>)
      modifies this`balances, this`allowances
      ensures Result(TransferFrom(old(View()), token, from, amount), r, View())
    {
      var allowed := Get(allowances, (token, from));
      if amount < 0 || allowed < amount {
        return Panic;
      }
      allowances := allowances[(token, from) := allowed - amount];
      r := Move(token, from, SELF, amount);
    }

    method Initialize(admin: Address) returns (r: Call<()>)
      modifies this
      ensures Reverting(Settlement.Initialize(old(View()), admin), r, old(View()), View())
    {
      if this.admin.Some? {
        return Err(AlreadyInitialized);
      }
      this.admin := Some(admin);
      return Done(());
    }

    method Mint(a: Address, b: Address, amountA: int, amountB: int) returns (r: Call<int>)
      ensures r == SharesFor(View(), a, b, amountA, amountB)
    {
      var (ra, rb) := ReservesOrdered(View(), a, b);
      var total := Get(supply, PoolKey(a, b));
      if total == 0 {
        var product :- Int(amountA * amountB);
        var root := Isqrt(product);
        match root {
          case Panics => return Panic;
          case Value(v) => return Done(v);
        }
      }
      var pa :- Int(amountA * total);
      var fromA :- Divide(pa, ra);
      var pb :- Int(amountB * total);
      var fromB :- Divide(pb, rb);
      return Done(if fromB < fromA then fromB else fromA);
    }

    method TryAddLiquidity(user: Address, a: Address, b: Address, amountA: int, amountB: int) returns (r: Call<int>)
      modifies this
      ensures ResultWith(Settlement.AddLiquidity(old(View()), user, a, b, amountA, amountB), r, View())
    {
      hide SharesFor, Transfer, Fits, ReservesOrdered, SetReservesOrdered;
      var (ra, rb) := ReservesOrdered(View(), a, b);
      var pool := PoolKey(a, b);
      var lp :- Mint(a, b, amountA, amountB);
      var _ :- Move(a, user, SELF, amountA);
      var _ :- Move(b, user, SELF, amountB);
      var ra' :- Int(ra + amountA);
      var rb' :- Int(rb + amountB);
      SetReserves(a, b, ra', rb');
      var total :- Int(Get(supply, pool) + lp);
      supply := supply[pool := total];
      var held :- Int(Get(shares, (user, pool)) + lp);
      shares := shares[(user, pool) := held];
      return Done(lp);
    }

    method AddLiquidity(user: Address, a: Address, b: Address, amountA: int, amountB: int) returns (r: Call<int>)
      modifies this
      ensures RevertingWith(Settlement.AddLiquidity(old(View()), user, a, b, amountA, amountB), r, old(View()), View())
    {
      var before := View();
      r := TryAddLiquidity(user, a, b, amountA, amountB);
      if !r.Done? {
        Rollback(before);
      }
    }

    method TryRemoveLiquidity(user: Address, a: Address, b: Address, lp: int) returns (r: Call<(int, int)>)
      modifies this
      ensures ResultWith(Settlement.RemoveLiquidity(old(View()), user, a, b, lp), r, View())
    {
      hide Transfer, Fits, ReservesOrdered, SetReservesOrdered, PoolMath.Quotient;
      var pool := PoolKey(a, b);
      var held := Get(shares, (user, pool));
      if lp > held {
        return Err(InsufficientLiquidity);
      }
      var total := Get(supply, pool);
      if total == 0 {
        return Err(EmptyPool);
      }
      var (ra, rb) := ReservesOrdered(View(), a, b);
      var pa :- Int(lp * ra);
      var amountA :- Divide(pa, total);
      var pb :- Int(lp * rb);
      var amountB :- Divide(pb, total);
      var ra' :- Int(ra - amountA);
      var rb' :- Int(rb - amountB);
      SetReserves(a, b, ra', rb');
      var total' :- Int(total - lp);
      supply := supply[pool := total'];
      var held' :- Int(held - lp);
      shares := shares[(user, pool) := held'];
      var _ :- Move(a, SELF, user, amountA);
      var _ :- Move(b, SELF, user, amountB);
      return Done((amountA, amountB));
    }

    method RemoveLiquidity(user: Address, a: Address, b: Address, lp: int) returns (r: Call<(int, int)>)
      modifies this
      ensures RevertingWith(Settlement.RemoveLiquidity(old(View()), user, a, b, lp), r, old(View()), View())
    {
      var before := View();
      r := TryRemoveLiquidity(user, a, b, lp);
      if !r.Done? {
        Rollback(before);
      }
    }

    method ExecuteOrder(o: Order) returns (r: Call<SettlementResult>)
      modifies this
      ensures ResultWith(SettleOrder(old(View()), o), r, View())
    {
      hide QuoteSwap, Transfer, Fits, ReservesOrdered, SetReservesOrdered;
      var quote :- QuoteSwap(View(), o);
      var (out, fee) := quote;
      var (rIn, rOut) := ReservesOrdered(View(), o.tokenIn, o.tokenOut);
      var rIn' :- Int(rIn + o.amountIn);
      var rOut' :- Int(rOut - out);
      SetReserves(o.tokenIn, o.tokenOut, rIn', rOut');
      var _ :- MoveFrom(o.tokenIn, o.user, o.amountIn);
      var _ :- Move(o.tokenOut, SELF, o.user, out);
      var accrued :- Int(Get(fees, o.tokenIn) + fee);
      fees := fees[o.tokenIn := accrued];
      return Done(SettlementResult(o.user, o.tokenIn, o.tokenOut, o.amountIn, out, fee));
    }

    method TrySettleBatch(id: BatchId, orders: seq<Order>) returns (r: Call<seq<SettlementResult>>)
      modifies this
      ensures ResultWith(Settlement.SettleBatch(old(View()), id, orders), r, View())
    {
      hide SettleOrder;
      if id in results {
        return Err(BatchAlreadySettled);
      }
      ghost var before := View();
      var done: seq<SettlementResult> := [];
      for i := 0 to |orders|
        invariant SettleOrders(before, orders[..i]) == Done((View(), done))
      {
        var result := ExecuteOrder(orders[i]);
        FirstsThen(before, orders, i);
        if !result.Done? {
          FailureStays(before, orders, i + 1);
          return result.PropagateFailure();
        }
        done := done + [result.value];
      }
      assert orders[..|orders|] == orders;
      results := results[id := done];
      return Done(done);
    }

    method SettleBatch(id: BatchId, orders: seq<Order>) returns (r: Call<seq<SettlementResult>>)
      modifies this
      ensures RevertingWith(Settlement.SettleBatch(old(View()), id, orders), r, old(View()), View())
    {
      var before := View();
      r := TrySettleBatch(id, orders);
      if !r.Done? {
        Rollback(before);
      }
    }

    method CollectFees(receiver: Address, token: Address) returns (r: Call<int>)
      modifies this
      ensures RevertingWith(Settlement.CollectFees(old(View()), receiver, token), r, old(View()), View())
    {
      if admin.None? {
        return Err(NotInitialized);
      }
      var accumulated := Get(fees, token);
      if accumulated > 0 {
        var before := View();
        var moved := Move(token, SELF, receiver, accumulated);
        if !moved.Done? {
          Rollback(before);
          return moved.PropagateFailure();
        }
        fees := fees[token := 0];
      }
      return Done(accumulated);
    }
  }

  /** A step of a call went as specified; a failed one may leave the state half changed. */
  ghost predicate Result(spec: Call<State>, r: Call<()>, after: State) {
    match spec
    case Done(s) => r == Done(()) && after == s
    case Panic => r == Panic
    case Err(e) => r == Err(e)
  }

  ghost predicate ResultWith<T>(spec: Call<(State, T)>, r: Call<T>, after: State) {
    match spec
    case Done((s, v)) => r == Done(v) && after == s
    case Panic => r == Panic
    case Err(e) => r == Err(e)
  }

  /** A call went as specified, and a failed one left everything as it was. */
  ghost predicate Reverting(spec: Call<State>, r: Call<()>, before: State, after: State) {
    Result(spec, r, after) && (!r.Done? ==> after == before)
  }

  ghost predicate RevertingWith<T>(spec: Call<(State, T)>, r: Call<T>, before: State, after: State) {
    ResultWith(spec, r, after) && (!r.Done? ==> after == before)
  }

  lemma FirstsThen(s: State, orders: seq<Order>, i: nat)
    requires i < |orders| && SettleOrders(s, orders[..i]).Done?
    ensures var (s', rs) := SettleOrders(s, orders[..i]).value;
            SettleOrders(s, orders[..i + 1]) ==
            match SettleOrder(s', orders[i])
            case Done((s'', r)) => Done((s'', rs + [r]))
            case Panic => Panic
            case Err(e) => Err(e)
  {
    hide SettleOrder;
    assert orders[..i + 1][..i] == orders[..i];
  }

  /** An order that fails makes the whole batch fail in the same way. */
  lemma {:induction false} FailureStays(s: State, orders: seq<Order>, n: nat)
    requires n <= |orders| && !SettleOrders(s, orders[..n]).Done?
    ensures SettleOrders(s, orders) == SettleOrders(s, orders[..n])
  {
    hide SettleOrder;
    if n < |orders| {
      var m := |orders| - 1;
      assert orders[..m][..n] == orders[..n];
      FailureStays(s, orders[..m], n);
    } else {
      assert orders[..n] == orders;
    }
  }
}
