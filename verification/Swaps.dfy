/** When an order is settled and a batch of orders, and what they do. */
module Swaps {
  import opened Outcomes
  import opened Totals
  import opened PoolMath
  import opened Settlement
  import opened SettlementInvariants
  import opened Payments

  // ----- The quote -----

  /** A fee of 30 basis points, rounded down, and what the rest buys in a pool whose
      product of reserves stays the same, rounded down. */
  ghost predicate Quoted(rIn: int, rOut: int, x: int, out: int, fee: int) {
    && fee * 10_000 <= 30 * x < (fee + 1) * 10_000
    && out * (rIn + (x - fee)) <= (x - fee) * rOut < (out + 1) * (rIn + (x - fee))
  }

  /** No number of the quote overflows. */
  predicate QuoteFits(rIn: int, rOut: int, x: int, fee: int) {
    Fits(x * 30) && Fits((x - fee) * rOut) && Fits(rIn + (x - fee))
  }

  lemma QuotedOne(rIn: int, rOut: int, x: int, out: int, fee: int, out': int, fee': int)
    requires rIn > 0 && x >= 0 && Quoted(rIn, rOut, x, out, fee) && Quoted(rIn, rOut, x, out', fee')
    ensures out == out' && fee == fee'
  {
    var total := rIn + (x - fee);
    Cancel(out, out' + 1, total);
    Cancel(out', out + 1, total);
  }

  /** The quote as it is computed. */
  lemma QuotedIs(rIn: int, rOut: int, x: int)
    requires rIn > 0 && rOut > 0 && x >= 0
    ensures var fee := PoolMath.Quotient(x * FEE_BPS, BPS_DENOMINATOR);
            var out := PoolMath.Quotient((x - fee) * rOut, rIn + (x - fee));
            && Quoted(rIn, rOut, x, out, fee) && 0 <= fee <= x && 0 <= out <= (x - fee) * rOut
  {
    var fee := PoolMath.Quotient(x * FEE_BPS, BPS_DENOMINATOR);
    var net := x - fee;
    QuotientBounds(x * FEE_BPS, BPS_DENOMINATOR);
    MulNonnegative(net, rOut);
    QuotientBounds(net * rOut, rIn + net);
    QuotientAtMost(net * rOut, rIn + net);
  }

  /** The pool gives a quote of this output and fee. */
  ghost predicate Quotes(s: State, o: Order, out: int, fee: int) {
    var (rIn, rOut) := ReservesOrdered(s, o.tokenIn, o.tokenOut);
    rIn != 0 && rOut != 0 && Quoted(rIn, rOut, o.amountIn, out, fee) && QuoteFits(rIn, rOut, o.amountIn, fee)
  }

  lemma QuoteExactly(s: State, o: Order, out: int, fee: int)
    requires PoolsOk(s) && o.amountIn >= 0
    ensures QuoteSwap(s, o) == Done((out, fee)) <==> Quotes(s, o, out, fee) && o.minAmountOut <= out
  {
    var (rIn, rOut) := ReservesOrdered(s, o.tokenIn, o.tokenOut);
    GoodPoolAt(s, o.tokenIn, o.tokenOut);
    if rIn != 0 && rOut != 0 {
      QuotedIs(rIn, rOut, o.amountIn);
      var fee' := PoolMath.Quotient(o.amountIn * FEE_BPS, BPS_DENOMINATOR);
      var out' := PoolMath.Quotient((o.amountIn - fee') * rOut, rIn + (o.amountIn - fee'));
      if Quoted(rIn, rOut, o.amountIn, out, fee) {
        QuotedOne(rIn, rOut, o.amountIn, out, fee, out', fee');
      }
      hide ReservesOrdered, PoolsOk, PoolMath.Quotient, Quoted;
    }
  }

  // ----- One order -----

  /** All that an order needs that is settled at this quote: the pool gives it and it is at
      least the minimum, the user has and approved what is sold, the contract has what is
      bought, and no stored number overflows. */
  ghost predicate CanSettle(s: State, o: Order, out: int, fee: int) {
    var ((rIn, rOut), x) := (ReservesOrdered(s, o.tokenIn, o.tokenOut), o.amountIn);
    var returned := if o.tokenIn == o.tokenOut then x else 0;
    && Quotes(s, o, out, fee) && o.minAmountOut <= out
    && 0 <= x <= Get(s.allowances, (o.tokenIn, o.user)) && x <= Balance(s, o.tokenIn, o.user)
    && out <= Balance(s, o.tokenOut, SELF) + returned
    && Fits(Balance(s, o.tokenIn, SELF) + x) && Fits(Balance(s, o.tokenOut, o.user) - returned + out)
    && Fits(rIn + x) && Fits(rOut - out) && Fits(Get(s.fees, o.tokenIn) + fee)
  }

  /** What the contract gains of token t. */
  function Gained(o: Order, out: int, t: Address): int {
    (if t == o.tokenIn then o.amountIn else 0) - (if t == o.tokenOut then out else 0)
  }

  /** The two transfers of an order. */
  ghost predicate Exchanged(s: State, s': State, o: Order, out: int) {
    forall t: Address, h: Address ::
      Balance(s', t, h) == Balance(s, t, h)
        + if h == SELF then Gained(o, out, t) else if h == o.user then -Gained(o, out, t) else 0
  }

  /** The user sold amountIn for out, the fee accrued, and nothing else happened. */
  ghost predicate Swapped(s: State, s': State, o: Order, out: int, fee: int) {
    var ((rIn, rOut), approval) := (ReservesOrdered(s, o.tokenIn, o.tokenOut), (o.tokenIn, o.user));
    && Exchanged(s, s', o, out)
    && s'.allowances == s.allowances[approval := Get(s.allowances, approval) - o.amountIn]
    && ReservesOrdered(s', o.tokenIn, o.tokenOut) == (rIn + o.amountIn, rOut - out)
    && OnlyPool(s, s', PoolKey(o.tokenIn, o.tokenOut)) && s'.supply == s.supply && s'.shares == s.shares
    && s'.fees == s.fees[o.tokenIn := Get(s.fees, o.tokenIn) + fee]
    && s'.results == s.results && s'.admin == s.admin
  }

  lemma PullExactly(s: State, token: Address, from: Address, amount: int)
    requires from != SELF
    ensures TransferFrom(s, token, from, amount).Done?
            <==> && 0 <= amount <= Get(s.allowances, (token, from)) && amount <= Balance(s, token, from)
                 && Fits(Balance(s, token, SELF) + amount)
    ensures TransferFrom(s, token, from, amount).Done? ==>
              var s' := TransferFrom(s, token, from, amount).value;
              && s'.allowances == s.allowances[(token, from) := Get(s.allowances, (token, from)) - amount]
              && forall t, h :: Balance(s', t, h) == Balance(s, t, h)
                   + if t != token then 0 else if h == from then -amount else if h == SELF then amount else 0
  {
    var s1 := s.(allowances := s.allowances[(token, from) := Get(s.allowances, (token, from)) - amount]);
    assert forall t, h :: Balance(s1, t, h) == Balance(s, t, h);
    if amount >= 0 {
      TransferExactly(s1, token, from, SELF, amount);
      if Transfer(s1, token, from, SELF, amount).Done? {
        TransferKeepsStorage(s1, token, from, SELF, amount);
      }
    }
    hide Transfer, Balance, Fits;
  }

  lemma ExchangeExactly(s: State, o: Order, out: int)
    requires o.user != SELF && out >= 0
    ensures var (pulled, x) := (TransferFrom(s, o.tokenIn, o.user, o.amountIn), o.amountIn);
            var returned := if o.tokenIn == o.tokenOut then x else 0;
            && (pulled.Done? && Transfer(pulled.value, o.tokenOut, SELF, o.user, out).Done?
                <==> && 0 <= x <= Get(s.allowances, (o.tokenIn, o.user)) && x <= Balance(s, o.tokenIn, o.user)
                     && out <= Balance(s, o.tokenOut, SELF) + returned
                     && Fits(Balance(s, o.tokenIn, SELF) + x) && Fits(Balance(s, o.tokenOut, o.user) - returned + out))
            && (pulled.Done? && Transfer(pulled.value, o.tokenOut, SELF, o.user, out).Done? ==>
                  Exchanged(s, Transfer(pulled.value, o.tokenOut, SELF, o.user, out).value, o, out))
  {
    hide Transfer, TransferFrom, Balance, Fits;
    PullExactly(s, o.tokenIn, o.user, o.amountIn);
    if TransferFrom(s, o.tokenIn, o.user, o.amountIn).Done? {
      TransferExactly(TransferFrom(s, o.tokenIn, o.user, o.amountIn).value, o.tokenOut, SELF, o.user, out);
    }
  }

  /** `SettleOrder` as a list of the things that must go well. */
  lemma SettleGoes(s: State, o: Order)
    ensures var ((rIn, rOut), quote) := (ReservesOrdered(s, o.tokenIn, o.tokenOut), QuoteSwap(s, o));
            && (SettleOrder(s, o).Done?
                <==> quote.Done?
                     && var (out, fee) := quote.value;
                        var pulled := TransferFrom(Reserved(s, o, out), o.tokenIn, o.user, o.amountIn);
                        && Fits(rIn + o.amountIn) && Fits(rOut - out) && pulled.Done?
                        && Transfer(pulled.value, o.tokenOut, SELF, o.user, out).Done?
                        && Fits(Get(s.fees, o.tokenIn) + fee))
            && (SettleOrder(s, o).Done? ==>
                  var (out, pulled) := (quote.value.0, TransferFrom(Reserved(s, o, quote.value.0), o.tokenIn, o.user,
                                                                    o.amountIn));
                  && SettleOrder(s, o).value.0.balances
                     == Transfer(pulled.value, o.tokenOut, SELF, o.user, out).value.balances
                  && SettleOrder(s, o).value.0.allowances == pulled.value.allowances)
  {
    hide Transfer, TransferFrom, QuoteSwap, SetReservesOrdered, ReservesOrdered, Fits;
    if QuoteSwap(s, o).Done? {
      var (out, fee) := QuoteSwap(s, o).value;
      var (rIn, rOut) := ReservesOrdered(s, o.tokenIn, o.tokenOut);
      SetReservesEffect(s, o.tokenIn, o.tokenOut, rIn + o.amountIn, rOut - out);
      if TransferFrom(Reserved(s, o, out), o.tokenIn, o.user, o.amountIn).Done? {
        var s2 := TransferFrom(Reserved(s, o, out), o.tokenIn, o.user, o.amountIn).value;
        TransferFromKeepsStorage(Reserved(s, o, out), o.tokenIn, o.user, o.amountIn);
        if Transfer(s2, o.tokenOut, SELF, o.user, out).Done? {
          TransferKeepsStorage(s2, o.tokenOut, SELF, o.user, out);
        }
      }
    }
  }

  /** The reserves are written before the tokens move. */
  function Reserved(s: State, o: Order, out: int): State {
    var (rIn, rOut) := ReservesOrdered(s, o.tokenIn, o.tokenOut);
    SetReservesOrdered(s, o.tokenIn, o.tokenOut, rIn + o.amountIn, rOut - out)
  }

  lemma ReservedLedgers(s: State, o: Order, out: int)
    ensures Reserved(s, o, out).balances == s.balances && Reserved(s, o, out).allowances == s.allowances
  {
  }

  lemma SameExchange(s: State, s1: State, s2: State, s': State, o: Order, out: int)
    requires Exchanged(s1, s2, o, out) && s1.balances == s.balances && s'.balances == s2.balances
    ensures Exchanged(s, s', o, out)
  {
    forall t: Address, h: Address
      ensures Balance(s1, t, h) == Balance(s, t, h) && Balance(s', t, h) == Balance(s2, t, h)
    {
    }
  }

  lemma SameBalances(s: State, s1: State)
    requires s1.balances == s.balances
    ensures forall t: Address, h: Address :: Balance(s1, t, h) == Balance(s, t, h)
  {
  }

  lemma SwapNeeds(s: State, o: Order)
    requires PoolsOk(s) && o.user != SELF && SettleOrder(s, o).Done?
    ensures var r := SettleOrder(s, o).value.1;
            CanSettle(s, o, r.amountOut, r.fee)
  {
    hide SettleOrder, QuoteSwap, Quotes, Transfer, TransferFrom, Reserved, ReservesOrdered, PoolKey, OnlyPool, PoolsOk,
         Fits, Balance, Exchanged;
    var r := SettleOrder(s, o).value.1;
    SettleEffect(s, o);
    SettleGoes(s, o);
    QuoteExactly(s, o, r.amountOut, r.fee);
    ReservedLedgers(s, o, r.amountOut);
    SameBalances(s, Reserved(s, o, r.amountOut));
    ExchangeExactly(Reserved(s, o, r.amountOut), o, r.amountOut);
  }

  lemma SwapSuffices(s: State, o: Order, out: int, fee: int)
    requires PoolsOk(s) && o.user != SELF && CanSettle(s, o, out, fee)
    ensures SettleOrder(s, o).Done?
  {
    hide SettleOrder, QuoteSwap, Quotes, Transfer, TransferFrom, Reserved, ReservesOrdered, PoolKey, PoolsOk, Fits,
         Balance, Exchanged;
    SettleGoes(s, o);
    QuoteExactly(s, o, out, fee);
    OutNonnegative(s, o, out, fee);
    ReservedLedgers(s, o, out);
    SameBalances(s, Reserved(s, o, out));
    ExchangeExactly(Reserved(s, o, out), o, out);
  }

  lemma OutNonnegative(s: State, o: Order, out: int, fee: int)
    requires PoolsOk(s) && o.amountIn >= 0 && Quotes(s, o, out, fee)
    ensures out >= 0
  {
    var (rIn, rOut) := ReservesOrdered(s, o.tokenIn, o.tokenOut);
    GoodPoolAt(s, o.tokenIn, o.tokenOut);
    hide ReservesOrdered, PoolsOk;
    QuotedIs(rIn, rOut, o.amountIn);
    var fee' := PoolMath.Quotient(o.amountIn * FEE_BPS, BPS_DENOMINATOR);
    QuotedOne(rIn, rOut, o.amountIn, out, fee,
              PoolMath.Quotient((o.amountIn - fee') * rOut, rIn + (o.amountIn - fee')), fee');
  }

  lemma SwapDoes(s: State, o: Order)
    requires o.user != SELF && SettleOrder(s, o).Done?
    ensures var (s', r) := SettleOrder(s, o).value;
            Swapped(s, s', o, r.amountOut, r.fee)
            && r == SettlementResult(o.user, o.tokenIn, o.tokenOut, o.amountIn, r.amountOut, r.fee)
  {
    hide SettleOrder, QuoteSwap, Transfer, TransferFrom, Reserved, ReservesOrdered, PoolKey, OnlyPool, Fits, Balance,
         Exchanged;
    var (s', r) := SettleOrder(s, o).value;
    SettleEffect(s, o);
    SettleGoes(s, o);
    ReservedLedgers(s, o, r.amountOut);
    var s1 := Reserved(s, o, r.amountOut);
    ExchangeExactly(s1, o, r.amountOut);
    PullExactly(s1, o.tokenIn, o.user, o.amountIn);
    SameExchange(s, s1, Transfer(TransferFrom(s1, o.tokenIn, o.user, o.amountIn).value, o.tokenOut, SELF, o.user,
                                 r.amountOut).value, s', o, r.amountOut);
  }

  /** Exactly when an order is settled, and what that does. */
  lemma SwapExactly(s: State, o: Order)
    requires PoolsOk(s) && o.user != SELF
    ensures SettleOrder(s, o).Done? <==> exists out, fee :: CanSettle(s, o, out, fee)
    ensures SettleOrder(s, o).Done? ==>
              var (s', r) := SettleOrder(s, o).value;
              && r == SettlementResult(o.user, o.tokenIn, o.tokenOut, o.amountIn, r.amountOut, r.fee)
              && CanSettle(s, o, r.amountOut, r.fee) && Swapped(s, s', o, r.amountOut, r.fee)
  {
    hide *;
    if SettleOrder(s, o).Done? {
      SwapNeeds(s, o);
      SwapDoes(s, o);
    }
    forall out, fee | CanSettle(s, o, out, fee) ensures SettleOrder(s, o).Done? {
      SwapSuffices(s, o, out, fee);
    }
  }

  /** Why an order is refused with an error rather than a panic: the pool has none of one
      token, or its quote is below the minimum. */
  lemma RefusedExactly(s: State, o: Order)
    requires PoolsOk(s) && o.amountIn >= 0
    ensures SettleOrder(s, o) == Err(EmptyPool)
            <==> ReservesOrdered(s, o.tokenIn, o.tokenOut).0 == 0 || ReservesOrdered(s, o.tokenIn, o.tokenOut).1 == 0
    ensures SettleOrder(s, o) == Err(InsufficientOutput)
            <==> exists out, fee :: Quotes(s, o, out, fee) && out < o.minAmountOut
    ensures SettleOrder(s, o).Err? ==> SettleOrder(s, o).error in {EmptyPool, InsufficientOutput}
  {
    OnlyQuoteErrs(s, o);
    hide SettleOrder, Quotes;
    QuoteErrors(s, o);
    forall out, fee | Quotes(s, o, out, fee) && out < o.minAmountOut
      ensures QuoteSwap(s, o) == Err(InsufficientOutput)
    {
      QuoteTooLow(s, o, out, fee);
    }
  }

  lemma OnlyQuoteErrs(s: State, o: Order)
    ensures SettleOrder(s, o).Err? <==> QuoteSwap(s, o).Err?
    ensures SettleOrder(s, o).Err? ==> SettleOrder(s, o).error == QuoteSwap(s, o).error
  {
    hide QuoteSwap, ReservesOrdered, SetReservesOrdered;
  }

  lemma QuoteErrors(s: State, o: Order)
    requires PoolsOk(s) && o.amountIn >= 0
    ensures QuoteSwap(s, o) == Err(EmptyPool)
            <==> ReservesOrdered(s, o.tokenIn, o.tokenOut).0 == 0 || ReservesOrdered(s, o.tokenIn, o.tokenOut).1 == 0
    ensures QuoteSwap(s, o).Err? ==> QuoteSwap(s, o).error in {EmptyPool, InsufficientOutput}
    ensures QuoteSwap(s, o) == Err(InsufficientOutput)
            ==> exists out, fee :: Quotes(s, o, out, fee) && out < o.minAmountOut
  {
    var (rIn, rOut) := ReservesOrdered(s, o.tokenIn, o.tokenOut);
    GoodPoolAt(s, o.tokenIn, o.tokenOut);
    if rIn != 0 && rOut != 0 {
      QuotedIs(rIn, rOut, o.amountIn);
      var fee := PoolMath.Quotient(o.amountIn * FEE_BPS, BPS_DENOMINATOR);
      var out := PoolMath.Quotient((o.amountIn - fee) * rOut, rIn + (o.amountIn - fee));
      hide ReservesOrdered, PoolsOk, PoolMath.Quotient, Quoted;
      assert QuoteSwap(s, o) == Err(InsufficientOutput) ==> Quotes(s, o, out, fee);
    }
  }

  lemma QuoteTooLow(s: State, o: Order, out: int, fee: int)
    requires PoolsOk(s) && o.amountIn >= 0 && Quotes(s, o, out, fee) && out < o.minAmountOut
    ensures QuoteSwap(s, o) == Err(InsufficientOutput)
  {
    var low := o.(minAmountOut := out);
    QuoteExactly(s, low, out, fee);
    hide ReservesOrdered, PoolMath.Quotient, Quotes, PoolsOk;
  }

  // ----- A batch -----

  /** Every order is settled on the state that the one before it left, with these results. */
  ghost predicate Chained(s: State, orders: seq<Order>, states: seq<State>, results: seq<SettlementResult>) {
    && |states| == |orders| + 1 && |results| == |orders| && states[0] == s
    && forall i :: 0 <= i < |orders| ==> SettleOrder(states[i], orders[i]) == Done((states[i + 1], results[i]))
  }

  lemma {:induction false} SettledChain(s: State, orders: seq<Order>)
    requires SettleOrders(s, orders).Done?
    ensures var (s', results) := SettleOrders(s, orders).value;
            exists states :: Chained(s, orders, states, results) && states[|orders|] == s'
  {
    hide SettleOrder;
    if orders == [] {
      assert Chained(s, orders, [s], []) && [s][0] == s;
    } else {
      var n := |orders| - 1;
      SettledChain(s, orders[..n]);
      var (s1, front) := SettleOrders(s, orders[..n]).value;
      var states :| Chained(s, orders[..n], states, front) && states[n] == s1;
      var (s', results) := SettleOrders(s, orders).value;
      ChainNext(s, orders, states, front, s', results);
    }
  }

  lemma ChainNext(s: State, orders: seq<Order>, states: seq<State>, front: seq<SettlementResult>, s': State,
                  results: seq<SettlementResult>)
    requires orders != [] && Chained(s, orders[..|orders| - 1], states, front)
    requires results != [] && results[..|results| - 1] == front
    requires SettleOrder(states[|orders| - 1], orders[|orders| - 1]) == Done((s', results[|results| - 1]))
    ensures Chained(s, orders, states + [s'], results) && (states + [s'])[|orders|] == s'
  {
    hide SettleOrder;
    var (n, states') := (|orders| - 1, states + [s']);
    forall i | 0 <= i < |orders| ensures SettleOrder(states'[i], orders[i]) == Done((states'[i + 1], results[i])) {
      if i < n {
        assert orders[..n][i] == orders[i] && front[i] == results[i];
      }
    }
  }

  lemma {:induction false} ChainSettles(s: State, orders: seq<Order>, states: seq<State>,
                                        results: seq<SettlementResult>)
    requires Chained(s, orders, states, results)
    ensures SettleOrders(s, orders) == Done((states[|orders|], results))
  {
    hide SettleOrder;
    if orders != [] {
      var n := |orders| - 1;
      assert Chained(s, orders[..n], states[..n + 1], results[..n]);
      ChainSettles(s, orders[..n], states[..n + 1], results[..n]);
      assert results[..n] + [results[n]] == results;
    }
  }

  lemma {:induction false} OtherErrors(s: State, orders: seq<Order>)
    ensures SettleOrders(s, orders) != Err(BatchAlreadySettled)
  {
    if orders != [] {
      var n := |orders| - 1;
      OtherErrors(s, orders[..n]);
      forall s1 ensures SettleOrder(s1, orders[n]) != Err(BatchAlreadySettled) {
        OtherError(s1, orders[n]);
      }
      hide SettleOrder;
    }
  }

  lemma OtherError(s: State, o: Order)
    ensures SettleOrder(s, o) != Err(BatchAlreadySettled)
  {
    hide ReservesOrdered, SetReservesOrdered, PoolMath.Quotient, Fits;
  }

  /** A batch is settled if and only if it was not settled before and each of its orders
      can be settled on the state that the one before it left. It then leaves the last of
      these states, with the results stored under its id. */
  lemma BatchExactly(s: State, id: BatchId, orders: seq<Order>)
    ensures SettleBatch(s, id, orders).Done?
            <==> id !in s.results && exists states, results :: Chained(s, orders, states, results)
    ensures SettleBatch(s, id, orders).Done? ==>
              var (s', results) := SettleBatch(s, id, orders).value;
              exists states: seq<State> ::
                && Chained(s, orders, states, results)
                && s' == states[|orders|].(results := states[|orders|].results[id := results])
    ensures SettleBatch(s, id, orders) == Err(BatchAlreadySettled) <==> id in s.results
  {
    OtherErrors(s, orders);
    hide SettleOrders, SettleOrder;
    if SettleOrders(s, orders).Done? {
      SettledChain(s, orders);
    }
    forall states, results | Chained(s, orders, states, results)
      ensures SettleOrders(s, orders) == Done((states[|orders|], results))
    {
      ChainSettles(s, orders, states, results);
    }
  }

  // ----- Fees -----

  /** Exactly when a sweep of the accrued fees goes through, and what it does. */
  lemma CollectExactly(s: State, receiver: Address, token: Address)
    requires receiver != SELF
    ensures CollectFees(s, receiver, token) == Err(NotInitialized) <==> s.admin.None?
    ensures var n := Get(s.fees, token);
            CollectFees(s, receiver, token).Done?
            <==> s.admin.Some?
                 && (n > 0 ==> n <= Balance(s, token, SELF) && Fits(Balance(s, token, receiver) + n))
    ensures CollectFees(s, receiver, token).Done? ==>
              var (s', n) := CollectFees(s, receiver, token).value;
              && n == Get(s.fees, token) && s' == s.(balances := s'.balances, fees := s'.fees)
              && (n <= 0 ==> s' == s)
              && (n > 0 ==> s'.fees == s.fees[token := 0] && PaidOver(s, s', SELF, receiver, token, n, token, 0))
  {
    var n := Get(s.fees, token);
    if n > 0 {
      TransferExactly(s, token, SELF, receiver, n);
      if Transfer(s, token, SELF, receiver, n).Done? {
        var s1 := Transfer(s, token, SELF, receiver, n).value;
        TransferKeepsStorage(s, token, SELF, receiver, n);
        SameBalances(s1.(fees := s1.fees[token := 0]), s1);
      }
      hide Transfer, Balance, Fits;
    }
  }
}
