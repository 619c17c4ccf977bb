/** When a withdrawal of pool shares goes through. */
module Withdrawals {
  import opened Outcomes
  import opened Totals
  import opened PoolMath
  import opened Settlement
  import opened SettlementInvariants
  import opened SettlementRuns
  import opened Payments

  // ----- Stored numbers fit -----

  ghost predicate ReservesFit(s: State) {
    forall k :: k in s.reserves ==> Fits(s.reserves[k].0) && Fits(s.reserves[k].1)
  }

  ghost predicate SharesFit(s: State) {
    && (forall k :: k in s.supply ==> Fits(s.supply[k]))
    && (forall k :: k in s.shares ==> Fits(s.shares[k]))
  }

  /** Every reserve, supply and balance of shares in the storage is an i128. */
  ghost predicate BooksFit(s: State) {
    ReservesFit(s) && SharesFit(s)
  }

  lemma SetReservesFit(s: State, a: Address, b: Address, ra: int, rb: int)
    requires ReservesFit(s) && Fits(ra) && Fits(rb)
    ensures ReservesFit(SetReservesOrdered(s, a, b, ra, rb))
  {
  }

  lemma AddFits(s: State, user: Address, a: Address, b: Address, x: int, y: int)
    requires BooksFit(s) && AddLiquidity(s, user, a, b, x, y).Done?
    ensures BooksFit(AddLiquidity(s, user, a, b, x, y).value.0)
  {
    hide Transfer, SharesFor, SetReservesOrdered, ReservesOrdered, Fits;
    var (ra, rb) := ReservesOrdered(s, a, b);
    var s1 := Transfer(s, a, user, SELF, x).value;
    var s2 := Transfer(s1, b, user, SELF, y).value;
    TransferKeepsStorage(s, a, user, SELF, x);
    TransferKeepsStorage(s1, b, user, SELF, y);
    SetReservesFit(s2, a, b, ra + x, rb + y);
    SetReservesEffect(s2, a, b, ra + x, rb + y);
  }

  lemma RemoveFits(s: State, user: Address, a: Address, b: Address, lp: int)
    requires BooksFit(s) && RemoveLiquidity(s, user, a, b, lp).Done?
    ensures BooksFit(RemoveLiquidity(s, user, a, b, lp).value.0)
  {
    hide Transfer, SetReservesOrdered, ReservesOrdered, Fits, PoolMath.Quotient;
    var (s', out) := RemoveLiquidity(s, user, a, b, lp).value;
    var (ra, rb) := ReservesOrdered(s, a, b);
    var pool := PoolKey(a, b);
    var s1 := SetReservesOrdered(s, a, b, ra - out.0, rb - out.1);
    SetReservesFit(s, a, b, ra - out.0, rb - out.1);
    SetReservesEffect(s, a, b, ra - out.0, rb - out.1);
    var s2 := s1.(supply := s1.supply[pool := Get(s.supply, pool) - lp],
                  shares := s1.shares[(user, pool) := Get(s.shares, (user, pool)) - lp]);
    var s3 := Transfer(s2, a, SELF, user, out.0).value;
    TransferKeepsStorage(s2, a, SELF, user, out.0);
    TransferKeepsStorage(s3, b, SELF, user, out.1);
  }

  lemma OrderFits(s: State, o: Order)
    requires BooksFit(s) && SettleOrder(s, o).Done?
    ensures BooksFit(SettleOrder(s, o).value.0)
  {
    hide Transfer, QuoteSwap, SetReservesOrdered, ReservesOrdered, Fits;
    var (s', r) := SettleOrder(s, o).value;
    var (rIn, rOut) := ReservesOrdered(s, o.tokenIn, o.tokenOut);
    var s1 := SetReservesOrdered(s, o.tokenIn, o.tokenOut, rIn + o.amountIn, rOut - r.amountOut);
    SetReservesFit(s, o.tokenIn, o.tokenOut, rIn + o.amountIn, rOut - r.amountOut);
    SetReservesEffect(s, o.tokenIn, o.tokenOut, rIn + o.amountIn, rOut - r.amountOut);
    var allowed := Get(s1.allowances, (o.tokenIn, o.user));
    var s1' := s1.(allowances := s1.allowances[(o.tokenIn, o.user) := allowed - o.amountIn]);
    var s2 := Transfer(s1', o.tokenIn, o.user, SELF, o.amountIn).value;
    TransferKeepsStorage(s1', o.tokenIn, o.user, SELF, o.amountIn);
    TransferKeepsStorage(s2, o.tokenOut, SELF, o.user, r.amountOut);
  }

  lemma {:induction false} OrdersFit(s: State, orders: seq<Order>)
    requires BooksFit(s) && SettleOrders(s, orders).Done?
    ensures BooksFit(SettleOrders(s, orders).value.0)
  {
    if orders != [] {
      var n := |orders| - 1;
      SettleOrdersLast(s, orders, n);
      hide *;
      OrdersFit(s, orders[..n]);
      OrderFits(SettleOrders(s, orders[..n]).value.0, orders[n]);
    }
  }

  lemma StepFits(w: World, e: Event)
    requires BooksFit(w.state)
    ensures BooksFit(Step(w, e).state)
  {
    var s := w.state;
    hide AddLiquidity, RemoveLiquidity, SettleOrders, Transfer, Fits;
    match e
    case Deposit(user, a, b, x, y) =>
      if AddLiquidity(s, user, a, b, x, y).Done? {
        AddFits(s, user, a, b, x, y);
      }
    case Withdraw(user, a, b, lp) =>
      if RemoveLiquidity(s, user, a, b, lp).Done? {
        RemoveFits(s, user, a, b, lp);
      }
    case Settle(id, orders) =>
      if SettleBatch(s, id, orders).Done? {
        BatchEffect(s, id, orders);
        OrdersFit(s, orders);
      }
    case Collect(receiver, token) =>
      if Transfer(s, token, SELF, receiver, Get(s.fees, token)).Done? {
        TransferKeepsStorage(s, token, SELF, receiver, Get(s.fees, token));
      }
    case _ =>
  }

  lemma {:induction false} RunFits(ws: seq<World>, es: seq<Event>, k: nat)
    requires IsRun(ws, es) && k < |ws|
    ensures BooksFit(ws[k].state)
  {
    hide Step, Allowed, Fits;
    if k > 0 {
      RunFits(ws, es, k - 1);
      StepFits(ws[k - 1], es[k - 1]);
    }
  }

  // ----- One withdrawal -----

  /** What lp of the pool's shares are worth. */
  function Payout(s: State, a: Address, b: Address, lp: int): (int, int) {
    var ((ra, rb), supply) := (ReservesOrdered(s, a, b), Supply(s, PoolKey(a, b)));
    if supply == 0 then (0, 0) else (PoolMath.Quotient(lp * ra, supply), PoolMath.Quotient(lp * rb, supply))
  }

  /** The contract has the two amounts. */
  predicate Covers(s: State, a: Address, b: Address, out: (int, int)) {
    CanPay(s, SELF, a, out.0, b, out.1)
  }

  /** The products are i128 numbers, and so are the user's balances afterwards. */
  predicate NoOverflow(s: State, user: Address, a: Address, b: Address, lp: int) {
    var ((ra, rb), out) := (ReservesOrdered(s, a, b), Payout(s, a, b, lp));
    Fits(lp * ra) && Fits(lp * rb) && CanTake(s, user, a, out.0, b, out.1)
  }

  /** The proportional share of a reserve, rounded down. */
  ghost predicate IsShare(lp: int, r: int, supply: int, out: int) {
    out * supply <= lp * r < (out + 1) * supply
  }

  /** The user was paid its shares of the two reserves for lp shares of the pool, and
      nothing else happened. */
  ghost predicate Withdrawn(s: State, s': State, user: Address, a: Address, b: Address, lp: int, out: (int, int)) {
    var ((ra, rb), pool) := (ReservesOrdered(s, a, b), PoolKey(a, b));
    && IsShare(lp, ra, Supply(s, pool), out.0) && IsShare(lp, rb, Supply(s, pool), out.1)
    && PaidOver(s, s', SELF, user, a, out.0, b, out.1) && s'.allowances == s.allowances
    && ReservesOrdered(s', a, b) == (ra - out.0, rb - out.1) && Supply(s', pool) == Supply(s, pool) - lp
    && OnlyPool(s, s', pool) && s'.shares == s.shares[(user, pool) := Get(s.shares, (user, pool)) - lp]
    && s'.fees == s.fees && s'.results == s.results && s'.admin == s.admin
  }

  /** Exactly when a withdrawal goes through, and what it does. */
  lemma WithdrawalExactly(s: State, user: Address, a: Address, b: Address, lp: int)
    requires PoolsOk(s) && SharesNonnegative(s) && SuppliesCovered(s) && BooksFit(s) && user != SELF
    ensures RemoveLiquidity(s, user, a, b, lp).Done?
            <==> && 0 <= lp <= Get(s.shares, (user, PoolKey(a, b))) && Supply(s, PoolKey(a, b)) > 0
                 && NoOverflow(s, user, a, b, lp) && Covers(s, a, b, Payout(s, a, b, lp))
    ensures RemoveLiquidity(s, user, a, b, lp).Done? ==>
              var (s', out) := RemoveLiquidity(s, user, a, b, lp).value;
              out == Payout(s, a, b, lp) && Withdrawn(s, s', user, a, b, lp, out)
    ensures RemoveLiquidity(s, user, a, b, lp) == Err(InsufficientLiquidity)
            <==> lp > Get(s.shares, (user, PoolKey(a, b)))
    ensures RemoveLiquidity(s, user, a, b, lp) == Err(EmptyPool)
            <==> lp <= Get(s.shares, (user, PoolKey(a, b))) && Supply(s, PoolKey(a, b)) == 0
  {
    WithdrawalErrors(s, user, a, b, lp);
    if RemoveLiquidity(s, user, a, b, lp).Done? {
      WithdrawalDoes(s, user, a, b, lp);
    }
    hide Withdrawn, RemoveLiquidity;
    HolderBound(s, user, PoolKey(a, b));
    GoodPoolAt(s, a, b);
    if lp < 0 {
      NegativeWithdrawalReverts(s, user, a, b, lp);
    } else if lp <= Get(s.shares, (user, PoolKey(a, b))) && Supply(s, PoolKey(a, b)) > 0 {
      HeldWithdrawal(s, user, a, b, lp);
    }
  }

  lemma WithdrawalErrors(s: State, user: Address, a: Address, b: Address, lp: int)
    ensures RemoveLiquidity(s, user, a, b, lp) == Err(InsufficientLiquidity)
            <==> lp > Get(s.shares, (user, PoolKey(a, b)))
    ensures RemoveLiquidity(s, user, a, b, lp) == Err(EmptyPool)
            <==> lp <= Get(s.shares, (user, PoolKey(a, b))) && Supply(s, PoolKey(a, b)) == 0
  {
    hide SetReservesOrdered, ReservesOrdered, PoolMath.Quotient, Fits, PoolKey;
  }

  lemma HeldWithdrawal(s: State, user: Address, a: Address, b: Address, lp: int)
    requires BooksFit(s) && user != SELF
    requires 0 <= lp <= Get(s.shares, (user, PoolKey(a, b))) <= Supply(s, PoolKey(a, b))
    requires Supply(s, PoolKey(a, b)) > 0 && ReservesOrdered(s, a, b).0 >= 0 && ReservesOrdered(s, a, b).1 >= 0
    ensures RemoveLiquidity(s, user, a, b, lp).Done?
            <==> NoOverflow(s, user, a, b, lp) && Covers(s, a, b, Payout(s, a, b, lp))
    ensures RemoveLiquidity(s, user, a, b, lp).Done? ==>
              RemoveLiquidity(s, user, a, b, lp).value.1 == Payout(s, a, b, lp)
  {
    hide *;
    var (x, y) := Payout(s, a, b, lp);
    BooksFitHere(s, user, a, b, lp);
    PayoutFits(s, a, b, lp);
    PaidOut(s, user, a, b, lp);
    TwoPayments(Booked(s, user, a, b, lp), SELF, user, a, x, b, y);
    SameLedgers(s, Booked(s, user, a, b, lp), user, a, b, x, y);
    OverflowIs(s, user, a, b, lp);
  }

  /** The books after the withdrawal, before anything is paid. */
  function Booked(s: State, user: Address, a: Address, b: Address, lp: int): State {
    var ((ra, rb), (x, y), pool) := (ReservesOrdered(s, a, b), Payout(s, a, b, lp), PoolKey(a, b));
    var s1 := SetReservesOrdered(s, a, b, ra - x, rb - y);
    s1.(supply := s1.supply[pool := Supply(s, pool) - lp],
        shares := s1.shares[(user, pool) := Get(s.shares, (user, pool)) - lp])
  }

  lemma PaidOut(s: State, user: Address, a: Address, b: Address, lp: int)
    requires lp <= Get(s.shares, (user, PoolKey(a, b))) && Supply(s, PoolKey(a, b)) != 0
    requires Fits(Supply(s, PoolKey(a, b)) - lp) && Fits(Get(s.shares, (user, PoolKey(a, b))) - lp)
    requires var ((ra, rb), (x, y)) := (ReservesOrdered(s, a, b), Payout(s, a, b, lp));
             Fits(x) && Fits(y) && Fits(ra - x) && Fits(rb - y)
    ensures var ((ra, rb), (x, y), s2) := (ReservesOrdered(s, a, b), Payout(s, a, b, lp), Booked(s, user, a, b, lp));
            && s2.balances == s.balances
            && (RemoveLiquidity(s, user, a, b, lp).Done?
                <==> && Fits(lp * ra) && Fits(lp * rb) && Transfer(s2, a, SELF, user, x).Done?
                     && Transfer(Transfer(s2, a, SELF, user, x).value, b, SELF, user, y).Done?)
            && (RemoveLiquidity(s, user, a, b, lp).Done? ==>
                  RemoveLiquidity(s, user, a, b, lp).value.1 == (x, y))
  {
    hide Transfer, ReservesOrdered, PoolKey, Fits, PoolMath.Quotient;
    var ((ra, rb), (x, y)) := (ReservesOrdered(s, a, b), Payout(s, a, b, lp));
    SetReservesEffect(s, a, b, ra - x, rb - y);
  }

  lemma PayoutFits(s: State, a: Address, b: Address, lp: int)
    requires 0 <= lp <= Supply(s, PoolKey(a, b)) && Supply(s, PoolKey(a, b)) > 0
    requires ReservesOrdered(s, a, b).0 >= 0 && ReservesOrdered(s, a, b).1 >= 0
    requires Fits(ReservesOrdered(s, a, b).0) && Fits(ReservesOrdered(s, a, b).1)
    ensures var ((ra, rb), (x, y)) := (ReservesOrdered(s, a, b), Payout(s, a, b, lp));
            0 <= x <= ra && 0 <= y <= rb && Fits(x) && Fits(y) && Fits(ra - x) && Fits(rb - y)
    ensures lp == Supply(s, PoolKey(a, b)) ==> Payout(s, a, b, lp) == ReservesOrdered(s, a, b)
  {
    hide ReservesOrdered, PoolKey, PoolMath.Quotient;
    PayoutBounds(lp, ReservesOrdered(s, a, b).0, Supply(s, PoolKey(a, b)));
    PayoutBounds(lp, ReservesOrdered(s, a, b).1, Supply(s, PoolKey(a, b)));
  }

  lemma OverflowIs(s: State, user: Address, a: Address, b: Address, lp: int)
    ensures var ((ra, rb), (x, y)) := (ReservesOrdered(s, a, b), Payout(s, a, b, lp));
            && (NoOverflow(s, user, a, b, lp) <==> Fits(lp * ra) && Fits(lp * rb) && CanTake(s, user, a, x, b, y))
            && (Covers(s, a, b, (x, y)) <==> CanPay(s, SELF, a, x, b, y))
  {
    hide Payout, Fits, CanTake, CanPay, ReservesOrdered;
  }

  lemma SameLedgers(s: State, s': State, user: Address, a: Address, b: Address, x: int, y: int)
    requires s'.balances == s.balances
    ensures CanPay(s', SELF, a, x, b, y) == CanPay(s, SELF, a, x, b, y)
    ensures CanTake(s', user, a, x, b, y) == CanTake(s, user, a, x, b, y)
  {
  }

  /** The payments of a withdrawal, on whatever ledgers. */
  lemma WithdrawalPays(s: State, user: Address, a: Address, b: Address, lp: int)
    requires user != SELF && RemoveLiquidity(s, user, a, b, lp).Done?
    ensures var (s', out) := RemoveLiquidity(s, user, a, b, lp).value;
            PaidOver(s, s', SELF, user, a, out.0, b, out.1) && s'.allowances == s.allowances
  {
    hide Transfer, SetReservesOrdered, ReservesOrdered, Fits, PoolMath.Quotient, PaidOver, CanPay, CanTake;
    var (s', out) := RemoveLiquidity(s, user, a, b, lp).value;
    var (ra, rb) := ReservesOrdered(s, a, b);
    var s1 := SetReservesOrdered(s, a, b, ra - out.0, rb - out.1);
    SetReservesEffect(s, a, b, ra - out.0, rb - out.1);
    var s2 := s1.(supply := s1.supply[PoolKey(a, b) := Get(s.supply, PoolKey(a, b)) - lp],
                  shares := s1.shares[(user, PoolKey(a, b)) := Get(s.shares, (user, PoolKey(a, b))) - lp]);
    TransferKeepsStorage(s2, a, SELF, user, out.0);
    TransferKeepsStorage(Transfer(s2, a, SELF, user, out.0).value, b, SELF, user, out.1);
    TwoPayments(s2, SELF, user, a, out.0, b, out.1);
    SamePaymentsFrom(s, s2, s', SELF, user, a, out.0, b, out.1);
  }

  lemma SamePaymentsFrom(s: State, s1: State, s': State, from: Address, to: Address, a: Address, x: int, b: Address,
                         y: int)
    requires PaidOver(s1, s', from, to, a, x, b, y) && s1.balances == s.balances
    ensures PaidOver(s, s', from, to, a, x, b, y)
  {
    forall t: Address, h: Address ensures Balance(s1, t, h) == Balance(s, t, h) {
    }
  }

  lemma WithdrawalDoes(s: State, user: Address, a: Address, b: Address, lp: int)
    requires PoolsOk(s) && user != SELF && RemoveLiquidity(s, user, a, b, lp).Done?
    ensures var (s', out) := RemoveLiquidity(s, user, a, b, lp).value;
            Withdrawn(s, s', user, a, b, lp, out)
  {
    hide RemoveLiquidity, PaidOver, ReservesOrdered, PoolKey, PoolsOk, OnlyPool, IsShare, PoolMath.Quotient;
    RemoveEffect(s, user, a, b, lp);
    WithdrawalPays(s, user, a, b, lp);
    WithdrawnShares(s, user, a, b, lp);
  }

  lemma WithdrawnShares(s: State, user: Address, a: Address, b: Address, lp: int)
    requires PoolsOk(s) && RemoveLiquidity(s, user, a, b, lp).Done?
    ensures var (out, (ra, rb), supply) := (RemoveLiquidity(s, user, a, b, lp).value.1, ReservesOrdered(s, a, b),
                                            Supply(s, PoolKey(a, b)));
            IsShare(lp, ra, supply, out.0) && IsShare(lp, rb, supply, out.1)
  {
    var ((ra, rb), supply) := (ReservesOrdered(s, a, b), Supply(s, PoolKey(a, b)));
    RemoveEffect(s, user, a, b, lp);
    GoodPoolAt(s, a, b);
    if lp < 0 {
      NegativeWithdrawalReverts(s, user, a, b, lp);
    } else {
      hide RemoveLiquidity, ReservesOrdered, PoolKey, PoolsOk;
      ShareOf(lp, ra, supply);
      ShareOf(lp, rb, supply);
    }
  }

  lemma ShareOf(lp: int, r: int, supply: int)
    requires lp >= 0 && r >= 0 && supply > 0
    ensures IsShare(lp, r, supply, PoolMath.Quotient(lp * r, supply))
  {
    MulNonnegative(lp, r);
    QuotientBounds(lp * r, supply);
  }

  lemma BooksFitHere(s: State, user: Address, a: Address, b: Address, lp: int)
    requires BooksFit(s) && 0 <= lp <= Get(s.shares, (user, PoolKey(a, b))) <= Supply(s, PoolKey(a, b))
    ensures Fits(ReservesOrdered(s, a, b).0) && Fits(ReservesOrdered(s, a, b).1)
    ensures Fits(Supply(s, PoolKey(a, b)) - lp) && Fits(Get(s.shares, (user, PoolKey(a, b))) - lp)
  {
  }

  /** A share of a reserve is at most the reserve. */
  lemma PayoutBounds(lp: int, r: int, supply: int)
    requires 0 <= lp <= supply && supply > 0 && r >= 0
    ensures 0 <= PoolMath.Quotient(lp * r, supply) <= r
    ensures lp == supply ==> PoolMath.Quotient(lp * r, supply) == r
  {
    MulNonnegative(lp, r);
    QuotientBounds(lp * r, supply);
    var q := PoolMath.Quotient(lp * r, supply);
    MulMono(lp, supply, r);
    assert supply * r == r * supply;
    CancelWeak(q, r, supply);
    if lp == supply {
      Cancel(r, q + 1, supply);
    }
  }

  // ----- Over runs -----

  /** The reserves of one pool are among the reserves of its tokens. */
  lemma ReserveBound(s: State, a: Address, b: Address)
    requires PoolsOk(s)
    ensures var (ra, rb) := ReservesOrdered(s, a, b);
            if a == b then ReserveTotal(s, a) >= ra + rb else ReserveTotal(s, a) >= ra && ReserveTotal(s, b) >= rb
  {
    PoolInTotal(s, PoolKey(a, b), a);
    PoolInTotal(s, PoolKey(a, b), b);
  }

  lemma PoolInTotal(s: State, pool: Pool, t: Address)
    requires PoolsOk(s)
    ensures ReserveTotal(s, t) >= Contribution(pool, ReservesAt(s, pool), t)
  {
    var held := HeldOf(s.reserves, t);
    forall k | k in held ensures held[k] >= 0 {
      assert PoolOk(s, k);
    }
    TotalBound(held, pool);
  }

  /** As long as no more fees of its two tokens were swept than tokens given to the
      contract, a pool pays every holder of shares, unless a number overflows. */
  lemma ProvidersArePaid(ws: seq<World>, es: seq<Event>, k: nat, user: Address, a: Address, b: Address, lp: int)
    requires IsRun(ws, es) && k < |ws| && user != SELF
    requires Get(ws[k].swept, a) <= Get(ws[k].gifts, a) && Get(ws[k].swept, b) <= Get(ws[k].gifts, b)
    ensures var s := ws[k].state;
            RemoveLiquidity(s, user, a, b, lp).Done?
            <==> && 0 <= lp <= Get(s.shares, (user, PoolKey(a, b))) && Supply(s, PoolKey(a, b)) > 0
                 && NoOverflow(s, user, a, b, lp)
  {
    hide *;
    var s := ws[k].state;
    RunFacts(ws, es, k);
    SolventExactly(ws, es, k, a);
    SolventExactly(ws, es, k, b);
    WithdrawalExactly(s, user, a, b, lp);
    if 0 <= lp <= Get(s.shares, (user, PoolKey(a, b))) && Supply(s, PoolKey(a, b)) > 0 {
      SolventCovers(s, user, a, b, lp);
    }
  }

  lemma RunFacts(ws: seq<World>, es: seq<Event>, k: nat)
    requires IsRun(ws, es) && k < |ws|
    ensures var s := ws[k].state;
            PoolsOk(s) && SharesNonnegative(s) && SuppliesCovered(s) && BooksFit(s)
  {
    RunKeeps(ws, es, k);
    RunFits(ws, es, k);
  }

  lemma SolventCovers(s: State, user: Address, a: Address, b: Address, lp: int)
    requires PoolsOk(s) && SharesNonnegative(s) && SuppliesCovered(s) && BooksFit(s)
    requires Balance(s, a, SELF) >= ReserveTotal(s, a) && Balance(s, b, SELF) >= ReserveTotal(s, b)
    requires 0 <= lp <= Get(s.shares, (user, PoolKey(a, b))) && Supply(s, PoolKey(a, b)) > 0
    ensures Covers(s, a, b, Payout(s, a, b, lp))
  {
    GoodPoolAt(s, a, b);
    HolderBound(s, user, PoolKey(a, b));
    BooksFitHere(s, user, a, b, lp);
    PayoutFits(s, a, b, lp);
    ReserveBound(s, a, b);
    hide Payout, ReservesOrdered, PoolKey, ReserveTotal, PoolsOk, SharesNonnegative, SuppliesCovered, BooksFit;
  }

  /** The holder of all shares of the one pool with its tokens can withdraw them exactly
      if no more fees of either token were swept than tokens given to the contract. */
  lemma LastProviderExactly(ws: seq<World>, es: seq<Event>, k: nat, user: Address, a: Address, b: Address)
    requires IsRun(ws, es) && k < |ws| && user != SELF && a != b
    requires var (s, pool) := (ws[k].state, PoolKey(a, b));
             && (ReserveTotal(s, a), ReserveTotal(s, b)) == ReservesOrdered(s, a, b)
             && Get(s.shares, (user, pool)) == Supply(s, pool) > 0 && NoOverflow(s, user, a, b, Supply(s, pool))
    ensures RemoveLiquidity(ws[k].state, user, a, b, Supply(ws[k].state, PoolKey(a, b))).Done?
            <==> Get(ws[k].swept, a) <= Get(ws[k].gifts, a) && Get(ws[k].swept, b) <= Get(ws[k].gifts, b)
  {
    var s := ws[k].state;
    RunFacts(ws, es, k);
    SolventExactly(ws, es, k, a);
    SolventExactly(ws, es, k, b);
    GoodPoolAt(s, a, b);
    BooksFitHere(s, user, a, b, Supply(s, PoolKey(a, b)));
    PayoutFits(s, a, b, Supply(s, PoolKey(a, b)));
    WithdrawalExactly(s, user, a, b, Supply(s, PoolKey(a, b)));
    hide Payout, ReservesOrdered, PoolKey, ReserveTotal, PoolsOk, SharesNonnegative, SuppliesCovered, BooksFit,
         RemoveLiquidity, IsRun, NoOverflow, Balance;
  }
}
