/** What a liquidity provider can and cannot get out of the settlement engine. */
module SettlementLimits {
  import opened Outcomes
  import opened Totals
  import opened PoolMath
  import opened Settlement
  import opened SettlementInvariants
  import opened SettlementRuns

  // ----- Deposit, then withdraw -----

  /** A user deposits x and y and at once withdraws the shares minted for them. */
  ghost predicate RoundTrip(s: State, user: Address, a: Address, b: Address, x: int, y: int, out: (int, int)) {
    && AddLiquidity(s, user, a, b, x, y).Done?
    && var (s1, lp) := AddLiquidity(s, user, a, b, x, y).value;
       RemoveLiquidity(s1, user, a, b, lp).Done? && RemoveLiquidity(s1, user, a, b, lp).value.1 == out
  }

  lemma RoundTripEffect(s: State, user: Address, a: Address, b: Address, x: int, y: int, out: (int, int))
    requires PoolsOk(s) && RoundTrip(s, user, a, b, x, y, out)
    ensures var (ra, rb) := ReservesOrdered(s, a, b);
            var supply := Supply(s, PoolKey(a, b));
            exists lp :: && x >= 0 && y >= 0 && lp >= 0 && supply + lp > 0
                         && GoodPool(ra, rb, supply) && out.0 >= 0 && out.1 >= 0
                         && (supply > 0 ==> lp * ra <= x * supply && lp * rb <= y * supply)
                         && PaidFor(lp, supply, ra, rb, x, y, out)
  {
    hide *;
    RoundTripCalls(s, user, a, b, x, y, out);
    AddEffect(s, user, a, b, x, y);
    GoodPoolAt(s, a, b);
    MintedShares(s, a, b, x, y);
    var (s1, lp) := AddLiquidity(s, user, a, b, x, y).value;
    RemoveEffect(s1, user, a, b, lp);
    var (ra, rb) := ReservesOrdered(s, a, b);
    PaidForIs(lp, Supply(s, PoolKey(a, b)), ra, rb, x, y, out);
    NonnegativeParts(ra, rb, Supply(s, PoolKey(a, b)));
  }

  lemma RoundTripCalls(s: State, user: Address, a: Address, b: Address, x: int, y: int, out: (int, int))
    requires RoundTrip(s, user, a, b, x, y, out)
    ensures AddLiquidity(s, user, a, b, x, y).Done?
    ensures var (s1, lp) := AddLiquidity(s, user, a, b, x, y).value;
            RemoveLiquidity(s1, user, a, b, lp).Done? && RemoveLiquidity(s1, user, a, b, lp).value.1 == out
  {
    hide AddLiquidity, RemoveLiquidity;
  }

  lemma NonnegativeParts(a: int, b: int, s: int)
    requires GoodPool(a, b, s)
    ensures a >= 0 && b >= 0 && s >= 0
  {
  }

  /** The payout for lp of the supply + lp shares of the pool after the deposit. */
  ghost predicate PaidFor(lp: int, supply: int, ra: int, rb: int, x: int, y: int, out: (int, int)) {
    && supply + lp != 0
    && out == (PoolMath.Quotient(lp * (ra + x), supply + lp), PoolMath.Quotient(lp * (rb + y), supply + lp))
  }

  lemma PaidForIs(lp: int, supply: int, ra: int, rb: int, x: int, y: int, out: (int, int))
    requires supply + lp != 0
    requires out == (PoolMath.Quotient(lp * (ra + x), supply + lp), PoolMath.Quotient(lp * (rb + y), supply + lp))
    ensures PaidFor(lp, supply, ra, rb, x, y, out)
  {
  }

  /** A deposit withdrawn at once brings no gain, exactly if the pool had shares or
      was empty: reserves without shares go to whoever deposits next. */
  lemma RoundTripNoGain(s: State, user: Address, a: Address, b: Address, x: int, y: int, out: (int, int))
    requires PoolsOk(s) && RoundTrip(s, user, a, b, x, y, out)
    ensures out.0 <= x && out.1 <= y
            <==> Supply(s, PoolKey(a, b)) > 0 || ReservesOrdered(s, a, b) == (0, 0)
    ensures Supply(s, PoolKey(a, b)) == 0
            ==> out == (ReservesOrdered(s, a, b).0 + x, ReservesOrdered(s, a, b).1 + y)
  {
    hide *;
    RoundTripEffect(s, user, a, b, x, y, out);
    var (ra, rb) := ReservesOrdered(s, a, b);
    var supply := Supply(s, PoolKey(a, b));
    var lp :| && x >= 0 && y >= 0 && lp >= 0 && supply + lp > 0
              && GoodPool(ra, rb, supply) && out.0 >= 0 && out.1 >= 0
              && (supply > 0 ==> lp * ra <= x * supply && lp * rb <= y * supply)
              && PaidFor(lp, supply, ra, rb, x, y, out);
    NonnegativeParts(ra, rb, supply);
    if supply > 0 {
      NoGain(lp, supply, ra, rb, x, y, out);
    } else {
      WholePool(lp, ra, rb, x, y, out);
    }
  }

  lemma NoGain(lp: int, supply: int, ra: int, rb: int, x: int, y: int, out: (int, int))
    requires lp >= 0 && supply > 0 && ra >= 0 && rb >= 0 && x >= 0 && y >= 0
    requires lp * ra <= x * supply && lp * rb <= y * supply && PaidFor(lp, supply, ra, rb, x, y, out)
    ensures out.0 <= x && out.1 <= y
  {
    if lp > 0 {
      RoundTripGainsNothing(ra, supply, x, lp);
      RoundTripGainsNothing(rb, supply, y, lp);
    }
  }

  lemma WholePool(lp: int, ra: int, rb: int, x: int, y: int, out: (int, int))
    requires lp > 0 && ra >= 0 && rb >= 0 && x >= 0 && y >= 0 && PaidFor(lp, 0, ra, rb, x, y, out)
    ensures out == (ra + x, rb + y)
  {
    QuotientExact(lp, ra + x);
    QuotientExact(lp, rb + y);
  }

  lemma QuotientExact(lp: int, r: int)
    requires lp > 0 && r >= 0
    ensures PoolMath.Quotient(lp * r, lp) == r
  {
    MulNonnegative(lp, r);
    var q := PoolMath.Quotient(lp * r, lp);
    QuotientBounds(lp * r, lp);
    assert r * lp == lp * r;
    CancelWeak(q, r, lp);
    Cancel(r, q + 1, lp);
  }

  // ----- Swept fees -----

  /** A user who holds all the shares of a pool is paid out all its reserves, or nothing. */
  lemma FullWithdrawal(s: State, user: Address, a: Address, b: Address)
    requires PoolsOk(s) && RemoveLiquidity(s, user, a, b, Supply(s, PoolKey(a, b))).Done?
    ensures RemoveLiquidity(s, user, a, b, Supply(s, PoolKey(a, b))).value.1 == ReservesOrdered(s, a, b)
    ensures Balance(s, a, SELF) >= ReservesOrdered(s, a, b).0
  {
    hide *;
    var pool := PoolKey(a, b);
    var lp := Supply(s, pool);
    var (ra, rb) := ReservesOrdered(s, a, b);
    RemoveEffect(s, user, a, b, lp);
    GoodPoolAt(s, a, b);
    NonnegativeParts(ra, rb, lp);
    QuotientExact(lp, ra);
    QuotientExact(lp, rb);
    FirstPayoutCovered(s, user, a, b, lp);
  }

  lemma FirstPayoutCovered(s: State, user: Address, a: Address, b: Address, lp: int)
    requires RemoveLiquidity(s, user, a, b, lp).Done?
    ensures Balance(s, a, SELF) >= RemoveLiquidity(s, user, a, b, lp).value.1.0
  {
    hide SetReservesOrdered, ReservesOrdered, Fits, PoolMath.Quotient;
    var (s', out) := RemoveLiquidity(s, user, a, b, lp).value;
    var (ra, rb) := ReservesOrdered(s, a, b);
    SetReservesEffect(s, a, b, ra - out.0, rb - out.1);
  }

  /** Once more fees of a token were swept than tokens given to the contract, the
      holder of all the shares of the one pool with that token cannot withdraw them. */
  lemma LastProviderStranded(ws: seq<World>, es: seq<Event>, k: nat, user: Address, a: Address, b: Address)
    requires IsRun(ws, es) && k < |ws|
    requires var s := ws[k].state;
             ReserveTotal(s, a) == ReservesOrdered(s, a, b).0 && Get(ws[k].swept, a) > Get(ws[k].gifts, a)
    ensures !RemoveLiquidity(ws[k].state, user, a, b, Supply(ws[k].state, PoolKey(a, b))).Done?
  {
    RunKeeps(ws, es, k);
    SolventExactly(ws, es, k, a);
    var s := ws[k].state;
    if RemoveLiquidity(s, user, a, b, Supply(s, PoolKey(a, b))).Done? {
      FullWithdrawal(s, user, a, b);
    }
  }

  // ----- A run that strands the last provider -----

  function Start(): State {
    State(Some(SELF + 3), map[], map[], map[], map[], map[],
          map[(1, SELF + 1) := 1000, (2, SELF + 1) := 1000, (1, SELF + 2) := 1000], map[(1, SELF + 2) := 1000])
  }

  function Deposited(): State {
    var s := Start();
    s.(reserves := s.reserves[(1, 2) := (1000, 1000)], supply := s.supply[(1, 2) := 1000],
       shares := s.shares[(SELF + 1, (1, 2)) := 1000],
       balances := s.balances[(1, SELF + 1) := 0][(1, SELF) := 1000][(2, SELF + 1) := 0][(2, SELF) := 1000])
  }

  function Swap(): Order {
    Order(SELF + 2, 1, 2, 1000, 0)
  }

  function Swapped(): State {
    var s := Deposited();
    s.(reserves := s.reserves[(1, 2) := (2000, 501)], fees := s.fees[1 := 3],
       results := s.results[[] := [SettlementResult(SELF + 2, 1, 2, 1000, 499, 3)]],
       balances := s.balances[(1, SELF + 2) := 0][(1, SELF) := 2000][(2, SELF) := 501][(2, SELF + 2) := 499],
       allowances := s.allowances[(1, SELF + 2) := 0])
  }

  function Swept(): State {
    var s := Swapped();
    s.(fees := s.fees[1 := 0], balances := s.balances[(1, SELF) := 1997][(1, SELF + 3) := 3])
  }

  lemma TransferGoes(s: State, token: Address, from: Address, to: Address, amount: int, has: int, had: int)
    requires from != to && Balance(s, token, from) == has >= amount >= 0 && Balance(s, token, to) == had
    requires Fits(had + amount)
    ensures Transfer(s, token, from, to, amount)
            == Done(s.(balances := s.balances[(token, from) := has - amount][(token, to) := had + amount]))
  {
  }

  lemma DepositGoes()
    ensures AddLiquidity(Start(), SELF + 1, 1, 2, 1000, 1000) == Done((Deposited(), 1000))
  {
    var s := Start();
    FirstShares(s);
    TransferGoes(s, 1, SELF + 1, SELF, 1000, 1000, 0);
    var s1 := Transfer(s, 1, SELF + 1, SELF, 1000).value;
    TransferGoes(s1, 2, SELF + 1, SELF, 1000, 1000, 0);
    var s2 := Transfer(s1, 2, SELF + 1, SELF, 1000).value;
    assert ReservesOrdered(s, 1, 2) == (0, 0) && PoolKey(1, 2) == (1, 2);
    assert SetReservesOrdered(s2, 1, 2, 1000, 1000) == s2.(reserves := s2.reserves[(1, 2) := (1000, 1000)]);
    hide Transfer, SharesFor, SetReservesOrdered, ReservesOrdered, PoolKey;
  }

  lemma FirstShares(s: State)
    requires s.supply == map[]
    ensures SharesFor(s, 1, 2, 1000, 1000) == Done(1000)
  {
    SqrtUnique(1_000_000, 1000);
  }

  lemma SwapGoes()
    ensures SettleBatch(Deposited(), [], [Swap()]).Done?
    ensures SettleBatch(Deposited(), [], [Swap()]).value.0 == Swapped()
  {
    OrderGoes();
    hide SettleOrder;
    var s, orders := Deposited(), [Swap()];
    assert orders[..0] == [] && SettleOrders(s, orders[..0]) == Done((s, []));
    var (s', r) := SettleOrder(s, orders[0]).value;
    assert SettleOrders(s, orders) == Done((s', [] + [r]));
    assert [] + [r] == [r];
    assert s'.results[[] := [r]] == Swapped().results;
  }

  lemma QuoteGoes()
    ensures QuoteSwap(Deposited(), Swap()) == Done((499, 3))
    ensures ReservesOrdered(Deposited(), 1, 2) == (1000, 1000)
  {
  }

  lemma PayInGoes()
    ensures var s := Deposited().(reserves := Swapped().reserves);
            TransferFrom(s, 1, SELF + 2, 1000)
            == Done(s.(allowances := Swapped().allowances,
                       balances := s.balances[(1, SELF + 2) := 0][(1, SELF) := 2000]))
  {
    var s := Deposited().(reserves := Swapped().reserves, allowances := Swapped().allowances);
    TransferGoes(s, 1, SELF + 2, SELF, 1000, 1000, 1000);
    hide Transfer;
  }

  lemma PayOutGoes()
    ensures var s := Deposited().(reserves := Swapped().reserves, allowances := Swapped().allowances,
                                  balances := Deposited().balances[(1, SELF + 2) := 0][(1, SELF) := 2000]);
            Transfer(s, 2, SELF, SELF + 2, 499) == Done(s.(balances := Swapped().balances))
  {
    var s := Deposited().(reserves := Swapped().reserves, allowances := Swapped().allowances,
                          balances := Deposited().balances[(1, SELF + 2) := 0][(1, SELF) := 2000]);
    TransferGoes(s, 2, SELF, SELF + 2, 499, 1000, 0);
    hide Transfer;
  }

  lemma OrderGoes()
    ensures SettleOrder(Deposited(), Swap())
            == Done((Swapped().(results := map[]), SettlementResult(SELF + 2, 1, 2, 1000, 499, 3)))
  {
    QuoteGoes();
    PayInGoes();
    PayOutGoes();
    var s := Deposited();
    assert SetReservesOrdered(s, 1, 2, 2000, 501) == s.(reserves := Swapped().reserves);
    hide Transfer, TransferFrom, QuoteSwap, SetReservesOrdered, ReservesOrdered;
  }

  lemma SweepGoes()
    ensures CollectFees(Swapped(), SELF + 3, 1) == Done((Swept(), 3))
  {
    TransferGoes(Swapped(), 1, SELF, SELF + 3, 3, 2000, 0);
    hide Transfer;
  }

  function StrandingEvents(): seq<Event> {
    [Init(SELF + 3), Approve(1, SELF + 2, 1000), Deposit(SELF + 1, 1, 2, 1000, 1000), Settle([], [Swap()]),
     Collect(SELF + 3, 1)]
  }

  function StrandingWorlds(): seq<World> {
    [World(Start().(admin := None, allowances := map[]), map[], map[]),
     World(Start().(allowances := map[]), map[], map[]), World(Start(), map[], map[]),
     World(Deposited(), map[], map[]), World(Swapped(), map[], map[]), World(Swept(), map[1 := 3], map[])]
  }

  /** One deposit, one swap and one sweep of its fee: then the provider who holds all
      1000 shares cannot withdraw them. */
  lemma SweptFeesStrandTheProvider()
    ensures var ws := StrandingWorlds();
            && IsRun(ws, StrandingEvents())
            && Get(ws[5].state.shares, (SELF + 1, (1, 2))) == Supply(ws[5].state, (1, 2)) == 1000
            && RemoveLiquidity(ws[5].state, SELF + 1, 1, 2, 1000) == Panic
  {
    DepositGoes();
    SwapGoes();
    SweepGoes();
    var ws, es := StrandingWorlds(), StrandingEvents();
    StrandedWithdrawal();
    hide AddLiquidity, SettleBatch, CollectFees, RemoveLiquidity;
    assert ws[1] == Step(ws[0], es[0]);
    assert ws[2] == Step(ws[1], es[1]);
    assert ws[3] == Step(ws[2], es[2]);
    assert ws[4] == Step(ws[3], es[3]);
    assert ws[5] == Step(ws[4], es[4]);
  }

  lemma StrandedWithdrawal()
    ensures RemoveLiquidity(Swept(), SELF + 1, 1, 2, 1000) == Panic
  {
  }

  // ----- A run that leaves reserves without shares -----

  function Fresh(): State {
    State(None, map[], map[], map[], map[], map[],
          map[(1, SELF + 1) := 5, (1, SELF + 2) := 1, (2, SELF + 2) := 1], map[])
  }

  function OneSided(): State {
    var s := Fresh();
    s.(reserves := map[(1, 2) := (5, 0)], supply := map[(1, 2) := 0], shares := map[(SELF + 1, (1, 2)) := 0],
       balances := s.balances[(1, SELF + 1) := 0][(1, SELF) := 5][(2, SELF + 1) := 0][(2, SELF) := 0])
  }

  function Taken(): State {
    var s := OneSided();
    s.(reserves := s.reserves[(1, 2) := (6, 1)], supply := s.supply[(1, 2) := 1],
       shares := s.shares[(SELF + 2, (1, 2)) := 1],
       balances := s.balances[(1, SELF + 2) := 0][(1, SELF) := 6][(2, SELF + 2) := 0][(2, SELF) := 1])
  }

  function PaidBack(): State {
    var s := Taken();
    s.(reserves := s.reserves[(1, 2) := (0, 0)], supply := s.supply[(1, 2) := 0],
       shares := s.shares[(SELF + 2, (1, 2)) := 0],
       balances := s.balances[(1, SELF) := 0][(1, SELF + 2) := 6][(2, SELF) := 0][(2, SELF + 2) := 1])
  }

  lemma OneSidedGoes()
    ensures AddLiquidity(Fresh(), SELF + 1, 1, 2, 5, 0) == Done((OneSided(), 0))
  {
    var s := Fresh();
    SqrtUnique(0, 0);
    assert SharesFor(s, 1, 2, 5, 0) == Done(0);
    TransferGoes(s, 1, SELF + 1, SELF, 5, 5, 0);
    var s1 := Transfer(s, 1, SELF + 1, SELF, 5).value;
    TransferGoes(s1, 2, SELF + 1, SELF, 0, 0, 0);
    var s2 := Transfer(s1, 2, SELF + 1, SELF, 0).value;
    assert SetReservesOrdered(s2, 1, 2, 5, 0) == s2.(reserves := map[(1, 2) := (5, 0)]);
    hide Transfer, SharesFor, SetReservesOrdered;
  }

  lemma TakenGoes()
    ensures AddLiquidity(OneSided(), SELF + 2, 1, 2, 1, 1) == Done((Taken(), 1))
  {
    var s := OneSided();
    SqrtUnique(1, 1);
    assert SharesFor(s, 1, 2, 1, 1) == Done(1);
    TransferGoes(s, 1, SELF + 2, SELF, 1, 1, 5);
    var s1 := Transfer(s, 1, SELF + 2, SELF, 1).value;
    TransferGoes(s1, 2, SELF + 2, SELF, 1, 1, 0);
    var s2 := Transfer(s1, 2, SELF + 2, SELF, 1).value;
    assert SetReservesOrdered(s2, 1, 2, 6, 1) == s2.(reserves := s2.reserves[(1, 2) := (6, 1)]);
    hide Transfer, SharesFor, SetReservesOrdered;
  }

  lemma PaidBackGoes()
    ensures RemoveLiquidity(Taken(), SELF + 2, 1, 2, 1) == Done((PaidBack(), (6, 1)))
  {
    var s := Taken();
    var s2 := s.(reserves := s.reserves[(1, 2) := (0, 0)], supply := s.supply[(1, 2) := 0],
                 shares := s.shares[(SELF + 2, (1, 2)) := 0]);
    assert SetReservesOrdered(s, 1, 2, 0, 0) == s.(reserves := s.reserves[(1, 2) := (0, 0)]);
    TransferGoes(s2, 1, SELF, SELF + 2, 6, 6, 0);
    var s3 := Transfer(s2, 1, SELF, SELF + 2, 6).value;
    TransferGoes(s3, 2, SELF, SELF + 2, 1, 1, 0);
    hide Transfer, SetReservesOrdered;
  }

  function TakingWorlds(): seq<World> {
    [World(Fresh(), map[], map[]), World(OneSided(), map[], map[]), World(Taken(), map[], map[]),
     World(PaidBack(), map[], map[])]
  }

  function TakingEvents(): seq<Event> {
    [Deposit(SELF + 1, 1, 2, 5, 0), Deposit(SELF + 2, 1, 2, 1, 1), Withdraw(SELF + 2, 1, 2, 1)]
  }

  /** A first deposit of one token only mints no shares. The next user deposits (1, 1),
      withdraws at once, and is paid (6, 1). */
  lemma ReservesWithoutShares()
    ensures var (ws, es) := (TakingWorlds(), TakingEvents());
            && IsRun(ws, es)
            && Supply(ws[1].state, (1, 2)) == 0 && ReservesOrdered(ws[1].state, 1, 2) == (5, 0)
            && RoundTrip(ws[1].state, SELF + 2, 1, 2, 1, 1, (6, 1))
            && Balance(ws[1].state, 1, SELF + 2) == 1 && Balance(ws[3].state, 1, SELF + 2) == 6
  {
    OneSidedGoes();
    TakenGoes();
    PaidBackGoes();
    var ws, es := TakingWorlds(), TakingEvents();
    hide AddLiquidity, RemoveLiquidity;
    assert ws[1] == Step(ws[0], es[0]);
    assert ws[2] == Step(ws[1], es[1]);
    assert ws[3] == Step(ws[2], es[2]);
  }
}
