/** Whole runs of the settlement engine, interleaved with other users of the tokens. */
module SettlementRuns {
  import opened Outcomes
  import opened Totals
  import opened PoolMath
  import opened Settlement
  import opened SettlementInvariants

  // ----- What the contract holds -----

  /** What the pool holds of token t. */
  function Contribution(pool: Pool, r: (int, int), t: Address): int {
    (if pool.0 == t then r.0 else 0) + (if pool.1 == t then r.1 else 0)
  }

  function HeldOf(reserves: map<Pool, (int, int)>, t: Address): map<Pool, int> {
    map k | k in reserves :: Contribution(k, reserves[k], t)
  }

  /** The sum of the reserves of token t over all pools. */
  ghost function ReserveTotal(s: State, t: Address): int {
    Total(HeldOf(s.reserves, t))
  }

  /** By how much the contract's balance of t exceeds the reserves. */
  ghost function Margin(s: State, t: Address): int {
    Balance(s, t, SELF) - ReserveTotal(s, t)
  }

  lemma SetReservesTotal(s: State, a: Address, b: Address, ra: int, rb: int, t: Address)
    ensures var (x, y) := ReservesOrdered(s, a, b);
            ReserveTotal(SetReservesOrdered(s, a, b, ra, rb), t)
            == ReserveTotal(s, t) + (if a == t then ra - x else 0) + (if b == t then rb - y else 0)
  {
    var s', pool := SetReservesOrdered(s, a, b, ra, rb), PoolKey(a, b);
    assert HeldOf(s'.reserves, t) == HeldOf(s.reserves, t)[pool := Contribution(pool, s'.reserves[pool], t)];
    TotalUpdate(HeldOf(s.reserves, t), pool, Contribution(pool, s'.reserves[pool], t));
  }

  lemma TransferMoves(s: State, token: Address, from: Address, to: Address, amount: int, t: Address)
    requires Transfer(s, token, from, to, amount).Done? && from != to
    ensures var s' := Transfer(s, token, from, to, amount).value;
            Balance(s', t, SELF) == Balance(s, t, SELF)
              + if t != token then 0 else if to == SELF then amount else if from == SELF then -amount else 0
  {
  }

  lemma AddMargin(s: State, user: Address, a: Address, b: Address, x: int, y: int, t: Address)
    requires user != SELF && AddLiquidity(s, user, a, b, x, y).Done?
    ensures Margin(AddLiquidity(s, user, a, b, x, y).value.0, t) == Margin(s, t)
  {
    hide Transfer, SharesFor, SetReservesOrdered, ReservesOrdered, Fits, HeldOf;
    var s' := AddLiquidity(s, user, a, b, x, y).value.0;
    var (ra, rb) := ReservesOrdered(s, a, b);
    var s1 := Transfer(s, a, user, SELF, x).value;
    var s2 := Transfer(s1, b, user, SELF, y).value;
    TransferMoves(s, a, user, SELF, x, t);
    TransferMoves(s1, b, user, SELF, y, t);
    TransferKeepsStorage(s, a, user, SELF, x);
    TransferKeepsStorage(s1, b, user, SELF, y);
    SetReservesTotal(s2, a, b, ra + x, rb + y, t);
    SetReservesEffect(s2, a, b, ra + x, rb + y);
    SameReserves(s, s2, a, b);
  }

  lemma RemoveMargin(s: State, user: Address, a: Address, b: Address, lp: int, t: Address)
    requires user != SELF && RemoveLiquidity(s, user, a, b, lp).Done?
    ensures Margin(RemoveLiquidity(s, user, a, b, lp).value.0, t) == Margin(s, t)
  {
    hide Transfer, SetReservesOrdered, ReservesOrdered, Fits, HeldOf, PoolMath.Quotient;
    var (s', out) := RemoveLiquidity(s, user, a, b, lp).value;
    var (ra, rb) := ReservesOrdered(s, a, b);
    var pool := PoolKey(a, b);
    var s1 := SetReservesOrdered(s, a, b, ra - out.0, rb - out.1);
    SetReservesTotal(s, a, b, ra - out.0, rb - out.1, t);
    SetReservesEffect(s, a, b, ra - out.0, rb - out.1);
    var s2 := s1.(supply := s1.supply[pool := Get(s.supply, pool) - lp],
                  shares := s1.shares[(user, pool) := Get(s.shares, (user, pool)) - lp]);
    var s3 := Transfer(s2, a, SELF, user, out.0).value;
    TransferMoves(s2, a, SELF, user, out.0, t);
    TransferMoves(s3, b, SELF, user, out.1, t);
    TransferKeepsStorage(s2, a, SELF, user, out.0);
    TransferKeepsStorage(s3, b, SELF, user, out.1);
  }

  lemma SettleMargin(s: State, o: Order, t: Address)
    requires o.user != SELF && SettleOrder(s, o).Done?
    ensures Margin(SettleOrder(s, o).value.0, t) == Margin(s, t)
  {
    hide Transfer, QuoteSwap, SetReservesOrdered, ReservesOrdered, Fits, HeldOf;
    var (s', r) := SettleOrder(s, o).value;
    var (rIn, rOut) := ReservesOrdered(s, o.tokenIn, o.tokenOut);
    var s1 := SetReservesOrdered(s, o.tokenIn, o.tokenOut, rIn + o.amountIn, rOut - r.amountOut);
    SetReservesTotal(s, o.tokenIn, o.tokenOut, rIn + o.amountIn, rOut - r.amountOut, t);
    SetReservesEffect(s, o.tokenIn, o.tokenOut, rIn + o.amountIn, rOut - r.amountOut);
    var allowed := Get(s1.allowances, (o.tokenIn, o.user));
    var s1' := s1.(allowances := s1.allowances[(o.tokenIn, o.user) := allowed - o.amountIn]);
    var s2 := Transfer(s1', o.tokenIn, o.user, SELF, o.amountIn).value;
    TransferMoves(s1', o.tokenIn, o.user, SELF, o.amountIn, t);
    TransferMoves(s2, o.tokenOut, SELF, o.user, r.amountOut, t);
    TransferKeepsStorage(s1', o.tokenIn, o.user, SELF, o.amountIn);
    TransferKeepsStorage(s2, o.tokenOut, SELF, o.user, r.amountOut);
  }

  // ----- Batches -----

  function FeesIn(rs: seq<SettlementResult>, t: Address): int {
    if rs == [] then 0
    else
      var r := rs[|rs| - 1];
      FeesIn(rs[..|rs| - 1], t) + if r.tokenIn == t then r.fee else 0
  }

  /** The order was quoted on state s. */
  ghost predicate QuotedOn(s: State, o: Order, r: SettlementResult) {
    && QuoteSwap(s, o).Done? && QuoteSwap(s, o).value.0 == r.amountOut && QuoteSwap(s, o).value.1 == r.fee
    && r == SettlementResult(o.user, o.tokenIn, o.tokenOut, o.amountIn, r.amountOut, r.fee)
    && o.minAmountOut <= r.amountOut < ReservesOrdered(s, o.tokenIn, o.tokenOut).1
    && 0 <= r.fee <= o.amountIn
  }

  /** The product of a pool's reserves does not fall. */
  ghost predicate ProductKept(s: State, s': State, pool: Pool) {
    var ((a, b), (a', b')) := (ReservesAt(s, pool), ReservesAt(s', pool));
    a' * b' >= a * b
  }

  ghost predicate NoneIsSelf(orders: seq<Order>) {
    forall k :: 0 <= k < |orders| ==> orders[k].user != SELF
  }

  /** What a list of settled orders keeps, and how its results arose. */
  ghost predicate OrdersSettled(s: State, s': State, rs: seq<SettlementResult>) {
    && PoolsOk(s') && s'.supply == s.supply && s'.shares == s.shares && s'.results == s.results && s'.admin == s.admin
    && (forall t: Address :: Margin(s', t) == Margin(s, t))
    && (forall t: Address :: Get(s'.fees, t) == Get(s.fees, t) + FeesIn(rs, t) && FeesIn(rs, t) >= 0)
    && (forall pool: Pool :: ProductKept(s, s', pool))
  }

  lemma ProductKeptOrdered(s: State, s': State, a: Address, b: Address)
    ensures var ((x, y), (x', y')) := (ReservesOrdered(s, a, b), ReservesOrdered(s', a, b));
            ProductKept(s, s', PoolKey(a, b)) <==> x' * y' >= x * y
  {
    var ((p, q), (p', q')) := (ReservesAt(s, PoolKey(a, b)), ReservesAt(s', PoolKey(a, b)));
    assert p * q == q * p && p' * q' == q' * p';
  }

  lemma OrderSettled(s: State, o: Order)
    requires PoolsOk(s) && o.user != SELF && SettleOrder(s, o).Done?
    ensures OrdersSettled(s, SettleOrder(s, o).value.0, [SettleOrder(s, o).value.1])
    ensures QuotedOn(s, o, SettleOrder(s, o).value.1)
  {
    var (s', r) := SettleOrder(s, o).value;
    SettleEffect(s, o);
    SettledOrder(s, o);
    SettleKeeps(s, o);
    ProductKeptOrdered(s, s', o.tokenIn, o.tokenOut);
    hide SettleOrder, QuoteSwap, ReservesOrdered, PoolsOk, Margin, SetReservesOrdered;
    forall t: Address
      ensures Margin(s', t) == Margin(s, t)
      ensures Get(s'.fees, t) == Get(s.fees, t) + FeesIn([r], t) && FeesIn([r], t) >= 0
    {
      SettleMargin(s, o, t);
      assert FeesIn([r], t) == FeesIn([r][..0], t) + if r.tokenIn == t then r.fee else 0;
    }
    forall pool: Pool ensures ProductKept(s, s', pool) {
      if pool != PoolKey(o.tokenIn, o.tokenOut) {
        assert ReservesAt(s', pool) == ReservesAt(s, pool);
      }
    }
  }

  lemma OrdersSettledThen(s: State, s': State, s'': State, rs: seq<SettlementResult>, r: SettlementResult)
    requires OrdersSettled(s, s', rs) && OrdersSettled(s', s'', [r])
    ensures OrdersSettled(s, s'', rs + [r])
  {
    hide Margin, PoolsOk, ReservesAt;
    assert (rs + [r])[..|rs|] == rs && [r][..0] == [];
    forall t: Address ensures FeesIn(rs + [r], t) == FeesIn(rs, t) + FeesIn([r], t) {
    }
    forall pool: Pool ensures ProductKept(s, s'', pool) {
      assert ProductKept(s, s', pool) && ProductKept(s', s'', pool);
    }
  }

  lemma SettleOrdersLast(s: State, orders: seq<Order>, n: nat)
    requires |orders| == n + 1 && SettleOrders(s, orders).Done?
    ensures SettleOrders(s, orders[..n]).Done?
    ensures var (s1, rs) := SettleOrders(s, orders[..n]).value;
            && SettleOrder(s1, orders[n]).Done?
            && SettleOrders(s, orders).value
               == (SettleOrder(s1, orders[n]).value.0, rs + [SettleOrder(s1, orders[n]).value.1])
  {
    hide SettleOrder;
  }

  /** A batch keeps every pool in order, its products and the margins. */
  lemma {:induction false} SettleOrdersKeeps(s: State, orders: seq<Order>)
    requires PoolsOk(s) && NoneIsSelf(orders) && SettleOrders(s, orders).Done?
    ensures OrdersSettled(s, SettleOrders(s, orders).value.0, SettleOrders(s, orders).value.1)
  {
    if orders == [] {
      NothingSettled(s);
    } else {
      var n := |orders| - 1;
      SettleOrdersLast(s, orders, n);
      assert NoneIsSelf(orders[..n]) && orders[n].user != SELF;
      hide *;
      var (s1, rs) := SettleOrders(s, orders[..n]).value;
      var (s2, r) := SettleOrder(s1, orders[n]).value;
      SettleOrdersKeeps(s, orders[..n]);
      SettledPoolsOk(s, s1, rs);
      OrderSettled(s1, orders[n]);
      OrdersSettledThen(s, s1, s2, rs, r);
    }
  }

  lemma NothingSettled(s: State)
    requires PoolsOk(s)
    ensures OrdersSettled(s, s, [])
  {
    hide Margin, ReservesAt;
  }

  lemma SettledPoolsOk(s: State, s': State, rs: seq<SettlementResult>)
    requires OrdersSettled(s, s', rs)
    ensures PoolsOk(s')
  {
  }

  /** Order i was quoted, with result r, on the state after the orders before it. */
  ghost predicate QuotedAt(s: State, orders: seq<Order>, i: nat, r: SettlementResult)
    requires i < |orders|
  {
    SettleOrders(s, orders[..i]).Done? && QuotedOn(SettleOrders(s, orders[..i]).value.0, orders[i], r)
  }

  lemma LastQuoted(s: State, orders: seq<Order>, n: nat)
    requires PoolsOk(s) && NoneIsSelf(orders) && |orders| == n + 1 && SettleOrders(s, orders).Done?
    ensures QuotedAt(s, orders, n, SettleOrder(SettleOrders(s, orders[..n]).value.0, orders[n]).value.1)
  {
    SettleOrdersLast(s, orders, n);
    assert NoneIsSelf(orders[..n]) && orders[n].user != SELF;
    hide SettleOrders, SettleOrder, PoolsOk, QuotedOn, OrdersSettled;
    var (s1, rs) := SettleOrders(s, orders[..n]).value;
    SettleOrdersKeeps(s, orders[..n]);
    SettledPoolsOk(s, s1, rs);
    OrderSettled(s1, orders[n]);
  }

  lemma PrefixQuoted(s: State, orders: seq<Order>, n: nat, i: nat, r: SettlementResult)
    requires i < n <= |orders| && QuotedAt(s, orders[..n], i, r)
    ensures QuotedAt(s, orders, i, r)
  {
    hide SettleOrders, QuotedOn;
    assert orders[..n][..i] == orders[..i];
  }

  lemma PrefixNotSelf(orders: seq<Order>, n: nat)
    requires n <= |orders| && NoneIsSelf(orders)
    ensures NoneIsSelf(orders[..n])
  {
  }

  /** Result i is the quote of order i on the state after the orders before it. */
  lemma {:induction false} ResultsInOrder(s: State, orders: seq<Order>, i: nat)
    requires PoolsOk(s) && NoneIsSelf(orders) && SettleOrders(s, orders).Done? && i < |orders|
    ensures |SettleOrders(s, orders).value.1| == |orders|
    ensures QuotedAt(s, orders, i, SettleOrders(s, orders).value.1[i])
  {
    hide *;
    var n := |orders| - 1;
    SettleOrdersLast(s, orders, n);
    ResultCount(s, orders);
    ResultCount(s, orders[..n]);
    if i < n {
      PrefixNotSelf(orders, n);
      ResultsInOrder(s, orders[..n], i);
      PrefixQuoted(s, orders, n, i, SettleOrders(s, orders[..n]).value.1[i]);
    } else {
      LastQuoted(s, orders, n);
    }
  }

  lemma {:induction false} ResultCount(s: State, orders: seq<Order>)
    requires SettleOrders(s, orders).Done?
    ensures |SettleOrders(s, orders).value.1| == |orders|
  {
    hide SettleOrder;
    if orders != [] {
      ResultCount(s, orders[..|orders| - 1]);
    }
  }

  /** A batch that leaves one reserve of a pool no higher than before leaves the other no lower. */
  lemma NoFreeLunch(s: State, orders: seq<Order>, pool: Pool)
    requires PoolsOk(s) && NoneIsSelf(orders) && SettleOrders(s, orders).Done?
    ensures var ((a, b), (a', b')) := (ReservesAt(s, pool), ReservesAt(SettleOrders(s, orders).value.0, pool));
            a > 0 && b > 0 ==> (a' <= a ==> b' >= b) && (b' <= b ==> a' >= a)
  {
    SettleOrdersKeeps(s, orders);
    var s' := SettleOrders(s, orders).value.0;
    var ((a, b), (a', b')) := (ReservesAt(s, pool), ReservesAt(s', pool));
    assert ProductKept(s, s', pool) && PoolOk(s, pool) && PoolOk(s', pool);
    if a > 0 && b > 0 {
      MulPositive(a, b);
      OtherReserve(a, b, a', b');
      OtherReserve(b, a, b', a');
    }
  }

  lemma OtherReserve(a: int, b: int, a': int, b': int)
    requires a > 0 && b > 0 && a' >= 0 && b' >= 0 && a' * b' >= a * b > 0
    ensures a' <= a ==> b' >= b
  {
    if a' <= a {
      MulMono(a', a, b);
      CancelWeak(b, b', a');
    }
  }

  // ----- Runs -----

  /** The engine, with the fees swept and the gifts received so far per token. */
  datatype World = World(state: State, swept: map<Address, int>, gifts: map<Address, int>)

  /** Calls to the engine, and single changes of a token ledger by others. */
  datatype Event =
    | Init(admin: Address)
    | Deposit(user: Address, a: Address, b: Address, x: int, y: int)
    | Withdraw(user: Address, a: Address, b: Address, lp: int)
    | Settle(id: BatchId, orders: seq<Order>)
    | Collect(receiver: Address, token: Address)
    | Elsewhere(token: Address, holder: Address, balance: int)
    | Approve(token: Address, owner: Address, amount: int)

  /** Users and receivers are not the contract, and nobody else can take its tokens. */
  ghost predicate Allowed(w: World, e: Event) {
    match e
    case Init(_) => true
    case Deposit(user, _, _, _, _) => user != SELF
    case Withdraw(user, _, _, _) => user != SELF
    case Settle(_, orders) => NoneIsSelf(orders)
    case Collect(receiver, _) => receiver != SELF
    case Elsewhere(token, holder, balance) => holder == SELF ==> balance >= Balance(w.state, token, SELF)
    case Approve(_, _, _) => true
  }

  function After<T>(w: World, out: Call<(State, T)>): World {
    match out
    case Done((s, _)) => w.(state := s)
    case _ => w
  }

  function Step(w: World, e: Event): World {
    var s := w.state;
    match e
    case Init(admin) => (match Initialize(s, admin) case Done(s') => w.(state := s') case _ => w)
    case Deposit(user, a, b, x, y) => After(w, AddLiquidity(s, user, a, b, x, y))
    case Withdraw(user, a, b, lp) => After(w, RemoveLiquidity(s, user, a, b, lp))
    case Settle(id, orders) => After(w, SettleBatch(s, id, orders))
    case Collect(receiver, token) =>
      (match CollectFees(s, receiver, token)
       case Done((s', n)) =>
         World(s', if n > 0 then w.swept[token := Get(w.swept, token) + n] else w.swept, w.gifts)
       case _ => w)
    case Elsewhere(token, holder, balance) =>
      World(s.(balances := s.balances[(token, holder) := balance]), w.swept,
            if holder != SELF then w.gifts
            else w.gifts[token := Get(w.gifts, token) + balance - Balance(s, token, SELF)])
    case Approve(token, owner, amount) => w.(state := s.(allowances := s.allowances[(token, owner) := amount]))
  }

  function FeesOf(results: map<BatchId, seq<SettlementResult>>, t: Address): map<BatchId, int> {
    map id | id in results :: FeesIn(results[id], t)
  }

  /** Token by token: balance + swept == reserves + gifts. */
  ghost predicate Conserved(w: World, t: Address) {
    Margin(w.state, t) + Get(w.swept, t) == Get(w.gifts, t)
  }

  /** Token by token: accrued + swept == the fees of all settled orders. */
  ghost predicate FeesAccounted(w: World, t: Address) {
    && Get(w.state.fees, t) >= 0
    && Get(w.state.fees, t) + Get(w.swept, t) == Total(FeesOf(w.state.results, t))
  }

  ghost predicate Inv(w: World) {
    && PoolsOk(w.state) && SharesNonnegative(w.state) && SuppliesCovered(w.state)
    && (forall t: Address :: Conserved(w, t))
    && (forall t: Address :: FeesAccounted(w, t))
  }

  ghost predicate Initial(w: World) {
    var s := w.state;
    && s.admin == None && s.reserves == map[] && s.supply == map[] && s.shares == map[] && s.fees == map[]
    && s.results == map[] && w.swept == map[] && w.gifts == map[]
    && forall t: Address :: Balance(s, t, SELF) == 0
  }

  ghost predicate IsRun(ws: seq<World>, es: seq<Event>) {
    && |ws| == |es| + 1 && Initial(ws[0])
    && forall k :: 0 <= k < |es| ==> Allowed(ws[k], es[k]) && ws[k + 1] == Step(ws[k], es[k])
  }

  lemma InitialInv(w: World)
    requires Initial(w)
    ensures Inv(w)
  {
    forall t: Address ensures Conserved(w, t) && FeesAccounted(w, t) {
      assert HeldOf(w.state.reserves, t) == map[];
      assert FeesOf(w.state.results, t) == map[];
    }
    forall pool: Pool ensures PoolOk(w.state, pool) && SupplyCovered(w.state, pool) {
      assert SharesOf(w.state.shares, pool) == map[];
    }
  }

  /** Same storage for all purposes of pools, shares and fees. */
  ghost predicate SameBooks(s: State, s': State) {
    s'.reserves == s.reserves && s'.supply == s.supply && s'.shares == s.shares
  }

  lemma SameBooksKept(s: State, s': State)
    requires SameBooks(s, s') && PoolsOk(s) && SharesNonnegative(s) && SuppliesCovered(s)
    ensures PoolsOk(s') && SharesNonnegative(s') && SuppliesCovered(s')
    ensures forall t: Address :: ReserveTotal(s', t) == ReserveTotal(s, t)
    ensures forall pool: Pool :: ValueKept(s, s', pool)
  {
    forall pool: Pool ensures PoolOk(s', pool) && SupplyCovered(s', pool) {
      assert PoolOk(s, pool) && SupplyCovered(s, pool);
    }
  }

  ghost predicate ValuesKept(s: State, s': State) {
    forall pool: Pool :: Supply(s, pool) > 0 ==> ValueKept(s, s', pool)
  }

  lemma DepositStep(w: World, e: Event)
    requires Inv(w) && e.Deposit? && Allowed(w, e)
    ensures Inv(Step(w, e)) && ValuesKept(w.state, Step(w, e).state)
  {
    var s, w' := w.state, Step(w, e);
    if AddLiquidity(s, e.user, e.a, e.b, e.x, e.y).Done? {
      AddEffect(s, e.user, e.a, e.b, e.x, e.y);
      AddKeepsPools(s, e.user, e.a, e.b, e.x, e.y);
      AddKeepsShares(s, e.user, e.a, e.b, e.x, e.y);
      hide AddLiquidity, PoolsOk, SharesNonnegative, SuppliesCovered, Margin, ValueKept;
      forall t: Address ensures Conserved(w', t) && FeesAccounted(w', t) {
        AddMargin(s, e.user, e.a, e.b, e.x, e.y, t);
        assert Conserved(w, t) && FeesAccounted(w, t);
      }
    } else {
      SameBooksKept(s, s);
    }
  }

  lemma WithdrawStep(w: World, e: Event)
    requires Inv(w) && e.Withdraw? && Allowed(w, e)
    ensures Inv(Step(w, e)) && ValuesKept(w.state, Step(w, e).state)
  {
    var s, w' := w.state, Step(w, e);
    if RemoveLiquidity(s, e.user, e.a, e.b, e.lp).Done? {
      RemoveEffect(s, e.user, e.a, e.b, e.lp);
      RemoveKeeps(s, e.user, e.a, e.b, e.lp);
      hide RemoveLiquidity, PoolsOk, SharesNonnegative, SuppliesCovered, Margin, ValueKept;
      forall t: Address ensures Conserved(w', t) && FeesAccounted(w', t) {
        RemoveMargin(s, e.user, e.a, e.b, e.lp, t);
        assert Conserved(w, t) && FeesAccounted(w, t);
      }
    } else {
      SameBooksKept(s, s);
    }
  }

  lemma BatchEffect(s: State, id: BatchId, orders: seq<Order>)
    requires SettleBatch(s, id, orders).Done?
    ensures id !in s.results && SettleOrders(s, orders).Done?
    ensures var (s1, rs) := SettleOrders(s, orders).value;
            SettleBatch(s, id, orders) == Done((s1.(results := s1.results[id := rs]), rs))
  {
    hide SettleOrders;
  }

  lemma SettleStep(w: World, e: Event)
    requires Inv(w) && e.Settle? && Allowed(w, e)
    ensures Inv(Step(w, e)) && ValuesKept(w.state, Step(w, e).state)
  {
    hide SettleBatch, SettleOrders, PoolsOk, SharesNonnegative, SuppliesCovered, Conserved, FeesAccounted;
    var s, w' := w.state, Step(w, e);
    if SettleBatch(s, e.id, e.orders).Done? {
      BatchEffect(s, e.id, e.orders);
      var (s1, rs) := SettleOrders(s, e.orders).value;
      SettleOrdersKeeps(s, e.orders);
      hide *;
      SettledBooks(s, s1, rs, w'.state, e.id);
      forall t: Address ensures Conserved(w', t) && FeesAccounted(w', t) {
        SettledAccounts(w, s1, rs, w', e.id, t);
      }
    } else {
      SameBooksKept(s, s);
    }
  }

  lemma SettledAccounts(w: World, s1: State, rs: seq<SettlementResult>, w': World, id: BatchId, t: Address)
    requires Conserved(w, t) && FeesAccounted(w, t) && OrdersSettled(w.state, s1, rs) && id !in w.state.results
    requires w' == w.(state := s1.(results := s1.results[id := rs]))
    ensures Conserved(w', t) && FeesAccounted(w', t)
  {
    var s := w.state;
    SettledMargin(s, s1, rs, w'.state, id, t);
    hide PoolsOk, Margin, ProductKept;
    assert FeesOf(w'.state.results, t) == FeesOf(s.results, t)[id := FeesIn(rs, t)];
    TotalUpdate(FeesOf(s.results, t), id, FeesIn(rs, t));
  }

  lemma SettledMargin(s: State, s1: State, rs: seq<SettlementResult>, s': State, id: BatchId, t: Address)
    requires OrdersSettled(s, s1, rs) && s' == s1.(results := s1.results[id := rs])
    ensures Margin(s', t) == Margin(s, t)
  {
    assert Margin(s1, t) == Margin(s, t);
  }

  lemma SettledBooks(s: State, s1: State, rs: seq<SettlementResult>, s': State, id: BatchId)
    requires OrdersSettled(s, s1, rs) && s' == s1.(results := s1.results[id := rs])
    requires PoolsOk(s) && SharesNonnegative(s) && SuppliesCovered(s)
    ensures PoolsOk(s') && SharesNonnegative(s') && SuppliesCovered(s') && ValuesKept(s, s')
  {
    forall pool: Pool ensures PoolOk(s', pool) && SupplyCovered(s', pool) && ValueKept(s, s', pool) {
      assert PoolOk(s1, pool) && SupplyCovered(s, pool) && ProductKept(s, s1, pool);
      var ((a, b), (a', b')) := (ReservesAt(s, pool), ReservesAt(s1, pool));
      MulNonnegative(Supply(s, pool), Supply(s, pool)) by { assert PoolOk(s, pool); }
      MulMono(a * b, a' * b', Supply(s, pool) * Supply(s, pool));
    }
  }

  lemma CollectStep(w: World, e: Event)
    requires Inv(w) && e.Collect? && Allowed(w, e)
    ensures Inv(Step(w, e)) && ValuesKept(w.state, Step(w, e).state)
  {
    var s, w' := w.state, Step(w, e);
    var n := Get(s.fees, e.token);
    if CollectFees(s, e.receiver, e.token).Done? && n > 0 {
      var s1 := Transfer(s, e.token, SELF, e.receiver, n).value;
      TransferKeepsStorage(s, e.token, SELF, e.receiver, n);
      SameBooksKept(s, w'.state);
      hide Transfer, PoolsOk, SharesNonnegative, SuppliesCovered, ValueKept, HeldOf;
      forall t: Address ensures Conserved(w', t) && FeesAccounted(w', t) {
        TransferMoves(s, e.token, SELF, e.receiver, n, t);
        assert Conserved(w, t) && FeesAccounted(w, t);
      }
    } else {
      SameBooksKept(s, s);
    }
  }

  lemma OtherStep(w: World, e: Event)
    requires Inv(w) && (e.Elsewhere? || e.Approve? || e.Init?) && Allowed(w, e)
    ensures Inv(Step(w, e)) && ValuesKept(w.state, Step(w, e).state)
  {
    var s, w' := w.state, Step(w, e);
    SameBooksKept(s, w'.state);
    hide PoolsOk, SharesNonnegative, SuppliesCovered, ValueKept, HeldOf;
    forall t: Address ensures Conserved(w', t) && FeesAccounted(w', t) {
      assert Conserved(w, t) && FeesAccounted(w, t);
    }
  }

  lemma StepKeeps(w: World, e: Event)
    requires Inv(w) && Allowed(w, e)
    ensures Inv(Step(w, e)) && ValuesKept(w.state, Step(w, e).state)
  {
    match e
    case Deposit(_, _, _, _, _) => DepositStep(w, e);
    case Withdraw(_, _, _, _) => WithdrawStep(w, e);
    case Settle(_, _) => SettleStep(w, e);
    case Collect(_, _) => CollectStep(w, e);
    case Elsewhere(_, _, _) => OtherStep(w, e);
    case Approve(_, _, _) => OtherStep(w, e);
    case Init(_) => OtherStep(w, e);
  }

  /** Over every run: in every pool supply² <= reserve·reserve and the balances add
      up to the supply; for every token balance + swept == reserves + gifts and
      accrued + swept == the fees of all settled orders. */
  lemma {:induction false} RunKeeps(ws: seq<World>, es: seq<Event>, k: nat)
    requires IsRun(ws, es) && k < |ws|
    ensures Inv(ws[k])
  {
    if k == 0 {
      InitialInv(ws[0]);
    } else {
      RunKeeps(ws, es, k - 1);
      StepKeeps(ws[k - 1], es[k - 1]);
    }
  }

  /** As long as a pool is never emptied, the value of its shares never falls. */
  lemma {:induction false} ShareValueNeverFalls(ws: seq<World>, es: seq<Event>, i: nat, j: nat, pool: Pool)
    requires IsRun(ws, es) && i <= j < |ws|
    requires forall k :: i <= k <= j ==> Supply(ws[k].state, pool) > 0
    ensures ValueKept(ws[i].state, ws[j].state, pool)
  {
    hide *;
    RunLength(ws, es);
    if i < j {
      ShareValueNeverFalls(ws, es, i, j - 1, pool);
      RunStep(ws, es, j - 1);
      ValueKeptThen(ws[i].state, ws[j - 1].state, ws[j].state, pool);
    } else {
      ValueKeptSame(ws[i].state, pool);
    }
  }

  lemma RunLength(ws: seq<World>, es: seq<Event>)
    requires IsRun(ws, es)
    ensures |ws| == |es| + 1
  {
  }

  lemma RunStep(ws: seq<World>, es: seq<Event>, k: nat)
    requires IsRun(ws, es) && k < |es|
    ensures |ws| == |es| + 1 && ValuesKept(ws[k].state, ws[k + 1].state)
  {
    RunKeeps(ws, es, k);
    StepKeeps(ws[k], es[k]);
  }

  lemma ValueKeptThen(s: State, s': State, s'': State, pool: Pool)
    requires Supply(s', pool) > 0 && ValueKept(s, s', pool) && ValuesKept(s', s'')
    ensures ValueKept(s, s'', pool)
  {
    var ((a, b), (a', b'), (a'', b'')) := (ReservesAt(s, pool), ReservesAt(s', pool), ReservesAt(s'', pool));
    assert ValueKept(s', s'', pool);
    ShareValueTransitive(a, b, Supply(s, pool), a', b', Supply(s', pool), a'', b'', Supply(s'', pool));
  }

  lemma ValueKeptSame(s: State, pool: Pool)
    ensures ValueKept(s, s, pool)
  {
  }

  /** The contract covers its reserves of a token exactly as long as no more fees
      were swept than tokens were given to it: a swept fee is still in the reserves. */
  lemma SolventExactly(ws: seq<World>, es: seq<Event>, k: nat, t: Address)
    requires IsRun(ws, es) && k < |ws|
    ensures Balance(ws[k].state, t, SELF) >= ReserveTotal(ws[k].state, t)
            <==> Get(ws[k].swept, t) <= Get(ws[k].gifts, t)
  {
    RunKeeps(ws, es, k);
    assert Conserved(ws[k], t);
  }

  /** In every reachable state a withdrawal of a negative number of shares reverts. */
  lemma NoNegativeWithdrawal(ws: seq<World>, es: seq<Event>, k: nat, user: Address, a: Address, b: Address, lp: int)
    requires IsRun(ws, es) && k < |ws| && lp < 0
    ensures !RemoveLiquidity(ws[k].state, user, a, b, lp).Done?
  {
    RunKeeps(ws, es, k);
    NegativeWithdrawalReverts(ws[k].state, user, a, b, lp);
  }

  // ----- Batches settle once -----

  lemma ResultsKept(w: World, e: Event, id: BatchId)
    requires Allowed(w, e) && PoolsOk(w.state) && id in w.state.results
    ensures id in Step(w, e).state.results && Step(w, e).state.results[id] == w.state.results[id]
    ensures e.Settle? && e.id == id ==> Step(w, e) == w
  {
    var s := w.state;
    hide AddLiquidity, RemoveLiquidity, SettleOrders, Transfer, PoolsOk;
    match e
    case Deposit(user, a, b, x, y) =>
      if AddLiquidity(s, user, a, b, x, y).Done? {
        AddEffect(s, user, a, b, x, y);
      }
    case Withdraw(user, a, b, lp) =>
      if RemoveLiquidity(s, user, a, b, lp).Done? {
        RemoveEffect(s, user, a, b, lp);
      }
    case Settle(other, orders) =>
      if SettleBatch(s, other, orders).Done? {
        BatchEffect(s, other, orders);
        SettleOrdersKeeps(s, orders);
      }
    case Collect(receiver, token) =>
      if Transfer(s, token, SELF, receiver, Get(s.fees, token)).Done? {
        TransferKeepsStorage(s, token, SELF, receiver, Get(s.fees, token));
      }
    case _ =>
  }

  /** Over every run the results of a settled batch stay as they are, and settling it
      again changes nothing. */
  lemma {:induction false} BatchesSettleOnce(ws: seq<World>, es: seq<Event>, i: nat, j: nat, id: BatchId)
    requires IsRun(ws, es) && i <= j < |ws| && id in ws[i].state.results
    ensures id in ws[j].state.results && ws[j].state.results[id] == ws[i].state.results[id]
    ensures j < |es| && es[j].Settle? && es[j].id == id ==> ws[j + 1] == ws[j]
  {
    hide Step, Allowed, Inv, PoolsOk;
    if i < j {
      BatchesSettleOnce(ws, es, i, j - 1, id);
      RunPools(ws, es, j - 1);
      ResultsKept(ws[j - 1], es[j - 1], id);
    }
    if j < |es| {
      RunPools(ws, es, j);
      ResultsKept(ws[j], es[j], id);
    }
  }

  lemma RunPools(ws: seq<World>, es: seq<Event>, k: nat)
    requires IsRun(ws, es) && k < |ws|
    ensures PoolsOk(ws[k].state)
  {
    RunKeeps(ws, es, k);
  }

  // ----- The admin -----

  lemma AdminKept(w: World, e: Event)
    requires Allowed(w, e) && PoolsOk(w.state)
    ensures Step(w, e).state.admin == if w.state.admin.None? && e.Init? then Some(e.admin) else w.state.admin
  {
    var s := w.state;
    hide AddLiquidity, RemoveLiquidity, SettleOrders, Transfer, PoolsOk;
    match e
    case Deposit(user, a, b, x, y) =>
      if AddLiquidity(s, user, a, b, x, y).Done? {
        AddEffect(s, user, a, b, x, y);
      }
    case Withdraw(user, a, b, lp) =>
      if RemoveLiquidity(s, user, a, b, lp).Done? {
        RemoveEffect(s, user, a, b, lp);
      }
    case Settle(id, orders) =>
      if SettleBatch(s, id, orders).Done? {
        BatchEffect(s, id, orders);
        SettleOrdersKeeps(s, orders);
      }
    case Collect(receiver, token) =>
      if Transfer(s, token, SELF, receiver, Get(s.fees, token)).Done? {
        TransferKeepsStorage(s, token, SELF, receiver, Get(s.fees, token));
      }
    case _ =>
  }

  /** Over every run the first initialization sets the admin, and nothing ever changes it. */
  lemma {:induction false} FirstAdminStays(ws: seq<World>, es: seq<Event>, k: nat)
    requires IsRun(ws, es) && k < |ws|
    ensures ws[k].state.admin.None? <==> forall i :: 0 <= i < k ==> !es[i].Init?
    ensures ws[k].state.admin.Some? ==>
              exists i :: && 0 <= i < k && es[i].Init? && es[i].admin == ws[k].state.admin.value
                          && forall j :: 0 <= j < i ==> !es[j].Init?
  {
    hide Step, Allowed, Inv, PoolsOk;
    if k > 0 {
      FirstAdminStays(ws, es, k - 1);
      RunPools(ws, es, k - 1);
      AdminKept(ws[k - 1], es[k - 1]);
    }
  }
}
