/** The settlement engine on values: pools, shares, fees and results, and the
    token ledgers it moves. A call that panics or returns an error changes nothing. */
module Settlement {
  import opened Outcomes
  import opened Totals
  import opened PoolMath

  /** Accounts and contracts, in the order of the host's address comparison. */
  type Address = nat

  /** The address of the settlement contract itself. */
  const SELF: Address

  type BatchId = seq<int>
  type Pool = (Address, Address)

  datatype SettlementError = AlreadyInitialized | NotInitialized | BatchAlreadySettled
                           | InsufficientOutput | EmptyPool | InsufficientLiquidity

  datatype Call<+T> = Panic | Err(error: SettlementError) | Done(value: T) {
    predicate IsFailure() {
      !Done?
    }

    function PropagateFailure<U>(): Call<U>
      requires !Done?
    {
      match this
      case Panic => Panic
      case Err(e) => Err(e)
    }

    function Extract(): T
      requires Done?
    {
      value
    }
  }

  datatype Order = Order(user: Address, tokenIn: Address, tokenOut: Address, amountIn: int, minAmountOut: int)

  datatype SettlementResult = SettlementResult(user: Address, tokenIn: Address, tokenOut: Address, amountIn: int,
                                               amountOut: int, fee: int)

  datatype State = State(admin: Option<Address>,
                         reserves: map<Pool, (int, int)>,
                         supply: map<Pool, int>,
                         shares: map<(Address, Pool), int>,
                         fees: map<Address, int>,
                         results: map<BatchId, seq<SettlementResult>>,
                         balances: map<(Address, Address), int>,
                         allowances: map<(Address, Address), int>)

  /** Checked i128 arithmetic. */
  function Int(x: int): Call<int> {
    if Fits(x) then Done(x) else Panic
  }

  function Divide(a: int, b: int): Call<int> {
    if b == 0 || !Fits(Quotient(a, b)) then Panic else Done(Quotient(a, b))
  }

  function SquareRoot(v: int): Call<int> {
    match Root(v)
    case Panics => Panic
    case Value(r) => Done(r)
  }

  function PoolKey(a: Address, b: Address): Pool {
    if a < b then (a, b) else (b, a)
  }

  function ReservesAt(s: State, pool: Pool): (int, int) {
    if pool in s.reserves then s.reserves[pool] else (0, 0)
  }

  /** The reserves of a pair in the order in which the tokens are named. */
  function ReservesOrdered(s: State, a: Address, b: Address): (int, int) {
    var r := ReservesAt(s, PoolKey(a, b));
    if a == PoolKey(a, b).0 then r else (r.1, r.0)
  }

  function SetReservesOrdered(s: State, a: Address, b: Address, ra: int, rb: int): State {
    s.(reserves := s.reserves[PoolKey(a, b) := if a == PoolKey(a, b).0 then (ra, rb) else (rb, ra)])
  }

  // ----- Token ledgers -----

  function Balance(s: State, token: Address, holder: Address): int {
    Get(s.balances, (token, holder))
  }

  /** A token transfer: refused for a negative or an uncovered amount. */
  function Transfer(s: State, token: Address, from: Address, to: Address, amount: int): Call<State> {
    if amount < 0 || Balance(s, token, from) < amount then Panic
    else
      var debited := s.(balances := s.balances[(token, from) := Balance(s, token, from) - amount]);
      var credit :- Int(Balance(debited, token, to) + amount);
      Done(debited.(balances := debited.balances[(token, to) := credit]))
  }

  /** A transfer by the contract on behalf of a user who approved it. */
  function TransferFrom(s: State, token: Address, from: Address, amount: int): Call<State> {
    var allowed := Get(s.allowances, (token, from));
    if amount < 0 || allowed < amount then Panic
    else Transfer(s.(allowances := s.allowances[(token, from) := allowed - amount]), token, from, SELF, amount)
  }

  // ----- Contract calls -----

  function Initialize(s: State, admin: Address): Call<State> {
    if s.admin.Some? then Err(AlreadyInitialized) else Done(s.(admin := Some(admin)))
  }

  /** The pool shares minted for a deposit. */
  function SharesFor(s: State, a: Address, b: Address, amountA: int, amountB: int): Call<int> {
    var (ra, rb) := ReservesOrdered(s, a, b);
    var supply := Get(s.supply, PoolKey(a, b));
    if supply == 0 then
      var product :- Int(amountA * amountB);
      SquareRoot(product)
    else
      var pa :- Int(amountA * supply);
      var fromA :- Divide(pa, ra);
      var pb :- Int(amountB * supply);
      var fromB :- Divide(pb, rb);
      Done(if fromB < fromA then fromB else fromA)
  }

  function AddLiquidity(s: State, user: Address, a: Address, b: Address, amountA: int, amountB: int)
    : Call<(State, int)>
  {
    var (ra, rb) := ReservesOrdered(s, a, b);
    var pool := PoolKey(a, b);
    var lp :- SharesFor(s, a, b, amountA, amountB);
    var s1 :- Transfer(s, a, user, SELF, amountA);
    var s2 :- Transfer(s1, b, user, SELF, amountB);
    var ra' :- Int(ra + amountA);
    var rb' :- Int(rb + amountB);
    var s3 := SetReservesOrdered(s2, a, b, ra', rb');
    var supply :- Int(Get(s.supply, pool) + lp);
    var held :- Int(Get(s.shares, (user, pool)) + lp);
    Done((s3.(supply := s3.supply[pool := supply], shares := s3.shares[(user, pool) := held]), lp))
  }

  function RemoveLiquidity(s: State, user: Address, a: Address, b: Address, lp: int): Call<(State, (int, int))> {
    var pool := PoolKey(a, b);
    var held := Get(s.shares, (user, pool));
    if lp > held then Err(InsufficientLiquidity)
    else
      var supply := Get(s.supply, pool);
      if supply == 0 then Err(EmptyPool)
      else
        var (ra, rb) := ReservesOrdered(s, a, b);
        var pa :- Int(lp * ra);
        var amountA :- Divide(pa, supply);
        var pb :- Int(lp * rb);
        var amountB :- Divide(pb, supply);
        var ra' :- Int(ra - amountA);
        var rb' :- Int(rb - amountB);
        var supply' :- Int(supply - lp);
        var held' :- Int(held - lp);
        var s1 := SetReservesOrdered(s, a, b, ra', rb');
        var s2 := s1.(supply := s1.supply[pool := supply'], shares := s1.shares[(user, pool) := held']);
        var s3 :- Transfer(s2, a, SELF, user, amountA);
        var s4 :- Transfer(s3, b, SELF, user, amountB);
        Done((s4, (amountA, amountB)))
  }

  /** The output of a swap and the fee on its input. */
  function QuoteSwap(s: State, o: Order): Call<(int, int)> {
    var (rIn, rOut) := ReservesOrdered(s, o.tokenIn, o.tokenOut);
    if rIn == 0 || rOut == 0 then Err(EmptyPool)
    else
      var bps :- Int(o.amountIn * FEE_BPS);
      var fee :- Divide(bps, BPS_DENOMINATOR);
      var net :- Int(o.amountIn - fee);
      var product :- Int(net * rOut);
      var total :- Int(rIn + net);
      var out :- Divide(product, total);
      if out < o.minAmountOut then Err(InsufficientOutput) else Done((out, fee))
  }

  function SettleOrder(s: State, o: Order): Call<(State, SettlementResult)> {
    var quote :- QuoteSwap(s, o);
    var (out, fee) := quote;
    var (rIn, rOut) := ReservesOrdered(s, o.tokenIn, o.tokenOut);
    var rIn' :- Int(rIn + o.amountIn);
    var rOut' :- Int(rOut - out);
    var s1 := SetReservesOrdered(s, o.tokenIn, o.tokenOut, rIn', rOut');
    var s2 :- TransferFrom(s1, o.tokenIn, o.user, o.amountIn);
    var s3 :- Transfer(s2, o.tokenOut, SELF, o.user, out);
    var accrued :- Int(Get(s.fees, o.tokenIn) + fee);
    Done((s3.(fees := s3.fees[o.tokenIn := accrued]),
          SettlementResult(o.user, o.tokenIn, o.tokenOut, o.amountIn, out, fee)))
  }

  /** The orders one after the other, each on the state the previous one left. */
  function SettleOrders(s: State, orders: seq<Order>): Call<(State, seq<SettlementResult>)> {
    if orders == [] then Done((s, []))
    else
      var n := |orders| - 1;
      var before :- SettleOrders(s, orders[..n]);
      var last :- SettleOrder(before.0, orders[n]);
      Done((last.0, before.1 + [last.1]))
  }

  function SettleBatch(s: State, id: BatchId, orders: seq<Order>): Call<(State, seq<SettlementResult>)> {
    if id in s.results then Err(BatchAlreadySettled)
    else
      var out :- SettleOrders(s, orders);
      Done((out.0.(results := out.0.results[id := out.1]), out.1))
  }

  function CollectFees(s: State, receiver: Address, token: Address): Call<(State, int)> {
    if s.admin.None? then Err(NotInitialized)
    else
      var accumulated := Get(s.fees, token);
      if accumulated > 0 then
        var s1 :- Transfer(s, token, SELF, receiver, accumulated);
        Done((s1.(fees := s1.fees[token := 0]), accumulated))
      else Done((s, accumulated))
  }
}
