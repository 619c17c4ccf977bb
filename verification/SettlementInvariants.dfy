/** What every call to the settlement engine keeps. */
module SettlementInvariants {
  import opened Collections
  import opened Outcomes
  import opened Totals
  import opened PoolMath
  import opened Settlement

  // ----- Pool invariant and share value -----

  function Supply(s: State, pool: Pool): int {
    Get(s.supply, pool)
  }

  /** Reserves and supply are not negative, and supply² <= reserve · reserve. */
  ghost predicate PoolOk(s: State, pool: Pool) {
    var (a, b) := ReservesAt(s, pool);
    a >= 0 && b >= 0 && Supply(s, pool) >= 0 && Supply(s, pool) * Supply(s, pool) <= a * b
  }

  ghost predicate PoolsOk(s: State) {
    forall pool: Pool :: PoolOk(s, pool)
  }

  /** The value of a share of the pool does not fall from s to s'. */
  ghost predicate ValueKept(s: State, s': State, pool: Pool) {
    var (a, b) := ReservesAt(s, pool);
    var (a', b') := ReservesAt(s', pool);
    ShareValueKept(a, b, Supply(s, pool), a', b', Supply(s', pool))
  }

  ghost predicate SharesNonnegative(s: State) {
    forall k :: k in s.shares ==> s.shares[k] >= 0
  }

  function SharesOf(shares: map<(Address, Pool), int>, pool: Pool): map<(Address, Pool), int> {
    map k | k in shares && k.1 == pool :: shares[k]
  }

  /** The users' balances of a pool add up to its supply. */
  ghost predicate SupplyCovered(s: State, pool: Pool) {
    Total(SharesOf(s.shares, pool)) == Supply(s, pool)
  }

  ghost predicate SuppliesCovered(s: State) {
    forall pool: Pool :: SupplyCovered(s, pool)
  }

  lemma SharesOfUpdate(shares: map<(Address, Pool), int>, k: (Address, Pool), v: int, pool: Pool)
    ensures Total(SharesOf(shares[k := v], pool))
            == Total(SharesOf(shares, pool)) + if k.1 == pool then v - Get(shares, k) else 0
  {
    if k.1 == pool {
      assert SharesOf(shares[k := v], pool) == SharesOf(shares, pool)[k := v];
      TotalUpdate(SharesOf(shares, pool), k, v);
    } else {
      assert SharesOf(shares[k := v], pool) == SharesOf(shares, pool);
    }
  }

  lemma HolderBound(s: State, user: Address, pool: Pool)
    requires SharesNonnegative(s) && SuppliesCovered(s)
    ensures 0 <= Get(s.shares, (user, pool)) <= Supply(s, pool)
  {
    assert SupplyCovered(s, pool);
    TotalBound(SharesOf(s.shares, pool), (user, pool));
  }

  lemma TransferKeepsStorage(s: State, token: Address, from: Address, to: Address, amount: int)
    requires Transfer(s, token, from, to, amount).Done?
    ensures var s' := Transfer(s, token, from, to, amount).value;
            s' == s.(balances := s'.balances) && amount >= 0
  {
  }

  /** A pool in good order, in the token order of a caller. */
  ghost predicate GoodPool(a: int, b: int, supply: int) {
    a >= 0 && b >= 0 && supply >= 0 && supply * supply <= a * b
  }

  lemma PoolOkOrdered(s: State, a: Address, b: Address)
    ensures var (x, y) := ReservesOrdered(s, a, b);
            PoolOk(s, PoolKey(a, b)) <==> GoodPool(x, y, Supply(s, PoolKey(a, b)))
  {
    var (p, q) := ReservesAt(s, PoolKey(a, b));
    assert p * q == q * p;
  }

  lemma GoodPoolAt(s: State, a: Address, b: Address)
    requires PoolsOk(s)
    ensures var (x, y) := ReservesOrdered(s, a, b);
            GoodPool(x, y, Supply(s, PoolKey(a, b)))
  {
    assert PoolOk(s, PoolKey(a, b));
    PoolOkOrdered(s, a, b);
  }

  lemma ValueKeptOrdered(s: State, s': State, a: Address, b: Address)
    ensures var ((x, y), (x', y'), pool) := (ReservesOrdered(s, a, b), ReservesOrdered(s', a, b), PoolKey(a, b));
            ValueKept(s, s', pool) <==> ShareValueKept(x, y, Supply(s, pool), x', y', Supply(s', pool))
  {
    var (p, q) := ReservesAt(s, PoolKey(a, b));
    var (p', q') := ReservesAt(s', PoolKey(a, b));
    assert p * q == q * p && p' * q' == q' * p';
  }

  /** All reserves and supplies but those of one pool are unchanged. */
  ghost predicate OnlyPool(s: State, s': State, pool: Pool) {
    forall other: Pool :: other != pool ==>
      ReservesAt(s', other) == ReservesAt(s, other) && Supply(s', other) == Supply(s, other)
  }

  /** If one pool moves well and the others not at all, all pools are in order. */
  lemma OnePoolMoved(s: State, s': State, a: Address, b: Address)
    requires PoolsOk(s) && OnlyPool(s, s', PoolKey(a, b)) && PoolOk(s', PoolKey(a, b))
    requires Supply(s, PoolKey(a, b)) > 0 ==> ValueKept(s, s', PoolKey(a, b))
    ensures PoolsOk(s')
    ensures forall pool: Pool :: Supply(s, pool) > 0 ==> ValueKept(s, s', pool)
  {
    forall pool: Pool ensures PoolOk(s', pool) && (Supply(s, pool) > 0 ==> ValueKept(s, s', pool)) {
      assert PoolOk(s, pool);
    }
  }

  lemma SetReservesEffect(s: State, a: Address, b: Address, ra: int, rb: int)
    ensures var s' := SetReservesOrdered(s, a, b, ra, rb);
            && s' == s.(reserves := s'.reserves)
            && ReservesOrdered(s', a, b) == (ra, rb)
            && forall other: Pool :: other != PoolKey(a, b) ==> ReservesAt(s', other) == ReservesAt(s, other)
  {
  }

  /** A pair of tokens is one pool in either order: what is stored in one order is
      read in the other, with the two reserves exchanged. */
  lemma OnePoolPerPair(s: State, a: Address, b: Address, ra: int, rb: int)
    requires a != b
    ensures PoolKey(a, b) == PoolKey(b, a)
    ensures ReservesOrdered(SetReservesOrdered(s, a, b, ra, rb), b, a) == (rb, ra)
    ensures ReservesOrdered(s, b, a) == (ReservesOrdered(s, a, b).1, ReservesOrdered(s, a, b).0)
  {
  }

  /** The reserves are those of another state. */
  lemma SameReserves(s: State, s': State, a: Address, b: Address)
    requires s.reserves == s'.reserves
    ensures ReservesOrdered(s, a, b) == ReservesOrdered(s', a, b)
    ensures forall p: Pool :: ReservesAt(s, p) == ReservesAt(s', p)
  {
  }

  // ----- Deposits -----

  lemma AddEffect(s: State, user: Address, a: Address, b: Address, x: int, y: int)
    requires AddLiquidity(s, user, a, b, x, y).Done?
    ensures var (s', lp) := AddLiquidity(s, user, a, b, x, y).value;
            var (ra, rb) := ReservesOrdered(s, a, b);
            var pool := PoolKey(a, b);
            && SharesFor(s, a, b, x, y) == Done(lp) && x >= 0 && y >= 0
            && ReservesOrdered(s', a, b) == (ra + x, rb + y)
            && Supply(s', pool) == Supply(s, pool) + lp && OnlyPool(s, s', pool)
            && s'.shares == s.shares[(user, pool) := Get(s.shares, (user, pool)) + lp]
            && s'.fees == s.fees && s'.results == s.results && s'.admin == s.admin
  {
    hide Transfer, SharesFor, SetReservesOrdered, ReservesOrdered, ReservesAt, Fits;
    var (s', lp) := AddLiquidity(s, user, a, b, x, y).value;
    var (ra, rb) := ReservesOrdered(s, a, b);
    var s1 := Transfer(s, a, user, SELF, x).value;
    var s2 := Transfer(s1, b, user, SELF, y).value;
    TransferKeepsStorage(s, a, user, SELF, x);
    TransferKeepsStorage(s1, b, user, SELF, y);
    SetReservesEffect(s2, a, b, ra + x, rb + y);
    SameReserves(s, s2, a, b);
    SameReserves(s', SetReservesOrdered(s2, a, b, ra + x, rb + y), a, b);
  }

  lemma MintedShares(s: State, a: Address, b: Address, x: int, y: int)
    requires PoolsOk(s) && x >= 0 && y >= 0 && SharesFor(s, a, b, x, y).Done?
    ensures var lp := SharesFor(s, a, b, x, y).value;
            var (ra, rb) := ReservesOrdered(s, a, b);
            var supply := Supply(s, PoolKey(a, b));
            && lp >= 0 && GoodPool(ra + x, rb + y, supply + lp)
            && (supply > 0 ==> ShareValueKept(ra, rb, supply, ra + x, rb + y, supply + lp)
                               && lp * ra <= x * supply && lp * rb <= y * supply)
  {
    GoodPoolAt(s, a, b);
    var lp := SharesFor(s, a, b, x, y).value;
    var (ra, rb) := ReservesOrdered(s, a, b);
    var supply := Supply(s, PoolKey(a, b));
    if supply == 0 {
      MulNonnegative(x, y);
      ProductMono(x, y, ra + x, rb + y);
    } else {
      BothPositive(ra, rb, supply);
      MintQuotients(ra, rb, supply, x, y, lp);
      DepositKeeps(ra, rb, supply, x, y, lp);
      BoundKept(ra, rb, supply, ra + x, rb + y, supply + lp);
    }
  }

  lemma MintQuotients(ra: int, rb: int, supply: int, x: int, y: int, lp: int)
    requires ra > 0 && rb > 0 && supply > 0 && x >= 0 && y >= 0
    requires var (p, q) := (PoolMath.Quotient(x * supply, ra), PoolMath.Quotient(y * supply, rb));
             lp == if q < p then q else p
    ensures 0 <= lp <= PoolMath.Quotient(x * supply, ra) && lp <= PoolMath.Quotient(y * supply, rb)
  {
    MulNonnegative(x, supply);
    MulNonnegative(y, supply);
    QuotientBounds(x * supply, ra);
    QuotientBounds(y * supply, rb);
  }

  lemma BothPositive(a: int, b: int, supply: int)
    requires a >= 0 && b >= 0 && supply > 0 && supply * supply <= a * b
    ensures a > 0 && b > 0
  {
    MulPositive(supply, supply);
  }

  lemma AddKeepsPools(s: State, user: Address, a: Address, b: Address, x: int, y: int)
    requires PoolsOk(s) && AddLiquidity(s, user, a, b, x, y).Done?
    ensures var s' := AddLiquidity(s, user, a, b, x, y).value.0;
            PoolsOk(s') && forall pool: Pool :: Supply(s, pool) > 0 ==> ValueKept(s, s', pool)
  {
    hide *;
    AddEffect(s, user, a, b, x, y);
    var s' := AddLiquidity(s, user, a, b, x, y).value.0;
    MintedShares(s, a, b, x, y);
    PoolOkOrdered(s', a, b);
    ValueKeptOrdered(s, s', a, b);
    OnePoolMoved(s, s', a, b);
  }

  lemma AddKeepsShares(s: State, user: Address, a: Address, b: Address, x: int, y: int)
    requires PoolsOk(s) && SharesNonnegative(s) && SuppliesCovered(s) && AddLiquidity(s, user, a, b, x, y).Done?
    ensures var s' := AddLiquidity(s, user, a, b, x, y).value.0;
            SharesNonnegative(s') && SuppliesCovered(s')
  {
    hide *;
    AddEffect(s, user, a, b, x, y);
    var (s', lp) := AddLiquidity(s, user, a, b, x, y).value;
    MintedShares(s, a, b, x, y);
    HolderBound(s, user, PoolKey(a, b));
    SharesMoved(s, s', user, PoolKey(a, b), lp);
  }

  /** One balance and the supply of its pool change by the same amount. */
  lemma SharesMoved(s: State, s': State, user: Address, pool: Pool, delta: int)
    requires SuppliesCovered(s) && OnlyPool(s, s', pool) && Supply(s', pool) == Supply(s, pool) + delta
    requires s'.shares == s.shares[(user, pool) := Get(s.shares, (user, pool)) + delta]
    requires SharesNonnegative(s) && Get(s.shares, (user, pool)) + delta >= 0
    ensures SuppliesCovered(s') && SharesNonnegative(s')
  {
    forall p: Pool ensures SupplyCovered(s', p) {
      SharesOfUpdate(s.shares, (user, pool), Get(s.shares, (user, pool)) + delta, p);
      assert SupplyCovered(s, p);
    }
  }

  // ----- Withdrawals -----

  lemma RemoveEffect(s: State, user: Address, a: Address, b: Address, lp: int)
    requires RemoveLiquidity(s, user, a, b, lp).Done?
    ensures var (s', out) := RemoveLiquidity(s, user, a, b, lp).value;
            var (ra, rb) := ReservesOrdered(s, a, b);
            var pool := PoolKey(a, b);
            && Supply(s, pool) != 0 && lp <= Get(s.shares, (user, pool))
            && out == (PoolMath.Quotient(lp * ra, Supply(s, pool)), PoolMath.Quotient(lp * rb, Supply(s, pool)))
            && out.0 >= 0 && out.1 >= 0
            && ReservesOrdered(s', a, b) == (ra - out.0, rb - out.1)
            && Supply(s', pool) == Supply(s, pool) - lp && OnlyPool(s, s', pool)
            && s'.shares == s.shares[(user, pool) := Get(s.shares, (user, pool)) - lp]
            && s'.fees == s.fees && s'.results == s.results && s'.admin == s.admin
  {
    hide Transfer, SetReservesOrdered, ReservesOrdered, ReservesAt, Fits, PoolMath.Quotient;
    var (s', out) := RemoveLiquidity(s, user, a, b, lp).value;
    var (ra, rb) := ReservesOrdered(s, a, b);
    var pool := PoolKey(a, b);
    var s1 := SetReservesOrdered(s, a, b, ra - out.0, rb - out.1);
    SetReservesEffect(s, a, b, ra - out.0, rb - out.1);
    var s2 := s1.(supply := s1.supply[pool := Supply(s, pool) - lp],
                  shares := s1.shares[(user, pool) := Get(s.shares, (user, pool)) - lp]);
    var s3 := Transfer(s2, a, SELF, user, out.0).value;
    TransferKeepsStorage(s2, a, SELF, user, out.0);
    TransferKeepsStorage(s3, b, SELF, user, out.1);
    SameReserves(s', s1, a, b);
  }

  /** A withdrawal of a negative number of shares never succeeds. */
  lemma NegativeWithdrawalReverts(s: State, user: Address, a: Address, b: Address, lp: int)
    requires PoolsOk(s) && lp < 0
    ensures !RemoveLiquidity(s, user, a, b, lp).Done?
  {
    if RemoveLiquidity(s, user, a, b, lp).Done? {
      RemoveEffect(s, user, a, b, lp);
      var (ra, rb) := ReservesOrdered(s, a, b);
      assert PoolOk(s, PoolKey(a, b));
      PoolOkOrdered(s, a, b);
      NegativeWithdrawal(ra, rb, Supply(s, PoolKey(a, b)), lp);
    }
  }

  lemma RemoveKeeps(s: State, user: Address, a: Address, b: Address, lp: int)
    requires PoolsOk(s) && SharesNonnegative(s) && SuppliesCovered(s) && RemoveLiquidity(s, user, a, b, lp).Done?
    ensures var s' := RemoveLiquidity(s, user, a, b, lp).value.0;
            && PoolsOk(s') && SharesNonnegative(s') && SuppliesCovered(s')
            && forall pool: Pool :: Supply(s, pool) > 0 ==> ValueKept(s, s', pool)
  {
    hide *;
    RemoveEffect(s, user, a, b, lp);
    var (s', out) := RemoveLiquidity(s, user, a, b, lp).value;
    var (ra, rb) := ReservesOrdered(s, a, b);
    var pool := PoolKey(a, b);
    GoodPoolAt(s, a, b);
    HolderBound(s, user, pool);
    assert lp >= 0 by {
      if lp < 0 {
        NegativeWithdrawalReverts(s, user, a, b, lp);
      }
    }
    WithdrawFromGoodPool(ra, rb, Supply(s, pool), lp);
    PoolOkOrdered(s', a, b);
    ValueKeptOrdered(s, s', a, b);
    OnePoolMoved(s, s', a, b);
    SharesMoved(s, s', user, pool, -lp);
  }

  lemma WithdrawFromGoodPool(a: int, b: int, s: int, lp: int)
    requires GoodPool(a, b, s) && 0 <= lp <= s && s != 0
    ensures var (x, y) := (PoolMath.Quotient(lp * a, s), PoolMath.Quotient(lp * b, s));
            GoodPool(a - x, b - y, s - lp) && ShareValueKept(a, b, s, a - x, b - y, s - lp)
  {
    var (x, y) := (PoolMath.Quotient(lp * a, s), PoolMath.Quotient(lp * b, s));
    WithdrawKeeps(a, b, s, lp);
    BoundKept(a, b, s, a - x, b - y, s - lp);
  }

  // ----- Swaps -----

  lemma SettleEffect(s: State, o: Order)
    requires SettleOrder(s, o).Done?
    ensures var (s', r) := SettleOrder(s, o).value;
            var (rIn, rOut) := ReservesOrdered(s, o.tokenIn, o.tokenOut);
            && rIn != 0 && rOut != 0 && o.amountIn >= 0 && r.amountOut >= 0
            && QuoteSwap(s, o).Done? && QuoteSwap(s, o).value.0 == r.amountOut && QuoteSwap(s, o).value.1 == r.fee
            && r == SettlementResult(o.user, o.tokenIn, o.tokenOut, o.amountIn, r.amountOut, r.fee)
            && ReservesOrdered(s', o.tokenIn, o.tokenOut) == (rIn + o.amountIn, rOut - r.amountOut)
            && OnlyPool(s, s', PoolKey(o.tokenIn, o.tokenOut)) && s'.supply == s.supply && s'.shares == s.shares
            && s'.fees == s.fees[o.tokenIn := Get(s.fees, o.tokenIn) + r.fee]
            && s'.results == s.results && s'.admin == s.admin
  {
    hide Transfer, QuoteSwap, SetReservesOrdered, ReservesOrdered, ReservesAt, Fits;
    var (s', r) := SettleOrder(s, o).value;
    var (rIn, rOut) := ReservesOrdered(s, o.tokenIn, o.tokenOut);
    QuoteNonzero(s, o);
    var s1 := SetReservesOrdered(s, o.tokenIn, o.tokenOut, rIn + o.amountIn, rOut - r.amountOut);
    SetReservesEffect(s, o.tokenIn, o.tokenOut, rIn + o.amountIn, rOut - r.amountOut);
    TransferFromKeepsStorage(s1, o.tokenIn, o.user, o.amountIn);
    var s2 := TransferFrom(s1, o.tokenIn, o.user, o.amountIn).value;
    TransferKeepsStorage(s2, o.tokenOut, SELF, o.user, r.amountOut);
    var s3 := Transfer(s2, o.tokenOut, SELF, o.user, r.amountOut).value;
    assert s' == s3.(fees := s3.fees[o.tokenIn := Get(s.fees, o.tokenIn) + r.fee]);
    SameReserves(s', s1, o.tokenIn, o.tokenOut);
  }

  lemma QuoteDetails(s: State, o: Order)
    requires QuoteSwap(s, o).Done?
    ensures var (out, fee) := QuoteSwap(s, o).value;
            var (rIn, rOut) := ReservesOrdered(s, o.tokenIn, o.tokenOut);
            && fee == PoolMath.Quotient(o.amountIn * FEE_BPS, BPS_DENOMINATOR)
            && out == PoolMath.Quotient((o.amountIn - fee) * rOut, rIn + (o.amountIn - fee))
            && o.minAmountOut <= out
  {
    hide PoolMath.Quotient, ReservesOrdered;
  }

  lemma QuoteNonzero(s: State, o: Order)
    requires QuoteSwap(s, o).Done?
    ensures var (rIn, rOut) := ReservesOrdered(s, o.tokenIn, o.tokenOut);
            rIn != 0 && rOut != 0
  {
  }

  lemma TransferFromKeepsStorage(s: State, token: Address, from: Address, amount: int)
    requires TransferFrom(s, token, from, amount).Done?
    ensures var s' := TransferFrom(s, token, from, amount).value;
            s' == s.(balances := s'.balances, allowances := s'.allowances) && amount >= 0
  {
  }

  /** A settled order gets at least its minimum, strictly less than the reserve,
      and does not lower the product of the reserves. */
  lemma SettledOrder(s: State, o: Order)
    requires PoolsOk(s) && SettleOrder(s, o).Done?
    ensures var (s', r) := SettleOrder(s, o).value;
            var ((rIn, rOut), (rIn', rOut')) :=
              (ReservesOrdered(s, o.tokenIn, o.tokenOut), ReservesOrdered(s', o.tokenIn, o.tokenOut));
            && o.minAmountOut <= r.amountOut < rOut
            && 0 <= r.fee <= o.amountIn
            && rIn > 0 && rOut > 0 && rIn' * rOut' >= rIn * rOut
  {
    hide *;
    SettleEffect(s, o);
    var (rIn, rOut) := ReservesOrdered(s, o.tokenIn, o.tokenOut);
    GoodPoolAt(s, o.tokenIn, o.tokenOut);
    QuoteDetails(s, o);
    SwapInGoodPool(rIn, rOut, Supply(s, PoolKey(o.tokenIn, o.tokenOut)), o.amountIn);
  }

  lemma SwapInGoodPool(a: int, b: int, s: int, x: int)
    requires GoodPool(a, b, s) && a != 0 && b != 0 && x >= 0
    ensures var fee := PoolMath.Quotient(x * FEE_BPS, BPS_DENOMINATOR);
            var out := PoolMath.Quotient((x - fee) * b, a + (x - fee));
            && a > 0 && b > 0 && 0 <= fee <= x && 0 <= out < b
            && (a + x) * (b - out) >= a * b
            && GoodPool(a + x, b - out, s) && ShareValueKept(a, b, s, a + x, b - out, s)
  {
    var fee := PoolMath.Quotient(x * FEE_BPS, BPS_DENOMINATOR);
    var out := PoolMath.Quotient((x - fee) * b, a + (x - fee));
    SwapKeeps(a, b, x);
    MulNonnegative(s, s);
    MulMono(a * b, (a + x) * (b - out), s * s);
  }

  lemma SettleKeeps(s: State, o: Order)
    requires PoolsOk(s) && SettleOrder(s, o).Done?
    ensures var s' := SettleOrder(s, o).value.0;
            PoolsOk(s') && forall pool: Pool :: Supply(s, pool) > 0 ==> ValueKept(s, s', pool)
  {
    hide *;
    var s' := SettleOrder(s, o).value.0;
    var (a, b) := (o.tokenIn, o.tokenOut);
    var (rIn, rOut) := ReservesOrdered(s, a, b);
    SettleEffect(s, o);
    GoodPoolAt(s, a, b);
    QuoteDetails(s, o);
    SupplySame(s, s', PoolKey(a, b));
    SwapInGoodPool(rIn, rOut, Supply(s, PoolKey(a, b)), o.amountIn);
    PoolOkOrdered(s', a, b);
    ValueKeptOrdered(s, s', a, b);
    OnePoolMoved(s, s', a, b);
  }

  lemma SupplySame(s: State, s': State, pool: Pool)
    requires s.supply == s'.supply
    ensures Supply(s, pool) == Supply(s', pool)
  {
  }
}
