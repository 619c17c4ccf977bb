/** When a deposit into a pool goes through, how many shares it mints, and what it moves. */
module Deposits {
  import opened Outcomes
  import opened Totals
  import opened PoolMath
  import opened Settlement
  import opened SettlementInvariants
  import opened Payments

  // ----- The shares minted -----

  /** For the first shares of a pool the integer square root of the product; later the
      largest number of shares that neither deposit falls short of, at the pool's rate. */
  ghost predicate Mints(ra: int, rb: int, supply: int, x: int, y: int, lp: int) {
    && lp >= 0
    && if supply == 0 then lp * lp <= x * y < (lp + 1) * (lp + 1)
       else && lp * ra <= x * supply && lp * rb <= y * supply
            && ((lp + 1) * ra > x * supply || (lp + 1) * rb > y * supply)
  }

  /** The products fit i128, and for a first deposit the square root does not overflow. */
  predicate MintFits(ra: int, rb: int, supply: int, x: int, y: int) {
    if supply == 0 then Fits(x * y) && x * y != I128_MAX
    else Fits(x * supply) && Fits(y * supply)
  }

  lemma MintsOne(ra: int, rb: int, supply: int, x: int, y: int, lp: int, lp': int)
    requires ra >= 0 && rb >= 0 && Mints(ra, rb, supply, x, y, lp) && Mints(ra, rb, supply, x, y, lp')
    ensures lp == lp'
  {
    if lp < lp' {
      NoneLarger(ra, rb, supply, x, y, lp, lp');
    } else if lp' < lp {
      NoneLarger(ra, rb, supply, x, y, lp', lp);
    }
  }

  lemma NoneLarger(ra: int, rb: int, supply: int, x: int, y: int, lp: int, lp': int)
    requires ra >= 0 && rb >= 0 && Mints(ra, rb, supply, x, y, lp) && Mints(ra, rb, supply, x, y, lp')
    ensures lp >= lp'
  {
    if lp + 1 <= lp' {
      if supply == 0 {
        ProductMono(lp + 1, lp + 1, lp', lp');
      } else {
        MulMono(lp + 1, lp', ra);
        MulMono(lp + 1, lp', rb);
      }
    }
  }

  lemma SharesExactly(s: State, a: Address, b: Address, x: int, y: int)
    requires PoolsOk(s) && x >= 0 && y >= 0
    ensures var ((ra, rb), supply) := (ReservesOrdered(s, a, b), Supply(s, PoolKey(a, b)));
            && (SharesFor(s, a, b, x, y).Done? <==> MintFits(ra, rb, supply, x, y))
            && (SharesFor(s, a, b, x, y).Done? ==> Mints(ra, rb, supply, x, y, SharesFor(s, a, b, x, y).value))
  {
    var ((ra, rb), supply) := (ReservesOrdered(s, a, b), Supply(s, PoolKey(a, b)));
    GoodPoolAt(s, a, b);
    if supply == 0 {
      MulNonnegative(x, y);
    } else {
      BothPositive(ra, rb, supply);
      MintedLargest(ra, rb, supply, x, y);
    }
    hide ReservesOrdered, PoolKey, PoolsOk, PoolMath.Quotient, Fits, FloorSqrt;
  }

  lemma MintedLargest(ra: int, rb: int, supply: int, x: int, y: int)
    requires ra > 0 && rb > 0 && supply > 0 && x >= 0 && y >= 0
    ensures var (p, q) := (PoolMath.Quotient(x * supply, ra), PoolMath.Quotient(y * supply, rb));
            && Mints(ra, rb, supply, x, y, if q < p then q else p)
            && (Fits(x * supply) ==> Fits(p)) && (Fits(y * supply) ==> Fits(q))
  {
    var (p, q) := (PoolMath.Quotient(x * supply, ra), PoolMath.Quotient(y * supply, rb));
    MulNonnegative(x, supply);
    MulNonnegative(y, supply);
    QuotientBounds(x * supply, ra);
    QuotientBounds(y * supply, rb);
    QuotientAtMost(x * supply, ra);
    QuotientAtMost(y * supply, rb);
    var lp := if q < p then q else p;
    MulMono(lp, p, ra);
    MulMono(lp, q, rb);
  }

  // ----- One deposit -----

  /** All that a deposit that mints lp shares needs. */
  ghost predicate CanDeposit(s: State, user: Address, a: Address, b: Address, x: int, y: int, lp: int) {
    var ((ra, rb), pool) := (ReservesOrdered(s, a, b), PoolKey(a, b));
    && MintFits(ra, rb, Supply(s, pool), x, y) && Mints(ra, rb, Supply(s, pool), x, y, lp)
    && CanPay(s, user, a, x, b, y) && CanTake(s, SELF, a, x, b, y)
    && Fits(ra + x) && Fits(rb + y) && Fits(Supply(s, pool) + lp) && Fits(Get(s.shares, (user, pool)) + lp)
  }

  /** The two amounts and the lp shares changed hands, and nothing else happened. */
  ghost predicate Deposited(s: State, s': State, user: Address, a: Address, b: Address, x: int, y: int, lp: int) {
    var ((ra, rb), pool) := (ReservesOrdered(s, a, b), PoolKey(a, b));
    && PaidOver(s, s', user, SELF, a, x, b, y) && s'.allowances == s.allowances
    && ReservesOrdered(s', a, b) == (ra + x, rb + y) && Supply(s', pool) == Supply(s, pool) + lp
    && OnlyPool(s, s', pool) && s'.shares == s.shares[(user, pool) := Get(s.shares, (user, pool)) + lp]
    && s'.fees == s.fees && s'.results == s.results && s'.admin == s.admin
  }

  lemma AddGoes(s: State, user: Address, a: Address, b: Address, x: int, y: int)
    ensures var ((ra, rb), pool, minted) := (ReservesOrdered(s, a, b), PoolKey(a, b), SharesFor(s, a, b, x, y));
            && (AddLiquidity(s, user, a, b, x, y).Done?
                <==> && minted.Done? && Transfer(s, a, user, SELF, x).Done?
                     && Transfer(Transfer(s, a, user, SELF, x).value, b, user, SELF, y).Done?
                     && Fits(ra + x) && Fits(rb + y) && Fits(Supply(s, pool) + minted.value)
                     && Fits(Get(s.shares, (user, pool)) + minted.value))
            && (AddLiquidity(s, user, a, b, x, y).Done? ==>
                  var s' := AddLiquidity(s, user, a, b, x, y).value.0;
                  && s'.balances == Transfer(Transfer(s, a, user, SELF, x).value, b, user, SELF, y).value.balances
                  && s'.allowances == s.allowances)
  {
    hide Transfer, SharesFor, SetReservesOrdered, ReservesOrdered, PoolKey, Fits;
    if Transfer(s, a, user, SELF, x).Done? {
      var s1 := Transfer(s, a, user, SELF, x).value;
      TransferKeepsStorage(s, a, user, SELF, x);
      if Transfer(s1, b, user, SELF, y).Done? {
        var s2 := Transfer(s1, b, user, SELF, y).value;
        TransferKeepsStorage(s1, b, user, SELF, y);
        var (ra, rb) := ReservesOrdered(s, a, b);
        SetReservesEffect(s2, a, b, ra + x, rb + y);
      }
    }
  }

  lemma DepositNeeds(s: State, user: Address, a: Address, b: Address, x: int, y: int)
    requires PoolsOk(s) && user != SELF && AddLiquidity(s, user, a, b, x, y).Done?
    ensures CanDeposit(s, user, a, b, x, y, AddLiquidity(s, user, a, b, x, y).value.1)
  {
    AddGoes(s, user, a, b, x, y);
    TwoPayments(s, user, SELF, a, x, b, y);
    AddEffect(s, user, a, b, x, y);
    SharesExactly(s, a, b, x, y);
    hide AddLiquidity, SharesFor, Transfer, Mints, MintFits, CanTake, ReservesOrdered, PoolKey, PoolsOk, PaidOver, Fits,
         Balance;
  }

  lemma DepositSuffices(s: State, user: Address, a: Address, b: Address, x: int, y: int, lp: int)
    requires PoolsOk(s) && user != SELF && CanDeposit(s, user, a, b, x, y, lp)
    ensures AddLiquidity(s, user, a, b, x, y).Done?
  {
    AddGoes(s, user, a, b, x, y);
    TwoPayments(s, user, SELF, a, x, b, y);
    SharesExactly(s, a, b, x, y);
    NonnegativePool(s, a, b);
    hide AddLiquidity, SharesFor, Transfer, Mints, MintFits, CanTake, ReservesOrdered, PoolKey, PoolsOk, PaidOver, Fits,
         Balance;
    MintsOne(ReservesOrdered(s, a, b).0, ReservesOrdered(s, a, b).1, Supply(s, PoolKey(a, b)), x, y, lp,
             SharesFor(s, a, b, x, y).value);
  }

  lemma NonnegativePool(s: State, a: Address, b: Address)
    requires PoolsOk(s)
    ensures ReservesOrdered(s, a, b).0 >= 0 && ReservesOrdered(s, a, b).1 >= 0 && Supply(s, PoolKey(a, b)) >= 0
  {
    GoodPoolAt(s, a, b);
  }

  lemma DepositPays(s: State, user: Address, a: Address, b: Address, x: int, y: int)
    requires user != SELF && AddLiquidity(s, user, a, b, x, y).Done?
    ensures PaidOver(s, AddLiquidity(s, user, a, b, x, y).value.0, user, SELF, a, x, b, y)
    ensures AddLiquidity(s, user, a, b, x, y).value.0.allowances == s.allowances
  {
    hide *;
    AddGoes(s, user, a, b, x, y);
    TwoPayments(s, user, SELF, a, x, b, y);
    SamePayments(s, Transfer(Transfer(s, a, user, SELF, x).value, b, user, SELF, y).value,
                 AddLiquidity(s, user, a, b, x, y).value.0, user, SELF, a, x, b, y);
  }

  lemma DepositDoes(s: State, user: Address, a: Address, b: Address, x: int, y: int)
    requires user != SELF && AddLiquidity(s, user, a, b, x, y).Done?
    ensures var (s', lp) := AddLiquidity(s, user, a, b, x, y).value;
            Deposited(s, s', user, a, b, x, y, lp)
  {
    hide AddLiquidity, SharesFor, Transfer, Mints, MintFits, CanTake, CanPay, ReservesOrdered, PoolKey, PoolsOk,
         PaidOver, Fits, Balance, OnlyPool;
    AddEffect(s, user, a, b, x, y);
    DepositPays(s, user, a, b, x, y);
  }

  /** Exactly when a deposit goes through, and what it does. */
  lemma DepositExactly(s: State, user: Address, a: Address, b: Address, x: int, y: int)
    requires PoolsOk(s) && user != SELF
    ensures AddLiquidity(s, user, a, b, x, y).Done? <==> exists lp :: CanDeposit(s, user, a, b, x, y, lp)
    ensures AddLiquidity(s, user, a, b, x, y).Done? ==>
              var (s', lp) := AddLiquidity(s, user, a, b, x, y).value;
              CanDeposit(s, user, a, b, x, y, lp) && Deposited(s, s', user, a, b, x, y, lp)
  {
    hide *;
    if AddLiquidity(s, user, a, b, x, y).Done? {
      DepositNeeds(s, user, a, b, x, y);
      DepositDoes(s, user, a, b, x, y);
    }
    forall lp | CanDeposit(s, user, a, b, x, y, lp) ensures AddLiquidity(s, user, a, b, x, y).Done? {
      DepositSuffices(s, user, a, b, x, y, lp);
    }
  }
}
