/** Transfers between one holder and another. */
module Payments {
  import opened Totals
  import opened PoolMath
  import opened Settlement

  lemma TransferExactly(s: State, token: Address, from: Address, to: Address, amount: int)
    requires from != to && amount >= 0
    ensures Transfer(s, token, from, to, amount).Done?
            <==> Balance(s, token, from) >= amount && Fits(Balance(s, token, to) + amount)
    ensures Transfer(s, token, from, to, amount).Done? ==>
              forall t, h :: Balance(Transfer(s, token, from, to, amount).value, t, h) == Balance(s, t, h)
                + if t != token then 0 else if h == from then -amount else if h == to then amount else 0
  {
  }

  /** Of token t, when x of a and y of b are paid. */
  function Paid(t: Address, a: Address, x: int, b: Address, y: int): int {
    (if t == a then x else 0) + (if t == b then y else 0)
  }

  /** The holder can pay x of a and y of b. */
  predicate CanPay(s: State, holder: Address, a: Address, x: int, b: Address, y: int) {
    && x >= 0 && y >= 0
    && Balance(s, a, holder) >= Paid(a, a, x, b, y) && Balance(s, b, holder) >= Paid(b, a, x, b, y)
  }

  /** The holder's balances are i128 numbers after each of the two payments. */
  predicate CanTake(s: State, holder: Address, a: Address, x: int, b: Address, y: int) {
    Fits(Balance(s, a, holder) + x) && Fits(Balance(s, b, holder) + Paid(b, a, x, b, y))
  }

  /** Just these two payments were made. */
  ghost predicate PaidOver(s: State, s': State, from: Address, to: Address, a: Address, x: int, b: Address, y: int) {
    forall t: Address, h: Address ::
      Balance(s', t, h) == Balance(s, t, h)
        + if h == to then Paid(t, a, x, b, y) else if h == from then -Paid(t, a, x, b, y) else 0
  }

  lemma TwoPayments(s: State, from: Address, to: Address, a: Address, x: int, b: Address, y: int)
    requires from != to
    ensures Transfer(s, a, from, to, x).Done? && Transfer(Transfer(s, a, from, to, x).value, b, from, to, y).Done?
            <==> CanPay(s, from, a, x, b, y) && CanTake(s, to, a, x, b, y)
    ensures Transfer(s, a, from, to, x).Done? && Transfer(Transfer(s, a, from, to, x).value, b, from, to, y).Done?
            ==> PaidOver(s, Transfer(Transfer(s, a, from, to, x).value, b, from, to, y).value, from, to, a, x, b, y)
  {
    NegativeRefused(s, a, from, to, x);
    if x >= 0 && Transfer(s, a, from, to, x).Done? {
      var s1 := Transfer(s, a, from, to, x).value;
      TransferExactly(s, a, from, to, x);
      NegativeRefused(s1, b, from, to, y);
      if y >= 0 {
        TransferExactly(s1, b, from, to, y);
      }
      hide Transfer, Fits, Balance;
    } else if x >= 0 {
      TransferExactly(s, a, from, to, x);
    }
  }

  lemma NegativeRefused(s: State, token: Address, from: Address, to: Address, amount: int)
    ensures Transfer(s, token, from, to, amount).Done? ==> amount >= 0
  {
  }

  lemma SamePayments(s: State, s': State, s'': State, from: Address, to: Address, a: Address, x: int, b: Address,
                     y: int)
    requires PaidOver(s, s', from, to, a, x, b, y) && s''.balances == s'.balances
    ensures PaidOver(s, s'', from, to, a, x, b, y)
  {
    forall t: Address, h: Address ensures Balance(s'', t, h) == Balance(s', t, h) {
    }
  }
}
