/** Integer arithmetic of the constant-product pool. */
module PoolMath {

  const I128_MAX := 0x7FFF_FFFF_FFFF_FFFF_FFFF_FFFF_FFFF_FFFF
  const I128_MIN := -I128_MAX - 1
  const FEE_BPS := 30
  const BPS_DENOMINATOR := 10_000

  predicate Fits(x: int) {
    I128_MIN <= x <= I128_MAX
  }

  /** Rust's division truncates toward zero. */
  function Quotient(a: int, b: int): int
    requires b != 0
  {
    if b > 0 then (if a >= 0 then a / b else -(-a / b))
    else (if a >= 0 then -(a / -b) else -a / -b)
  }

  lemma QuotientBounds(a: int, b: int)
    requires a >= 0 && b > 0
    ensures 0 <= Quotient(a, b) && Quotient(a, b) * b <= a < (Quotient(a, b) + 1) * b
  {
    var q := a / b;
    assert a == q * b + a % b;
    Cancel(0, q + 1, b);
  }

  lemma MulMono(a: int, b: int, c: int)
    requires a <= b && c >= 0
    ensures a * c <= b * c
  {
    assert b * c - a * c == (b - a) * c;
  }

  /** A positive factor can be cancelled from a strict inequality. */
  lemma Cancel(a: int, b: int, c: int)
    requires a * c < b * c && c > 0
    ensures a < b
  {
    if b <= a {
      MulMono(b, a, c);
    }
  }

  lemma QuotientAtMost(v: int, d: int)
    requires v >= 0 && d > 0
    ensures 0 <= Quotient(v, d) <= v
  {
    QuotientBounds(v, d);
    MulMono(1, d, Quotient(v, d));
  }

  lemma QuotientNegative(a: int, b: int)
    requires a <= 0 && b > 0
    ensures Quotient(a, b) <= 0 && -a < (-Quotient(a, b) + 1) * b
  {
    QuotientBounds(-a, b);
  }

  // ----- Integer square root -----

  /** The floor of the square root, by counting up. */
  function FloorSqrt(v: nat): (r: nat)
    ensures r * r <= v < (r + 1) * (r + 1)
  {
    if v == 0 then 0
    else
      var r := FloorSqrt(v - 1);
      if (r + 1) * (r + 1) <= v then r + 1 else r
  }

  lemma SqrtUnique(v: nat, r: nat)
    requires r * r <= v < (r + 1) * (r + 1)
    ensures r == FloorSqrt(v)
  {
    var s := FloorSqrt(v);
    SquareMonotone(r, s);
    SquareMonotone(s, r);
  }

  lemma SquareMonotone(r: nat, s: nat)
    ensures r < s ==> (r + 1) * (r + 1) <= s * s
  {
    if r < s {
      assert s * s - (r + 1) * (r + 1) == (s - (r + 1)) * (s + (r + 1));
    }
  }

  /** A Newton step from above the root stays above it, and falls unless x is the root. */
  lemma NewtonStep(v: nat, x: nat, s: nat)
    requires x >= 1 && x >= s && s * s <= v < (s + 1) * (s + 1)
    ensures (x + v / x) / 2 >= s
    ensures x > s ==> (x + v / x) / 2 < x
    ensures 0 <= v / x && (v / x) * x <= v
  {
    var q := v / x;
    assert v == q * x + v % x;
    NewtonLower(v, x, s, q);
    Cancel(0, q + 1, x);
    if x > s {
      SquareMonotone(s, x);
      Cancel(q, x, x);
    }
  }

  lemma NewtonLower(v: nat, x: nat, s: nat, q: int)
    requires s * s <= v < q * x + x && x >= 1
    ensures x + q >= 2 * s
  {
    SquareNonnegative(x - s);
    BelowSquare(x, s);
    assert (q + 1) * x == q * x + x;
    Cancel(2 * s - x, q + 1, x);
  }

  lemma BelowSquare(x: int, s: int)
    requires (x - s) * (x - s) >= 0
    ensures (2 * s - x) * x <= s * s
  {
    assert (x - s) * (x - s) == s * s - (2 * s - x) * x;
  }

  /** A call that may panic on overflow or division by zero. */
  datatype Checked = Panics | Value(value: int)

  /** `isqrt`: every operation is checked for overflow. The one input that
      overflows is the largest i128, at `x + 1`. */
  method Isqrt(value: int) returns (r: Checked)
    requires Fits(value)
    ensures r == Root(value)
  {
    if value < 2 {
      SmallRoots();
      return Value(if value < 0 then 0 else value);
    }
    var x := value;
    if !Fits(x + 1) {
      return Panics;
    }
    var y := (x + 1) / 2;
    ghost var s := FloorSqrt(value);
    FirstGuess(value, s);
    while y < x
      invariant 1 <= s <= x <= value && s <= y
      invariant s * s <= value < (s + 1) * (s + 1)
      invariant x > s ==> y < x
      decreases x
    {
      x := y;
      NewtonStep(value, x, s);
      HalfBound(value, x, value / x);
      assert Fits(x + value / x);
      y := (x + value / x) / 2;
    }
    SqrtUnique(value, s);
    return Value(x);
  }

  lemma SmallRoots()
    ensures FloorSqrt(0) == 0 && FloorSqrt(1) == 1
  {
    SqrtUnique(0, 0);
    SqrtUnique(1, 1);
  }

  /** x + v/x is at most v + 1 for 1 <= x <= v. */
  lemma HalfBound(v: nat, x: nat, q: nat)
    requires 1 <= x <= v && q * x <= v
    ensures x + q <= v + 1
  {
    if q >= 1 {
      assert (q - 1) * (x - 1) >= 0;
      assert (q - 1) * (x - 1) == q * x - q - x + 1;
    }
  }

  lemma FirstGuess(v: nat, s: nat)
    requires v >= 2 && s * s <= v < (s + 1) * (s + 1)
    ensures 1 <= s <= v && s <= (v + 1) / 2
  {
    assert (s - 1) * (s - 1) == s * s - 2 * s + 1;
    SquareNonnegative(s - 1);
  }

  lemma SquareNonnegative(x: int)
    ensures x * x >= 0
  {
  }

  /** What `isqrt` computes. */
  function Root(value: int): Checked {
    if value == I128_MAX then Panics
    else if value < 0 then Value(0)
    else Value(FloorSqrt(value))
  }

  // ----- Share value -----

  /** The value of a pool share, as the product of the reserves over the square of
      the supply, does not fall from (a, b, s) to (a', b', s'). */
  ghost predicate ShareValueKept(a: int, b: int, s: int, a': int, b': int, s': int) {
    a' * b' * (s * s) >= a * b * (s' * s')
  }

  lemma ProductMono(p: int, q: int, p': int, q': int)
    requires 0 <= p <= p' && 0 <= q <= q'
    ensures p * q <= p' * q'
  {
    MulMono(p, p', q);
    MulMono(q, q', p');
  }

  /** If each reserve per supply does not fall, neither does their product. */
  lemma EachReserveKept(a: int, b: int, s: int, a': int, b': int, s': int)
    requires a >= 0 && b >= 0 && s >= 0 && s' >= 0
    requires a * s' <= a' * s && b * s' <= b' * s
    ensures ShareValueKept(a, b, s, a', b', s')
  {
    ProductMono(a * s', b * s', a' * s, b' * s);
    assert (a * s') * (b * s') == a * b * (s' * s');
    assert (a' * s) * (b' * s) == a' * b' * (s * s);
  }

  /** A kept share value carries the bound supply² <= a·b over. */
  lemma BoundKept(a: int, b: int, s: int, a': int, b': int, s': int)
    requires s > 0 && s * s <= a * b && ShareValueKept(a, b, s, a', b', s')
    ensures s' * s' <= a' * b'
  {
    SquareNonnegative(s');
    MulMono(s * s, a * b, s' * s');
    assert (s * s) * (s' * s') == (s' * s') * (s * s);
    CancelWeak(s' * s', a' * b', s * s);
  }

  lemma CancelWeak(a: int, b: int, c: int)
    requires a * c <= b * c && c > 0
    ensures a <= b
  {
    if b < a {
      MulMono(b + 1, a, c);
    }
  }

  lemma ShareValueTransitive(a: int, b: int, s: int, a': int, b': int, s': int, a'': int, b'': int, s'': int)
    requires s' > 0 && ShareValueKept(a, b, s, a', b', s') && ShareValueKept(a', b', s', a'', b'', s'')
    ensures ShareValueKept(a, b, s, a'', b'', s'')
  {
    var p, p', p'' := a * b, a' * b', a'' * b'';
    var q, q', q'' := s * s, s' * s', s'' * s'';
    SquareNonnegative(s);
    SquareNonnegative(s'');
    MulMono(p * q', p' * q, q'');
    MulMono(p' * q'', p'' * q', q);
    Reorder(p, q', q'');
    Reorder(p', q, q'');
    Reorder(p'', q', q);
    CancelWeak(p * q'', p'' * q, q');
  }

  lemma Reorder(x: int, y: int, z: int)
    ensures x * y * z == x * z * y
  {
  }

  // ----- The three operations on reserves -----

  /** Minting lp <= min(x·s/a, y·s/b) for a deposit (x, y). */
  lemma DepositKeeps(a: int, b: int, s: int, x: int, y: int, lp: int)
    requires a > 0 && b > 0 && s > 0 && x >= 0 && y >= 0
    requires 0 <= lp <= Quotient(x * s, a) && lp <= Quotient(y * s, b)
    ensures lp * a <= x * s && lp * b <= y * s
    ensures ShareValueKept(a, b, s, a + x, b + y, s + lp)
  {
    hide *;
    MintBound(a, s, x, lp);
    MintBound(b, s, y, lp);
    EachReserveKept(a, b, s, a + x, b + y, s + lp);
  }

  lemma MintBound(a: int, s: int, x: int, lp: int)
    requires a > 0 && s > 0 && x >= 0 && 0 <= lp <= Quotient(x * s, a)
    ensures lp * a <= x * s && a * (s + lp) <= (a + x) * s
  {
    MulNonnegative(x, s);
    QuotientBounds(x * s, a);
    MulMono(lp, Quotient(x * s, a), a);
    assert a * (s + lp) == a * s + lp * a && (a + x) * s == a * s + x * s;
  }

  lemma MulNonnegative(x: int, y: int)
    requires x >= 0 && y >= 0
    ensures x * y >= 0
  {
  }

  /** Paying out lp·a/s and lp·b/s for lp of the supply s. */
  lemma WithdrawKeeps(a: int, b: int, s: int, lp: int)
    requires a >= 0 && b >= 0 && 0 <= lp <= s && s > 0
    ensures 0 <= Quotient(lp * a, s) <= a && 0 <= Quotient(lp * b, s) <= b
    ensures ShareValueKept(a, b, s, a - Quotient(lp * a, s), b - Quotient(lp * b, s), s - lp)
  {
    PayoutBounds(a, s, lp);
    PayoutBounds(b, s, lp);
    EachReserveKept(a, b, s, a - Quotient(lp * a, s), b - Quotient(lp * b, s), s - lp);
  }

  lemma PayoutBounds(a: int, s: int, lp: int)
    requires a >= 0 && 0 <= lp <= s && s > 0
    ensures 0 <= Quotient(lp * a, s) <= a && Quotient(lp * a, s) * s <= lp * a
    ensures a * (s - lp) <= (a - Quotient(lp * a, s)) * s
  {
    var q := Quotient(lp * a, s);
    MulNonnegative(lp, a);
    QuotientBounds(lp * a, s);
    MulMono(lp, s, a);
    assert q * s <= a * s;
    CancelWeak(q, a, s);
    assert a * (s - lp) == a * s - lp * a && (a - q) * s == a * s - q * s;
  }

  /** Burning a negative amount would pay out a negative amount of one token. */
  lemma NegativeWithdrawal(a: int, b: int, s: int, lp: int)
    requires a >= 0 && b >= 0 && s > 0 && s * s <= a * b && lp < 0
    ensures Quotient(lp * a, s) < 0 || Quotient(lp * b, s) < 0
  {
    NegativePayout(a, s, lp);
    NegativePayout(b, s, lp);
    if a < s && b < s {
      ProductMono(a, b, s - 1, s - 1);
      assert (s - 1) * (s - 1) == s * s - 2 * s + 1;
    }
  }

  lemma NegativePayout(a: int, s: int, lp: int)
    requires a >= 0 && s > 0 && lp < 0
    ensures Quotient(lp * a, s) == 0 ==> a < s
    ensures Quotient(lp * a, s) <= 0
  {
    MulMono(lp, -1, a);
    QuotientNegative(lp * a, s);
  }

  /** A swap of the amount x, of which the fee stays in the pool. */
  lemma SwapKeeps(a: int, b: int, x: int)
    requires a > 0 && b > 0 && x >= 0
    ensures var fee := Quotient(x * FEE_BPS, BPS_DENOMINATOR);
            var net := x - fee;
            var out := Quotient(net * b, a + net);
            && 0 <= fee <= x && 0 <= out < b
            && (a + x) * (b - out) >= a * b
  {
    var fee := Quotient(x * FEE_BPS, BPS_DENOMINATOR);
    QuotientBounds(x * FEE_BPS, BPS_DENOMINATOR);
    var net := x - fee;
    MulNonnegative(net, b);
    var out := Quotient(net * b, a + net);
    QuotientBounds(net * b, a + net);
    OutputBounds(a, b, net, out);
    MulMono(a + net, a + x, b - out);
  }

  lemma OutputBounds(a: int, b: int, net: int, out: int)
    requires a > 0 && b > 0 && net >= 0 && out >= 0 && out * (a + net) <= net * b
    ensures out < b && (a + net) * (b - out) >= a * b
  {
    assert b * (a + net) == a * b + net * b;
    MulPositive(a, b);
    Cancel(out, b, a + net);
    assert (a + net) * (b - out) == b * (a + net) - out * (a + net);
  }

  lemma MulPositive(x: int, y: int)
    requires x > 0 && y > 0
    ensures x * y > 0
  {
  }

  /** A deposit followed by the withdrawal of what it minted returns at most the deposit. */
  lemma RoundTripGainsNothing(a: int, s: int, x: int, lp: int)
    requires a >= 0 && s >= 0 && x >= 0 && lp > 0 && lp * a <= x * s
    ensures 0 <= Quotient(lp * (a + x), s + lp) <= x
  {
    assert lp * (a + x) == lp * a + lp * x && x * (s + lp) == x * s + lp * x;
    MulNonnegative(lp, a + x);
    QuotientBounds(lp * (a + x), s + lp);
    CancelWeak(Quotient(lp * (a + x), s + lp), x, s + lp);
  }
}
