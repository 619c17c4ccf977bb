/** Arithmetic modulo the prime group order: congruences, Euclid's lemma and
    Fermat's little theorem, on which the key shares and their interpolation rest. */
module Residues {
  import opened Collections

  ghost predicate Divides(d: int, n: int)
    requires d != 0
  {
    n % d == 0
  }

  ghost predicate IsPrime(p: int) {
    p >= 2 && forall d :: 2 <= d < p ==> !Divides(d, p)
  }

  type Prime = p: int | IsPrime(p) witness 2

  /** The order of the group. Nothing is known about it except that it is prime. */
  const order: Prime
  const L: int := order

  /** JavaScript's remainder: it takes the sign of the dividend. */
  function JsRem(a: int, b: int): int
    requires b > 0
  {
    if a >= 0 then a % b else -(-a % b)
  }

  /** `mod`: the double remainder that makes a negative operand positive. */
  function Mod(a: int): (r: int)
    ensures 0 <= r < L && Cong(r, a)
  {
    var r := JsRem(JsRem(a, L) + L, L);
    assert Cong(r, a) by { ModCong(a); }
    r
  }

  /** A product under a name, for statements whose proofs should not see into it. */
  function Mul(a: int, b: int): int {
    a * b
  }

  function Times(k: int): int {
    k * L
  }

  /** Congruence modulo L. */
  ghost predicate Cong(a: int, b: int) {
    exists k :: a == b + Times(k)
  }

  lemma CongBy(a: int, b: int, k: int)
    requires a == b + k * L
    ensures Cong(a, b)
  {
    assert a == b + Times(k);
  }

  ghost function CongQuotient(a: int, b: int): (k: int)
    requires Cong(a, b)
    ensures a == b + k * L
  {
    var k :| a == b + Times(k);
    k
  }

  lemma JsRemCong(a: int)
    ensures Cong(JsRem(a, L), a) && -L < JsRem(a, L) < L
    ensures a >= 0 ==> JsRem(a, L) >= 0
  {
    if a >= 0 {
      CongBy(a % L, a, -(a / L));
    } else {
      CongBy(-(-a % L), a, -a / L);
    }
  }

  lemma ModCong(a: int)
    ensures Cong(JsRem(JsRem(a, L) + L, L), a)
    ensures 0 <= JsRem(JsRem(a, L) + L, L) < L
  {
    hide JsRem;
    JsRemCong(a);
    var x := JsRem(a, L) + L;
    JsRemCong(x);
    var j := CongQuotient(JsRem(a, L), a);
    var k := CongQuotient(JsRem(x, L), x);
    CongBy(JsRem(x, L), a, j + k + 1);
  }

  lemma CongSym(a: int, b: int)
    requires Cong(a, b)
    ensures Cong(b, a)
  {
    var k := CongQuotient(a, b);
    CongBy(b, a, -k);
  }

  lemma CongTrans(a: int, b: int, c: int)
    requires Cong(a, b) && Cong(b, c)
    ensures Cong(a, c)
  {
    var j, k := CongQuotient(a, b), CongQuotient(b, c);
    CongBy(a, c, j + k);
  }

  lemma CongAdd(a: int, b: int, c: int, d: int)
    requires Cong(a, b) && Cong(c, d)
    ensures Cong(a + c, b + d)
  {
    var j, k := CongQuotient(a, b), CongQuotient(c, d);
    CongBy(a + c, b + d, j + k);
  }

  lemma CongScale(m: int, a: int, b: int)
    requires Cong(a, b)
    ensures Cong(m * a, m * b) && Cong(a * m, b * m)
  {
    var k := CongQuotient(a, b);
    assert m * a == m * b + (m * k) * L;
    CongBy(m * a, m * b, m * k);
  }

  lemma CongMul(a: int, b: int, c: int, d: int)
    requires Cong(a, b) && Cong(c, d)
    ensures Cong(a * c, b * d)
  {
    CongScale(c, a, b);
    CongScale(b, c, d);
    CongTrans(a * c, b * c, b * d);
  }

  lemma MultipleIsLarge(k: int)
    requires k != 0
    ensures k * L >= L || k * L <= -L
  {
  }

  /** A residue is determined by its congruence class. */
  lemma CongUnique(r: int, s: int)
    requires 0 <= r < L && 0 <= s < L && Cong(r, s)
    ensures r == s
  {
    var k := CongQuotient(r, s);
    if k != 0 {
      MultipleIsLarge(k);
    }
  }

  /** `mod` agrees on two integers exactly when they are congruent. */
  lemma ModEq(a: int, b: int)
    ensures Mod(a) == Mod(b) <==> Cong(a, b)
  {
    CongSym(Mod(a), a);
    if Mod(a) == Mod(b) {
      CongTrans(a, Mod(a), b);
    }
    if Cong(a, b) {
      CongTrans(Mod(a), a, b);
      CongSym(Mod(b), b);
      CongTrans(Mod(a), b, Mod(b));
      CongUnique(Mod(a), Mod(b));
    }
  }

  lemma ModSmall(a: int)
    requires 0 <= a < L
    ensures Mod(a) == a
  {
    CongUnique(Mod(a), a);
  }

  lemma EuclidSmall(a: int, b: int)
    requires 0 < a < L && Cong(a * b, 0)
    ensures Cong(b, 0)
    decreases a
  {
    if a > 1 {
      assert !Divides(a, L);
      var q, r := L / a, L % a;
      var k := CongQuotient(a * b, 0);
      calc {
        r * b;
        (L - q * a) * b;
        L * b - q * (a * b);
        L * b - q * (k * L);
        0 + (b - q * k) * L;
      }
      CongBy(r * b, 0, b - q * k);
      EuclidSmall(r, b);
    }
  }

  /** Euclid's lemma: L divides a product only if it divides a factor. */
  lemma Euclid(a: int, b: int)
    requires Cong(a * b, 0)
    ensures Cong(a, 0) || Cong(b, 0)
  {
    var r := Mod(a);
    if r == 0 {
      CongSym(r, a);
    } else {
      CongScale(b, r, a);
      CongTrans(r * b, a * b, 0);
      EuclidSmall(r, b);
    }
  }

  /** A factor that L does not divide can be cancelled. */
  lemma CongCancel(d: int, a: int, b: int)
    requires !Cong(d, 0) && Cong(d * a, d * b)
    ensures Cong(a, b)
  {
    assert d * (a - b) == d * a - d * b;
    Euclid(d, a - b);
  }

  function Pow(a: int, n: nat): int {
    if n == 0 then 1 else a * Pow(a, n - 1)
  }

  lemma PowStep(a: int, n: nat)
    requires n > 0
    ensures Pow(a, n) == Mul(a, Pow(a, n - 1))
  {
  }

  lemma {:induction false} PowCong(a: int, b: int, n: nat)
    requires Cong(a, b)
    ensures Cong(Pow(a, n), Pow(b, n))
  {
    if n == 0 {
      CongBy(1, 1, 0);
    } else {
      PowCong(a, b, n - 1);
      CongMul(a, b, Pow(a, n - 1), Pow(b, n - 1));
    }
  }

  lemma MulAssoc(a: int, b: int, c: int)
    ensures a * (b * c) == a * b * c
  {
  }

  lemma {:induction false} PowSquare(a: int, n: nat)
    ensures Pow(a * a, n) == Pow(a, 2 * n)
  {
    if n > 0 {
      PowSquare(a, n - 1);
      var m := 2 * n - 2;
      assert Pow(a, m + 1) == a * Pow(a, m);
      assert Pow(a, m + 2) == a * Pow(a, m + 1);
      MulAssoc(a, a, Pow(a, m));
    }
  }

  // ----- Fermat's little theorem: multiplication by a permutes the nonzero residues -----

  ghost function Units(n: nat): (s: set<int>)
    ensures forall x :: x in s <==> 1 <= x <= n
    ensures |s| == n
  {
    if n == 0 then {} else Units(n - 1) + {n}
  }

  ghost function Product(s: set<int>): int {
    if s == {} then 1 else var x := Pick(s); x * Product(s - {x})
  }

  lemma {:induction false} ProductPick(s: set<int>, x: int)
    requires x in s
    ensures Product(s) == Mul(x, Product(s - {x}))
    decreases |s|
  {
    var y := Pick(s);
    if x != y {
      ProductPick(s - {y}, x);
      ProductPick(s - {x}, y);
      assert s - {y} - {x} == s - {x} - {y};
      MulSwap(x, y, Product(s - {x} - {y}));
    }
  }

  lemma MulSwap(a: int, b: int, c: int)
    ensures a * (b * c) == b * (a * c)
  {
  }

  ghost function Scaled(a: int, s: set<int>): set<int> {
    set x | x in s :: Mod(Mul(a, x))
  }

  lemma ScaledInjective(a: int, x: int, y: int)
    requires !Cong(a, 0) && 1 <= x < L && 1 <= y < L && Mod(Mul(a, x)) == Mod(Mul(a, y))
    ensures x == y
  {
    ModEq(a * x, a * y);
    CongCancel(a, x, y);
    CongUnique(x, y);
  }

  lemma {:induction false} ScaledProduct(a: int, s: set<int>)
    requires !Cong(a, 0) && s <= Units(L - 1)
    ensures |Scaled(a, s)| == |s|
    ensures Cong(Product(Scaled(a, s)), Mul(Pow(a, |s|), Product(s)))
  {
    hide *;
    if s == {} {
      ScaledNothing(a);
    } else {
      var x := Pick(s);
      ScaledProduct(a, s - {x});
      ScaledWithout(a, s, x);
      ProductPick(Scaled(a, s), Mod(Mul(a, x)));
      ProductPick(s, x);
      PowStep(a, |s|);
      ScaledStep(a, x, Mod(Mul(a, x)), Pow(a, |s| - 1), Product(s - {x}), Product(Scaled(a, s - {x})));
    }
  }

  lemma ScaledNothing(a: int)
    ensures |Scaled(a, {})| == 0 && Cong(Product(Scaled(a, {})), Mul(Pow(a, 0), Product({})))
  {
    assert Scaled(a, {}) == {};
    CongBy(1, 1, 0);
  }

  lemma ScaledWithout(a: int, s: set<int>, x: int)
    requires !Cong(a, 0) && s <= Units(L - 1) && x in s
    ensures Mod(Mul(a, x)) in Scaled(a, s)
    ensures Scaled(a, s) - {Mod(Mul(a, x))} == Scaled(a, s - {x})
  {
    hide Cong, Mod;
    forall z | z in s - {x} && Mod(Mul(a, z)) == Mod(Mul(a, x)) ensures false {
      ScaledInjective(a, z, x);
    }
  }

  lemma ScaledStep(a: int, x: int, y: int, w: int, q: int, p: int)
    requires y == Mod(Mul(a, x)) && Cong(p, Mul(w, q))
    ensures Cong(Mul(y, p), Mul(Mul(a, w), Mul(x, q)))
  {
    CongMul(y, a * x, p, w * q);
    MulShuffle(a, x, w, q);
  }

  lemma MulShuffle(a: int, b: int, c: int, d: int)
    ensures (a * b) * (c * d) == (a * c) * (b * d)
  {
  }

  lemma {:induction false} ProductOfUnits(s: set<int>)
    requires s <= Units(L - 1)
    ensures !Cong(Product(s), 0)
  {
    if s == {} {
      CongUniqueIfZero(1);
    } else {
      var x := Pick(s);
      ProductPick(s, x);
      ProductOfUnits(s - {x});
      if Cong(Product(s), 0) {
        Euclid(x, Product(s - {x}));
        CongUniqueIfZero(x);
      }
    }
  }

  lemma CongUniqueIfZero(x: int)
    requires 0 < x < L
    ensures !Cong(x, 0)
  {
    if Cong(x, 0) {
      CongUnique(x, 0);
    }
  }

  lemma ScaledUnits(a: int)
    requires !Cong(a, 0)
    ensures Scaled(a, Units(L - 1)) == Units(L - 1)
  {
    var u := Units(L - 1);
    ScaledProduct(a, u);
    forall y | y in Scaled(a, u) ensures y in u {
      var x :| x in u && y == Mod(Mul(a, x));
      if y == 0 {
        CongSym(y, a * x);
        Euclid(a, x);
        CongUniqueIfZero(x);
      }
    }
    SubsetOfEqualSize(Scaled(a, u), u);
  }

  /** Fermat's little theorem for the group order. */
  lemma {:induction false} Fermat(a: int)
    requires !Cong(a, 0)
    ensures Cong(Pow(a, L - 1), 1)
  {
    hide Cong, Scaled, Product, Pow;
    var u := Units(L - 1);
    ScaledUnits(a);
    ScaledProduct(a, u);
    ProductOfUnits(u);
    SolveForPower(Product(u), Pow(a, L - 1));
  }

  lemma SolveForPower(p: int, w: int)
    requires !Cong(p, 0) && Cong(p, Mul(w, p))
    ensures Cong(w, 1)
  {
    CongSym(p, w * p);
    CongCancel(p, w, 1);
  }
}
