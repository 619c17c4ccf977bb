/** Interpolation at zero: from the values of a polynomial of degree below t at
    t points, the Lagrange coefficients recover its value at zero. */
module Lagrange {
  import opened Residues

  /** The value at x of the polynomial with coefficients c, lowest degree first. */
  function Eval(c: seq<int>, x: int): int {
    if c == [] then 0 else c[0] + x * Eval(c[1..], x)
  }

  /** Synthetic division by (x - b). */
  function Quotient(c: seq<int>, b: int): (q: seq<int>)
    ensures |q| == if |c| == 0 then 0 else |c| - 1
  {
    if |c| <= 1 then [] else [Eval(c[1..], b)] + Quotient(c[1..], b)
  }

  lemma {:induction false} QuotientEval(c: seq<int>, b: int, x: int)
    ensures Eval(c, x) == Eval(c, b) + Mul(x - b, Eval(Quotient(c, b), x))
  {
    if |c| > 1 {
      var rest := c[1..];
      QuotientEval(rest, b, x);
      assert Quotient(c, b)[1..] == Quotient(rest, b);
      var p, q := Eval(rest, b), Eval(Quotient(rest, b), x);
      QuotientStep(x, b, p, q, Eval(rest, x), Eval(c, x), Eval(c, b));
    } else if |c| == 1 {
      assert c[1..] == [];
    }
  }

  lemma QuotientStep(x: int, b: int, p: int, q: int, v: int, cx: int, cb: int)
    requires v == p + (x - b) * q && cx - cb == x * v - b * p
    ensures cx == cb + (x - b) * (p + x * q)
  {
    MulSwap(x, x - b, q);
    assert x * v == x * p + x * ((x - b) * q);
  }

  /** The product of every index but i. */
  function Num(i: int, js: seq<int>): int {
    if js == [] then 1
    else
      var j := js[|js| - 1];
      (if j == i then 1 else j) * Num(i, js[..|js| - 1])
  }

  /** The product of the distances from i to every other index. */
  function Den(i: int, js: seq<int>): int {
    if js == [] then 1
    else
      var j := js[|js| - 1];
      (if j == i then 1 else j - i) * Den(i, js[..|js| - 1])
  }

  ghost predicate DistinctIndices(js: seq<int>) {
    forall m, n :: 0 <= m < n < |js| ==> !Cong(js[m], js[n])
  }

  ghost predicate NonzeroIndices(js: seq<int>) {
    forall m :: 0 <= m < |js| ==> !Cong(js[m], 0)
  }

  lemma {:induction false} DenNonzero(i: int, js: seq<int>)
    requires forall n :: 0 <= n < |js| && js[n] != i ==> !Cong(js[n], i)
    ensures !Cong(Den(i, js), 0)
  {
    if js == [] {
      CongUniqueIfZero(1);
    } else {
      var j, rest := js[|js| - 1], js[..|js| - 1];
      DenNonzero(i, rest);
      if j != i && Cong((j - i) * Den(i, rest), 0) {
        Euclid(j - i, Den(i, rest));
        CongAdd(j - i, 0, i, i) by { CongBy(i, i, 0); }
        assert false;
      }
    }
  }

  lemma {:induction false} NumNonzero(i: int, js: seq<int>)
    requires NonzeroIndices(js)
    ensures !Cong(Num(i, js), 0)
  {
    if js == [] {
      CongUniqueIfZero(1);
    } else {
      var j, rest := js[|js| - 1], js[..|js| - 1];
      NumNonzero(i, rest);
      if j != i && Cong(j * Num(i, rest), 0) {
        Euclid(j, Num(i, rest));
      }
    }
  }

  lemma {:induction false} FrontFactor(a: int, i: int, js: seq<int>)
    requires a != i
    ensures Num(i, [a] + js) == Num(i, js) * a
    ensures Den(i, [a] + js) == Den(i, js) * (a - i)
  {
    if js == [] {
      assert [a] + js == [a];
      assert [a][..0] == [];
    } else {
      var j, rest := js[|js| - 1], js[..|js| - 1];
      FrontFactor(a, i, rest);
      assert ([a] + js)[..|js|] == [a] + rest;
      var n, d := if j == i then 1 else j, if j == i then 1 else j - i;
      MulAssoc(n, Num(i, rest), a);
      MulAssoc(d, Den(i, rest), a - i);
    }
  }

  lemma BackFactor(b: int, i: int, js: seq<int>)
    requires b != i
    ensures Num(i, js + [b]) == Num(i, js) * b
    ensures Den(i, js + [b]) == Den(i, js) * (b - i)
  {
    assert (js + [b])[..|js|] == js;
  }

  /** The inverse of a as the code obtains it, by raising to the power L - 2. */
  function Inverse(a: int): (r: int)
    ensures 0 <= r < L
    ensures !Cong(a, 0) ==> Cong(r * a, 1)
  {
    assert !Cong(a, 0) ==> Cong(Mod(Pow(a, L - 2)) * a, 1) by {
      if !Cong(a, 0) {
        Fermat(a);
        CongScale(a, Mod(Pow(a, L - 2)), Pow(a, L - 2));
        CongTrans(Mod(Pow(a, L - 2)) * a, Pow(a, L - 1), 1);
      }
    }
    Mod(Pow(a, L - 2))
  }

  /** The Lagrange coefficient of i at zero over the index list js. */
  function Coefficient(i: int, js: seq<int>): (r: int)
    ensures 0 <= r < L
  {
    Mod(Num(i, js) * Inverse(Den(i, js)))
  }

  /** The equation that defines the coefficient. */
  lemma CoefficientEquation(i: int, js: seq<int>)
    requires forall n :: 0 <= n < |js| && js[n] != i ==> !Cong(js[n], i)
    ensures Cong(Coefficient(i, js) * Den(i, js), Num(i, js))
  {
    DenNonzero(i, js);
    var n, d, v := Num(i, js), Den(i, js), Inverse(Den(i, js));
    CongScale(d, Coefficient(i, js), n * v);
    CongScale(n, v * d, 1);
    MulAssoc(n, v, d);
    CongTrans(Coefficient(i, js) * d, n * v * d, n);
  }

  lemma CoefficientNonzero(i: int, js: seq<int>)
    requires forall n :: 0 <= n < |js| && js[n] != i ==> !Cong(js[n], i)
    requires NonzeroIndices(js)
    ensures Coefficient(i, js) != 0
  {
    CoefficientEquation(i, js);
    NumNonzero(i, js);
    if Coefficient(i, js) == 0 {
      CongSym(0 * Den(i, js), Num(i, js));
    }
  }

  /** The sum of coefficient times value over the indices js of the full list. */
  function Combination(js: seq<int>, full: seq<int>, vs: seq<int>): int
    requires |js| == |vs|
  {
    if js == [] then 0
    else
      var n := |js| - 1;
      Combination(js[..n], full, vs[..n]) + Mul(Coefficient(js[n], full), vs[n])
  }

  ghost predicate LinearValues(us: seq<int>, vs: seq<int>, ws: seq<int>, p: int, q: int) {
    |us| == |vs| == |ws| && forall k :: 0 <= k < |us| ==> us[k] == Mul(p, vs[k]) + Mul(q, ws[k])
  }

  lemma {:induction false} CombinationLinear(js: seq<int>, full: seq<int>, us: seq<int>, vs: seq<int>, ws: seq<int>,
                                             p: int, q: int)
    requires |js| == |us| && LinearValues(us, vs, ws, p, q)
    ensures Combination(js, full, us) == Mul(p, Combination(js, full, vs)) + Mul(q, Combination(js, full, ws))
  {
    if js != [] {
      var n := |js| - 1;
      assert us[n] == Mul(p, vs[n]) + Mul(q, ws[n]);
      assert LinearValues(us[..n], vs[..n], ws[..n], p, q) by {
        hide Mul;
      }
      CombinationLinear(js[..n], full, us[..n], vs[..n], ws[..n], p, q);
      LinearStep(p, q, Combination(js[..n], full, vs[..n]), Combination(js[..n], full, ws[..n]),
                 Coefficient(js[n], full), vs[n], ws[n]);
    }
  }

  lemma LinearStep(p: int, q: int, a: int, b: int, c: int, v: int, w: int)
    ensures (Mul(p, a) + Mul(q, b)) + Mul(c, Mul(p, v) + Mul(q, w)) == Mul(p, a + Mul(c, v)) + Mul(q, b + Mul(c, w))
  {
    MulSwap(c, p, v);
    MulSwap(c, q, w);
    assert c * (p * v + q * w) == c * (p * v) + c * (q * w);
  }

  /** The list full is the list rest with b put at its front or at its end. */
  ghost predicate Without(b: int, full: seq<int>, rest: seq<int>) {
    full == rest + [b] || full == [b] + rest
  }

  lemma WithoutEnds(full: seq<int>)
    requires full != []
    ensures Without(full[0], full, full[1..]) && Without(full[|full| - 1], full, full[..|full| - 1])
  {
    assert full == [full[0]] + full[1..];
    assert full == full[..|full| - 1] + [full[|full| - 1]];
  }

  /** Removing the index b from the list multiplies the coefficient of every
      other index i by (i - b), up to the factor -b. */
  lemma CoefficientWithout(i: int, b: int, full: seq<int>, rest: seq<int>)
    requires Without(b, full, rest)
    requires DistinctIndices(full) && i in rest
    ensures Cong(Coefficient(i, full) * (i - b), -b * Coefficient(i, rest))
  {
    var at :| 0 <= at < |rest| && rest[at] == i;
    DistinctFrom(i, full, if full == rest + [b] then at else at + 1);
    DistinctRest(b, full, rest);
    DistinctFrom(i, rest, at);
    assert b != i by {
      CongBy(i, i, 0);
      if full == rest + [b] {
        assert full[at] == i && full[|rest|] == b;
      } else {
        assert full[0] == b && full[at + 1] == i;
      }
    }
    if full == rest + [b] {
      BackFactor(b, i, rest);
    } else {
      FrontFactor(b, i, rest);
    }
    CoefficientEquation(i, full);
    CoefficientEquation(i, rest);
    DenNonzero(i, rest);
    CancelDen(Coefficient(i, full), Coefficient(i, rest), Den(i, rest), Num(i, rest), b, i);
  }

  lemma CancelDen(c: int, c': int, d: int, n: int, b: int, i: int)
    requires !Cong(d, 0) && Cong(c * (d * (b - i)), n * b) && Cong(c' * d, n)
    ensures Cong(c * (i - b), -b * c')
  {
    var k, m := CongQuotient(c * (d * (b - i)), n * b), CongQuotient(c' * d, n);
    calc {
      d * (c * (i - b));
      { MulSwap(d, c, i - b); assert d * (i - b) == -(d * (b - i)); }
      -(c * (d * (b - i)));
      -(n * b) - k * L;
    }
    calc {
      d * (-b * c');
      { MulSwap(d, -b, c'); }
      -b * (n + m * L);
      -(n * b) - b * (m * L);
      { MulAssoc(b, m, L); }
      -(n * b) - b * m * L;
    }
    CongBy(d * (c * (i - b)), d * (-b * c'), b * m - k);
    CongCancel(d, c * (i - b), -b * c');
  }

  lemma DistinctFrom(i: int, js: seq<int>, at: nat)
    requires DistinctIndices(js) && at < |js| && js[at] == i
    ensures forall n :: 0 <= n < |js| && js[n] != i ==> !Cong(js[n], i)
  {
    forall n | 0 <= n < |js| && js[n] != i ensures !Cong(js[n], i) {
      if Cong(js[n], i) {
        CongSym(js[n], i);
      }
    }
  }

  lemma DistinctRest(b: int, full: seq<int>, rest: seq<int>)
    requires Without(b, full, rest)
    requires DistinctIndices(full)
    ensures DistinctIndices(rest)
  {
    var shift := if full == rest + [b] then 0 else 1;
    forall m, n | 0 <= m < n < |rest| ensures !Cong(rest[m], rest[n]) {
      assert rest[m] == full[m + shift] && rest[n] == full[n + shift];
    }
  }

  /** The values vs are (x - b) times the values ws, at the points js. */
  ghost predicate DivisibleValues(js: seq<int>, b: int, vs: seq<int>, ws: seq<int>) {
    |js| == |vs| == |ws| && forall k :: 0 <= k < |js| ==> vs[k] == Mul(js[k] - b, ws[k])
  }

  lemma DivisibleSlices(js: seq<int>, b: int, vs: seq<int>, ws: seq<int>)
    requires DivisibleValues(js, b, vs, ws) && js != []
    ensures DivisibleValues(js[1..], b, vs[1..], ws[1..])
    ensures DivisibleValues(js[..|js| - 1], b, vs[..|js| - 1], ws[..|js| - 1])
  {
    hide Mul;
  }

  ghost predicate Within(js: seq<int>, rest: seq<int>) {
    forall k :: 0 <= k < |js| ==> js[k] in rest
  }

  lemma WithinPrefix(js: seq<int>, n: nat, rest: seq<int>)
    requires Within(js, rest) && n <= |js|
    ensures Within(js[..n], rest)
  {
  }

  lemma WithinSelf(js: seq<int>)
    ensures Within(js, js)
  {
  }

  /** Values that vanish at b combine over the full list as their quotients by
      (x - b) do over the list without b, up to the factor -b. */
  lemma {:induction false} DropIndex(js: seq<int>, b: int, full: seq<int>, rest: seq<int>, vs: seq<int>, ws: seq<int>)
    requires Without(b, full, rest)
    requires DistinctIndices(full)
    requires DivisibleValues(js, b, vs, ws)
    requires Within(js, rest)
    ensures Cong(Combination(js, full, vs), Mul(-b, Combination(js, rest, ws)))
  {
    if js == [] {
      CongBy(0, -b * 0, 0);
    } else {
      var n := |js| - 1;
      var i, w := js[n], ws[n];
      assert vs[n] == Mul(i - b, w) && i in rest;
      var s, t := Combination(js, full, vs), Combination(js, rest, ws);
      assert s == Combination(js[..n], full, vs[..n]) + Mul(Coefficient(i, full), vs[n]);
      assert t == Combination(js[..n], rest, ws[..n]) + Mul(Coefficient(i, rest), w);
      hide *;
      DivisibleSlices(js, b, vs, ws);
      WithinPrefix(js, n, rest);
      DropIndex(js[..n], b, full, rest, vs[..n], ws[..n]);
      CoefficientWithout(i, b, full, rest);
      DropStep(Combination(js[..n], full, vs[..n]), Combination(js[..n], rest, ws[..n]),
               Coefficient(i, full), Coefficient(i, rest), i, b, vs[n], w, s, t);
    }
  }

  lemma DropStep(s: int, t: int, c: int, c': int, i: int, b: int, v: int, w: int,
                 s': int, t': int)
    requires Cong(s, Mul(-b, t)) && Cong(c * (i - b), -b * c') && v == Mul(i - b, w)
    requires s' == s + Mul(c, v) && t' == t + Mul(c', w)
    ensures Cong(s', Mul(-b, t'))
  {
    CongScale(w, c * (i - b), -b * c');
    MulAssoc(c, i - b, w);
    MulAssoc(-b, c', w);
    CongAdd(s, -b * t, c * ((i - b) * w), -b * (c' * w));
    assert -b * (t + c' * w) == -b * t + -b * (c' * w);
  }

  lemma {:induction false} CombinationFront(js: seq<int>, full: seq<int>, vs: seq<int>)
    requires |vs| == |js| > 0 && vs[0] == 0
    ensures Combination(js, full, vs) == Combination(js[1..], full, vs[1..])
  {
    var n := |js| - 1;
    if n > 0 {
      CombinationFront(js[..n], full, vs[..n]);
      assert js[..n][1..] == js[1..][..n - 1];
      assert vs[..n][1..] == vs[1..][..n - 1];
    }
  }

  lemma ZeroAt(full: seq<int>, n: nat, vs: seq<int>, ws: seq<int>)
    requires n < |full| && DivisibleValues(full, full[n], vs, ws)
    ensures |vs| == |ws| == |full| && vs[n] == 0
  {
    assert vs[n] == Mul(full[n] - full[n], ws[n]);
  }

  /** `DropIndex` for the last and for the first index of the list itself. */
  lemma DropBack(full: seq<int>, n: nat, vs: seq<int>, ws: seq<int>)
    requires |full| == n + 1 && DistinctIndices(full)
    requires DivisibleValues(full, full[n], vs, ws)
    ensures Cong(Combination(full, full, vs), Mul(-full[n], Combination(full[..n], full[..n], ws[..n])))
  {
    var b, rest := full[n], full[..n];
    ZeroAt(full, n, vs, ws);
    assert Combination(full, full, vs) == Combination(rest, full, vs[..n]) + Mul(Coefficient(b, full), vs[n]);
    hide *;
    DivisibleSlices(full, b, vs, ws);
    WithinSelf(rest);
    WithoutEnds(full);
    DropIndex(rest, b, full, rest, vs[..n], ws[..n]);
  }

  lemma DropFront(full: seq<int>, vs: seq<int>, ws: seq<int>)
    requires full != [] && DistinctIndices(full)
    requires DivisibleValues(full, full[0], vs, ws)
    ensures Cong(Combination(full, full, vs), Mul(-full[0], Combination(full[1..], full[1..], ws[1..])))
  {
    hide *;
    var a, rest := full[0], full[1..];
    ZeroAt(full, 0, vs, ws);
    DivisibleSlices(full, a, vs, ws);
    WithinSelf(rest);
    CombinationFront(full, full, vs);
    WithoutEnds(full);
    DropIndex(rest, a, full, rest, vs[1..], ws[1..]);
  }

  function Ones(n: nat): (vs: seq<int>)
    ensures |vs| == n
  {
    seq(n, _ => 1)
  }

  function Distances(js: seq<int>, b: int): (vs: seq<int>)
    ensures |vs| == |js|
  {
    seq(|js|, k requires 0 <= k < |js| => js[k] - b)
  }

  /** The coefficients sum to one. */
  lemma {:induction false} CoefficientsSumToOne(js: seq<int>)
    requires js != [] && DistinctIndices(js)
    ensures Cong(Combination(js, js, Ones(|js|)), 1)
  {
    hide *;
    var n := |js| - 1;
    if n == 0 {
      CoefficientOfSingleton(js[0]);
      assert js == [js[0]];
    } else {
      WithoutEnds(js);
      DistinctRest(js[n], js, js[..n]);
      DistinctRest(js[0], js, js[1..]);
      CoefficientsSumToOne(js[..n]);
      CoefficientsSumToOne(js[1..]);
      SumToOneStep(js, n);
    }
  }

  lemma SumToOneStep(js: seq<int>, n: nat)
    requires DistinctIndices(js) && |js| == n + 1 >= 2
    requires Cong(Combination(js[..n], js[..n], Ones(n)), 1) && Cong(Combination(js[1..], js[1..], Ones(n)), 1)
    ensures Cong(Combination(js, js, Ones(n + 1)), 1)
  {
    hide *;
    var a, b, ones := js[0], js[n], Ones(n + 1);
    var us, ws := Distances(js, a), Distances(js, b);
    OnesSlices(n);
    EndsDiffer(js, a, b);
    DistancesFacts(js, a, b);
    DropBack(js, n, ws, ones);
    DropFront(js, us, ones);
    CombinationLinear(js, js, ws, us, ones, 1, a - b);
    SolveForSum(a, b, Combination(js, js, us), Combination(js, js, ws), Combination(js, js, ones),
                Combination(js[1..], js[1..], ones[1..]), Combination(js[..n], js[..n], ones[..n]));
  }

  lemma OnesSlices(n: nat)
    ensures Ones(n + 1)[..n] == Ones(n) == Ones(n + 1)[1..]
  {
  }

  lemma EndsDiffer(js: seq<int>, a: int, b: int)
    requires DistinctIndices(js) && |js| >= 2 && js[0] == a && js[|js| - 1] == b
    ensures !Cong(a, b)
  {
  }

  lemma DistancesFacts(js: seq<int>, a: int, b: int)
    ensures DivisibleValues(js, a, Distances(js, a), Ones(|js|))
    ensures DivisibleValues(js, b, Distances(js, b), Ones(|js|))
    ensures LinearValues(Distances(js, b), Distances(js, a), Ones(|js|), 1, a - b)
  {
  }

  lemma CoefficientOfSingleton(i: int)
    ensures Cong(Combination([i], [i], Ones(1)), 1)
  {
    CongBy(i, i, 0);
    CoefficientEquation(i, [i]);
    assert [i][..0] == [];
    assert Den(i, [i]) == 1 && Num(i, [i]) == 1;
    assert Ones(1) == [1];
    assert Combination([i], [i], [1]) == Combination([], [i], []) + Mul(Coefficient(i, [i]), 1) by {
      assert [1][..0] == [];
    }
  }

  lemma SolveForSum(a: int, b: int, x: int, y: int, s: int, s1: int, s2: int)
    requires !Cong(a, b) && y == Mul(1, x) + Mul(a - b, s)
    requires Cong(x, Mul(-a, s1)) && Cong(s1, 1) && Cong(y, Mul(-b, s2)) && Cong(s2, 1)
    ensures Cong(s, 1)
  {
    CongScale(-a, s1, 1);
    CongTrans(x, -a * s1, -a);
    CongScale(-b, s2, 1);
    CongTrans(y, -b * s2, -b);
    CongScale(-1, x, -a);
    CongAdd(y, -b, -1 * x, a);
    assert !Cong(a - b, 0) by {
      if Cong(a - b, 0) {
        CongBy(b, b, 0);
        CongAdd(a - b, 0, b, b);
      }
    }
    CongCancel(a - b, s, 1);
  }

  function Values(c: seq<int>, js: seq<int>): (vs: seq<int>)
    ensures |vs| == |js|
  {
    seq(|js|, k requires 0 <= k < |js| => Eval(c, js[k]))
  }

  /** Lagrange interpolation at zero: |js| distinct points recover the constant
      term of every polynomial with at most |js| coefficients. */
  lemma {:induction false} InterpolateAtZero(c: seq<int>, js: seq<int>)
    requires js != [] && |c| <= |js| && DistinctIndices(js)
    ensures Cong(Combination(js, js, Values(c, js)), Eval(c, 0))
    decreases |js|
  {
    hide *;
    var n := |js| - 1;
    var b, rest := js[n], js[..n];
    var q := Quotient(c, b);
    WithoutEnds(js);
    DistinctRest(b, js, rest);
    if rest == [] {
      ConstantOfEmpty(q);
    } else {
      InterpolateAtZero(q, rest);
    }
    InterpolateLast(c, js, n);
  }

  lemma ConstantOfEmpty(q: seq<int>)
    requires q == []
    ensures Cong(Combination([], [], Values(q, [])), Eval(q, 0))
  {
    CongBy(0, 0, 0);
  }

  lemma InterpolateLast(c: seq<int>, js: seq<int>, n: nat)
    requires |js| == n + 1 && DistinctIndices(js)
    requires Cong(Combination(js[..n], js[..n], Values(Quotient(c, js[n]), js[..n])), Eval(Quotient(c, js[n]), 0))
    ensures Cong(Combination(js, js, Values(c, js)), Eval(c, 0))
  {
    hide *;
    var b := js[n];
    var q, e := Quotient(c, b), Eval(c, b);
    var ds, ws := Remainders(c, js, b), Values(q, js);
    ValuesPrefix(q, js, n);
    DividedValues(c, js, b);
    SplitValues(c, js, b);
    CoefficientsSumToOne(js);
    CombinationLinear(js, js, Values(c, js), Ones(|js|), ds, e, 1);
    DropBack(js, n, ds, ws);
    QuotientEval(c, b, 0);
    SolveForConstant(b, e, Eval(q, 0), Combination(js, js, Ones(|js|)), Combination(js, js, ds),
                     Combination(js[..n], js[..n], Values(q, js[..n])));
  }

  lemma ValuesPrefix(q: seq<int>, js: seq<int>, n: nat)
    requires n <= |js|
    ensures Values(q, js)[..n] == Values(q, js[..n])
  {
    hide Eval;
  }

  function Remainders(c: seq<int>, js: seq<int>, b: int): (vs: seq<int>)
    ensures |vs| == |js|
  {
    seq(|js|, k requires 0 <= k < |js| => Eval(c, js[k]) - Eval(c, b))
  }

  lemma DividedValues(c: seq<int>, js: seq<int>, b: int)
    ensures DivisibleValues(js, b, Remainders(c, js, b), Values(Quotient(c, b), js))
  {
    hide Eval, Mul;
    forall k | 0 <= k < |js|
      ensures Remainders(c, js, b)[k] == Mul(js[k] - b, Values(Quotient(c, b), js)[k])
    {
      DividedValue(c, js[k], b);
    }
  }

  lemma SplitValues(c: seq<int>, js: seq<int>, b: int)
    ensures LinearValues(Values(c, js), Ones(|js|), Remainders(c, js, b), Eval(c, b), 1)
  {
    hide Eval, Mul;
    forall k | 0 <= k < |js|
      ensures Values(c, js)[k] == Mul(Eval(c, b), 1) + Mul(1, Remainders(c, js, b)[k])
    {
      SplitOff(Eval(c, js[k]), Eval(c, b));
    }
  }

  lemma SplitOff(v: int, e: int)
    ensures v == Mul(e, 1) + Mul(1, v - e)
  {
  }

  lemma DividedValue(c: seq<int>, x: int, b: int)
    ensures Eval(c, x) - Eval(c, b) == Mul(x - b, Eval(Quotient(c, b), x))
  {
    QuotientEval(c, b, x);
  }

  lemma SolveForConstant(b: int, e: int, q: int, s: int, d: int, r: int)
    requires Cong(s, 1) && Cong(d, Mul(-b, r)) && Cong(r, q)
    ensures Cong(Mul(e, s) + Mul(1, d), e + Mul(0 - b, q))
  {
    CongScale(-b, r, q);
    CongTrans(d, -b * r, -b * q);
    CongScale(e, s, 1);
    CongAdd(e * s, e, d, -b * q);
  }
}
