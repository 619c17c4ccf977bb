/** What a decrypted order must look like before it is settled. */
module PlainOrders {
  import opened Outcomes
  import opened Bytes
  import opened Text
  import PoolMath

  /** A field of a parsed JSON object. A missing field is not in the map. */
  datatype Field = TextField(text: string) | NumberField(number: int) | OtherField

  /** `JSON.parse`, as the fields of its result; a result without fields has none. */
  type JsonParser = seq<byte> -> Outcome<map<string, Field>>

  datatype DecryptedOrder = DecryptedOrder(user: string, tokenIn: string, tokenOut: string, amountIn: string,
                                           minAmountOut: string)

  /** The text is a number without leading zeros. */
  predicate IsNumber(s: string) {
    |s| >= 1 && '1' <= s[0] <= '9' && forall k :: 0 <= k < |s| ==> IsDigit(s[k])
  }

  predicate IsAmount(s: string) {
    IsNumber(s) && |s| <= 38
  }

  predicate IsSymbol(s: string) {
    1 <= |s| <= 12 && forall k :: 0 <= k < |s| ==> 'A' <= s[k] <= 'Z' || IsDigit(s[k])
  }

  function TextOf(fields: map<string, Field>, key: string): Outcome<string> {
    if key in fields && fields[key].TextField? then Returns(fields[key].text) else Throws
  }

  /** `parseDecryptedOrder`. */
  function ParseDecryptedOrder(json: JsonParser, plaintext: seq<byte>, user: string, nonce: int)
    : Outcome<DecryptedOrder>
  {
    var raw :- json(plaintext);
    var owner :- TextOf(raw, "user");
    var tokenIn :- TextOf(raw, "token_in");
    var tokenOut :- TextOf(raw, "token_out");
    var amountIn :- TextOf(raw, "amount_in");
    var minimum :- TextOf(raw, "min_amount_out");
    if owner != user then Throws
    else if "nonce" !in raw || raw["nonce"] != NumberField(nonce) then Throws
    else if !IsSymbol(tokenIn) || !IsSymbol(tokenOut) || tokenIn == tokenOut then Throws
    else if !IsAmount(amountIn) then Throws
    else if minimum != "0" && !IsAmount(minimum) then Throws
    else Returns(DecryptedOrder(owner, tokenIn, tokenOut, amountIn, minimum))
  }

  function Power10(n: nat): (p: nat)
    ensures p >= 1
  {
    if n == 0 then 1 else 10 * Power10(n - 1)
  }

  lemma DigitsNext(m: nat, c: char)
    requires m >= 1 && IsDigit(c)
    ensures Digits(10 * m + DigitValue(c)) == Digits(m) + [c]
  {
    var d := DigitValue(c);
    assert (10 * m + d) / 10 == m && (10 * m + d) % 10 == d && DigitChar(d) == c;
  }

  lemma NotEmpty(s: string)
    requires IsNumber(s)
    ensures |s| >= 1
  {
  }

  lemma OneDigit(s: string)
    requires IsNumber(s) && |s| == 1
    ensures Value(s) == DigitValue(s[0]) >= 1 && Digits(DigitValue(s[0])) == s
  {
    assert s[..0] == [] && DigitChar(DigitValue(s[0])) == s[0];
  }

  lemma Shorter(s: string, n: nat)
    requires IsNumber(s) && |s| == n + 1 && n >= 1
    ensures IsNumber(s[..n]) && IsDigit(s[n]) && s == s[..n] + [s[n]]
    ensures Value(s) == 10 * Value(s[..n]) + DigitValue(s[n])
  {
  }

  lemma Power10Next(n: nat)
    ensures Power10(0) == 1 && Power10(n + 1) == 10 * Power10(n)
  {
  }

  lemma TenTimes(p: nat, v: nat, q: nat, d: nat)
    requires p <= v < q && d <= 9
    ensures 10 * p <= 10 * v + d < 10 * q
  {
  }

  /** A number of n digits is between 10^(n-1) and 10^n. */
  lemma {:induction false} NumberBounds(s: string)
    requires IsNumber(s)
    ensures Power10(|s| - 1) <= Value(s) < Power10(|s|)
  {
    hide *;
    NotEmpty(s);
    var n := |s| - 1;
    Power10Next(n);
    if n == 0 {
      OneDigit(s);
    } else {
      Shorter(s, n);
      NumberBounds(s[..n]);
      Power10Next(n - 1);
      TenTimes(Power10(n - 1), Value(s[..n]), Power10(n), DigitValue(s[n]));
    }
  }

  /** A number has the value that is printed as it. */
  lemma {:induction false} NumberPrints(s: string)
    requires IsNumber(s)
    ensures Value(s) >= 1 && Digits(Value(s)) == s
  {
    hide *;
    NotEmpty(s);
    var n := |s| - 1;
    if n == 0 {
      OneDigit(s);
    } else {
      Shorter(s, n);
      NumberPrints(s[..n]);
      DigitsNext(Value(s[..n]), s[n]);
    }
  }

  lemma {:induction false} PrintedNumeral(n: nat, size: nat)
    requires 0 < n < Power10(size)
    ensures IsNumber(Digits(n)) && |Digits(n)| <= size
  {
    DigitsAreDigits(n);
    if n >= 10 {
      PrintedNumeral(n / 10, size - 1);
    }
  }

  lemma {:induction false} Power10Monotone(m: nat, n: nat)
    requires m <= n
    ensures Power10(m) <= Power10(n)
  {
    if m < n {
      Power10Monotone(m, n - 1);
    }
  }

  lemma Power38()
    ensures Power10(38) == 100_000_000_000_000_000_000_000_000_000_000_000_000
  {
    assert Power10(10) == 10_000_000_000;
    assert Power10(20) == 100_000_000_000_000_000_000;
    assert Power10(30) == 1_000_000_000_000_000_000_000_000_000_000;
  }

  /** The accepted amounts are exactly the decimal texts of 1 to 10^38 - 1, all of
      which the settlement contract can represent. */
  lemma AmountsFit(s: string)
    ensures IsAmount(s) <==> exists n: nat :: 0 < n < Power10(38) && s == Digits(n)
    ensures IsAmount(s) ==> 0 < Value(s) <= PoolMath.I128_MAX && Digits(Value(s)) == s
  {
    Power38();
    if IsAmount(s) {
      NumberBounds(s);
      NumberPrints(s);
      Power10Monotone(|s|, 38);
    }
    forall n: nat | 0 < n < Power10(38) && s == Digits(n) ensures IsAmount(s) {
      PrintedNumeral(n, 38);
    }
  }

  /** What an honest client writes into an order. */
  function ClientFields(user: string, nonce: int, tokenIn: string, tokenOut: string, amountIn: nat, minimum: nat)
    : map<string, Field>
  {
    map["user" := TextField(user), "nonce" := NumberField(nonce), "token_in" := TextField(tokenIn),
        "token_out" := TextField(tokenOut), "amount_in" := TextField(Digits(amountIn)),
        "min_amount_out" := TextField(Digits(minimum))]
  }

  /** Between one and twelve capital letters and digits, by their ASCII codes. */
  ghost predicate NamesToken(s: string) {
    0 < |s| < 13 && forall k :: 0 <= k < |s| ==> 65 <= s[k] as int <= 90 || 48 <= s[k] as int <= 57
  }

  lemma SymbolExactly(s: string)
    ensures IsSymbol(s) <==> NamesToken(s)
  {
  }

  /** Amounts below 10^38, the first of them positive, between two different tokens. */
  ghost predicate Tradable(tokenIn: string, tokenOut: string, amountIn: nat, minimum: nat) {
    && NamesToken(tokenIn) && NamesToken(tokenOut) && tokenIn != tokenOut
    && 0 < amountIn < Power10(38) && minimum < Power10(38)
  }

  lemma MinimumFits(s: string)
    ensures s == "0" || IsAmount(s) <==> exists m: nat :: m < Power10(38) && s == Digits(m)
  {
    AmountsFit(s);
    assert Digits(0) == "0";
    Power10Monotone(0, 38);
    forall m: nat | m < Power10(38) && s == Digits(m) ensures s == "0" || IsAmount(s) {
      if m > 0 {
        PrintedNumeral(m, 38);
      }
    }
  }

  ghost predicate Contains(raw: map<string, Field>, fields: map<string, Field>) {
    forall key :: key in fields ==> key in raw && raw[key] == fields[key]
  }

  /** The plaintext holds the order o of this user under this nonce, as a client writes it. */
  ghost predicate Holds(json: JsonParser, plaintext: seq<byte>, user: string, nonce: int, o: DecryptedOrder,
                        amountIn: nat, minimum: nat)
  {
    && Tradable(o.tokenIn, o.tokenOut, amountIn, minimum)
    && o == DecryptedOrder(user, o.tokenIn, o.tokenOut, Digits(amountIn), Digits(minimum))
    && json(plaintext).Returns?
    && Contains(json(plaintext).value, ClientFields(user, nonce, o.tokenIn, o.tokenOut, amountIn, minimum))
  }

  /** An order is accepted if and only if the plaintext holds it: for this user and
      nonce, between two different tokens, with amounts that the settlement contract
      can represent. Other fields do not matter. */
  lemma AcceptedExactly(json: JsonParser, plaintext: seq<byte>, user: string, nonce: int, o: DecryptedOrder)
    ensures ParseDecryptedOrder(json, plaintext, user, nonce) == Returns(o)
            <==> exists amountIn: nat, minimum: nat :: Holds(json, plaintext, user, nonce, o, amountIn, minimum)
  {
    if ParseDecryptedOrder(json, plaintext, user, nonce) == Returns(o) {
      AcceptedHolds(json, plaintext, user, nonce, o);
    }
    forall n: nat, m: nat | Holds(json, plaintext, user, nonce, o, n, m)
      ensures ParseDecryptedOrder(json, plaintext, user, nonce) == Returns(o)
    {
      HeldAccepted(json, plaintext, user, nonce, o, n, m);
    }
  }

  lemma AcceptedHolds(json: JsonParser, plaintext: seq<byte>, user: string, nonce: int, o: DecryptedOrder)
    requires ParseDecryptedOrder(json, plaintext, user, nonce) == Returns(o)
    ensures exists amountIn: nat, minimum: nat :: Holds(json, plaintext, user, nonce, o, amountIn, minimum)
  {
    hide Digits, Power10, IsSymbol, NamesToken;
    SymbolExactly(o.tokenIn);
    SymbolExactly(o.tokenOut);
    AmountsFit(o.amountIn);
    MinimumFits(o.minAmountOut);
    var n: nat :| 0 < n < Power10(38) && o.amountIn == Digits(n);
    var m: nat :| m < Power10(38) && o.minAmountOut == Digits(m);
    assert Holds(json, plaintext, user, nonce, o, n, m);
  }

  lemma HeldAccepted(json: JsonParser, plaintext: seq<byte>, user: string, nonce: int, o: DecryptedOrder, n: nat,
                     m: nat)
    requires Holds(json, plaintext, user, nonce, o, n, m)
    ensures ParseDecryptedOrder(json, plaintext, user, nonce) == Returns(o)
  {
    hide Digits, Power10, IsSymbol, NamesToken, IsAmount, Contains, ClientFields, TextOf;
    SymbolExactly(o.tokenIn);
    SymbolExactly(o.tokenOut);
    AmountTexts(o.tokenIn, o.tokenOut, n, m);
    ClientTexts(json(plaintext).value, user, nonce, o.tokenIn, o.tokenOut, n, m);
  }

  lemma AmountTexts(tokenIn: string, tokenOut: string, n: nat, m: nat)
    requires Tradable(tokenIn, tokenOut, n, m)
    ensures IsAmount(Digits(n)) && (Digits(m) == "0" || IsAmount(Digits(m)))
  {
    hide Digits, Power10, NamesToken, IsAmount;
    AmountsFit(Digits(n));
    MinimumFits(Digits(m));
  }

  lemma ClientTexts(raw: map<string, Field>, user: string, nonce: int, tokenIn: string, tokenOut: string, n: nat,
                    m: nat)
    requires Contains(raw, ClientFields(user, nonce, tokenIn, tokenOut, n, m))
    ensures TextOf(raw, "user") == Returns(user) && "nonce" in raw && raw["nonce"] == NumberField(nonce)
    ensures TextOf(raw, "token_in") == Returns(tokenIn) && TextOf(raw, "token_out") == Returns(tokenOut)
    ensures TextOf(raw, "amount_in") == Returns(Digits(n)) && TextOf(raw, "min_amount_out") == Returns(Digits(m))
  {
    hide Digits;
    var fields := ClientFields(user, nonce, tokenIn, tokenOut, n, m);
    assert "user" in fields && "nonce" in fields && "token_in" in fields && "token_out" in fields;
    assert "amount_in" in fields && "min_amount_out" in fields;
  }
}
