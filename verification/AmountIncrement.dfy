/**
 Exactly convertible token amounts: Euclid's loop, the amount increment and the downward
 adjustment (packages/shared/src/financial.ts:264-273 and 383-464).
 */
module AmountIncrement {
  import opened Uint256
  import opened Wrappers
  import opened Portfolios

  function Gcd(a: nat, b: nat): nat
    decreases b
  {
    if b == 0 then a else Gcd(b, a % b)
  }

  function Abs(x: int): nat {
    if x < 0 then -x else x
  }

  method GreatestCommonDivisor(left: int, right: int) returns (g: nat)
    ensures g == Gcd(Abs(left), Abs(right))
  {
    var a: nat := if left < 0 then -left else left;
    var b: nat := if right < 0 then -right else right;
    while b != 0
      invariant Gcd(a, b) == Gcd(Abs(left), Abs(right))
      decreases b
    {
      var remainder := a % b;
      a := b;
      b := remainder;
    }
    return a;
  }

  /** The result divides both arguments. */
  lemma {:induction false} GcdDivides(a: nat, b: nat) returns (x: nat, y: nat)
    ensures a == x * Gcd(a, b) && b == y * Gcd(a, b)
    ensures 0 < a || 0 < b ==> 0 < Gcd(a, b)
    decreases b
  {
    if b == 0 {
      x, y := 1, 0;
    } else {
      var p, q := GcdDivides(b, a % b);
      var k: nat := a / b;
      assert a == k * b + a % b;
      LinearCombination(a, b, a % b, k, p, q, Gcd(b, a % b));
      x, y := k * p + q, p;
    }
  }

  lemma LinearCombination(a: nat, b: nat, r: nat, k: nat, p: nat, q: nat, g: nat)
    requires a == k * b + r && b == p * g && r == q * g
    ensures a == (k * p + q) * g
  {
    assert (k * p + q) * g == k * (p * g) + q * g;
  }

  /** The result is an integer combination of the arguments. */
  lemma {:induction false} Bezout(a: nat, b: nat) returns (s: int, t: int)
    ensures s * a + t * b == Gcd(a, b)
    decreases b
  {
    if b == 0 {
      s, t := 1, 0;
    } else {
      var p, q := Bezout(b, a % b);
      var k := a / b;
      assert a % b == a - k * b;
      assert p * b + q * (a - k * b) == q * a + (p - q * k) * b;
      s, t := q, p - q * k;
    }
  }

  /** No common divisor exceeds it. */
  lemma GcdIsGreatest(a: nat, b: nat, d: nat, x: nat, y: nat)
    requires 0 < d && a == x * d && b == y * d && (0 < a || 0 < b)
    ensures d <= Gcd(a, b)
  {
    var s, t := Bezout(a, b);
    var _, _ := GcdDivides(a, b);
    assert s * (x * d) + t * (y * d) == (s * x + t * y) * d;
    if s * x + t * y <= 0 {
      MulMono(s * x + t * y, 0, d);
    } else {
      MulMono(1, s * x + t * y, d);
    }
  }

  ghost predicate Divides(d: nat, n: nat)
    requires 0 < d
  {
    n % d == 0
  }

  lemma MultipleIsDivisible(n: nat, d: nat, k: int)
    requires 0 < d && n == k * d
    ensures Divides(d, n) && n / d == k
  {
    FloorDivGe(n, d, k);
    FloorDivGe(n, d, k + 1);
    assert (k + 1) * d == k * d + d;
    assert n == n / d * d + n % d;
  }

  lemma DivisibleIsMultiple(n: nat, d: nat)
    requires 0 < d && Divides(d, n)
    ensures n == n / d * d
  {
  }

  /** Gauss's lemma for the reduced denominator: d divides x * w exactly when d / gcd(d, w) divides x. */
  lemma ReducedDivisibility(d: nat, w: nat, x: nat)
    requires 0 < d && 0 < w
    ensures 0 < Gcd(d, w) && 0 < d / Gcd(d, w)
    ensures Divides(d, x * w) <==> Divides(d / Gcd(d, w), x)
  {
    hide Gcd;
    var d', w' := GcdDivides(d, w);
    var g := Gcd(d, w);
    MultipleIsDivisible(d, g, d');
    MulCancelLt(0, d', g);
    if Divides(d', x) {
      DivisibleIsMultiple(x, d');
      CombineFactors(x, x / d', d', w, w', g, d);
      MultipleIsDivisible(x * w, d, x / d' * w');
    }
    if Divides(d, x * w) {
      DivisibleIsMultiple(x * w, d);
      var s, t := Bezout(d, w);
      var k := x * w / d;
      BezoutCombination(x, s, t, d, w, g, k);
      CancelGcd(x, s * x + t * k, d', g, d);
      MultipleIsDivisible(x, d', s * x + t * k);
    }
  }

  lemma CombineFactors(x: nat, k: nat, d': nat, w: nat, w': nat, g: nat, d: nat)
    requires x == k * d' && w == w' * g && d == d' * g
    ensures x * w == (k * w') * d
  {
    assert (k * d') * (w' * g) == (k * w') * (d' * g);
  }

  lemma BezoutCombination(x: nat, s: int, t: int, d: nat, w: nat, g: nat, k: int)
    requires s * d + t * w == g && x * w == k * d
    ensures x * g == (s * x + t * k) * d
  {
    assert x * (s * d + t * w) == (s * x) * d + t * (x * w);
    assert t * (k * d) == (t * k) * d;
    assert (s * x + t * k) * d == (s * x) * d + (t * k) * d;
  }

  lemma CancelGcd(x: nat, m: int, d': nat, g: nat, d: nat)
    requires 0 < g && d == d' * g && x * g == m * d
    ensures x == m * d'
  {
    assert m * (d' * g) == (m * d') * g;
    MulCancelLe(x, m * d', g);
    MulCancelLe(m * d', x, g);
  }

  // ----- The increment and the adjustment

  function CalculateAssetAmountIncrement(decimals: int, price: int, priceDecimals: int,
    valueDecimals: int): (r: Checked<nat>)
    ensures r.Ok? ==> 0 < r.value
  {
    var checkedPrice :- ToUint256(price);
    if checkedPrice == 0 then Err(ZeroPrice) else
    var tokenScale :- Scale10(decimals);
    var priceScale :- Scale10(priceDecimals);
    var denominator :- CheckedMul(tokenScale, priceScale);
    var valueScale :- Scale10(valueDecimals);
    var valuePerRawUnit :- CheckedMul(checkedPrice, valueScale);
    MulStrict(0, tokenScale, priceScale);
    MulStrict(0, checkedPrice, valueScale);
    ReducedDivisibility(denominator, valuePerRawUnit, 0);
    Ok(denominator / Gcd(denominator, valuePerRawUnit))
  }

  /** The increment exists exactly for a positive price and admissible scales whose product fits. */
  lemma IncrementIff(decimals: int, price: int, priceDecimals: int, valueDecimals: int)
    ensures CalculateAssetAmountIncrement(decimals, price, priceDecimals, valueDecimals).Ok?
       <==> Valuable(1, decimals, price, priceDecimals, valueDecimals)
  {
    hide Pow10, Gcd;
    if 0 <= decimals <= 36 && 0 <= priceDecimals <= 36 {
      ScalesFit(decimals, priceDecimals);
    }
  }

  datatype AssetAmountAdjustment = AssetAmountAdjustment(requestedAmount: nat, supportedAmount: nat, remainder: nat,
    increment: nat)

  function AdjustAssetAmountDown(amount: int, decimals: int, price: int, priceDecimals: int,
    valueDecimals: int): Checked<AssetAmountAdjustment>
  {
    var requested :- ToUint256(amount);
    var increment :- CalculateAssetAmountIncrement(decimals, price, priceDecimals, valueDecimals);
    var remainder := FloorMod(requested, increment);
    Ok(AssetAmountAdjustment(requested, requested - remainder, remainder, increment))
  }

  /** An amount whose value does not overflow converts exactly if and only if it is a multiple of the increment. */
  lemma ExactlyMultiplesConvert(amount: nat, decimals: int, price: int, priceDecimals: int, valueDecimals: int)
    requires CalculateAssetAmountIncrement(decimals, price, priceDecimals, valueDecimals).Ok?
    requires ScaledValue(amount, decimals, price, priceDecimals, valueDecimals).Ok?
    ensures CalculateAssetValueExact(amount, decimals, price, priceDecimals, valueDecimals).Ok? <==>
              Divides(CalculateAssetAmountIncrement(decimals, price, priceDecimals, valueDecimals).value, amount)
  {
    hide Gcd, Pow10;
    var w := price * Pow10(valueDecimals);
    MulStrict(0, price, Pow10(valueDecimals));
    MulStrict(0, Pow10(decimals), Pow10(priceDecimals));
    ReducedDivisibility(Pow10(decimals) * Pow10(priceDecimals), w, amount);
    assert amount * price * Pow10(valueDecimals) == amount * w;
  }

  /** Values grow with the amount, so below a convertible amount nothing overflows either. */
  lemma SmallerAmountsScale(amount: nat, smaller: nat, decimals: int, price: int, priceDecimals: int,
    valueDecimals: int)
    requires smaller <= amount && ScaledValue(amount, decimals, price, priceDecimals, valueDecimals).Ok?
    ensures ScaledValue(smaller, decimals, price, priceDecimals, valueDecimals).Ok?
  {
    hide Pow10;
    MulMono(smaller, amount, price);
    MulMono(smaller * price, amount * price, Pow10(valueDecimals));
  }

  /** The adjusted amount is the greatest exactly convertible amount not above the request. */
  lemma AdjustmentIsGreatestConvertible(amount: nat, decimals: int, price: int, priceDecimals: int, valueDecimals: int)
    requires AdjustAssetAmountDown(amount, decimals, price, priceDecimals, valueDecimals).Ok?
    requires ScaledValue(amount, decimals, price, priceDecimals, valueDecimals).Ok?
    ensures var a := AdjustAssetAmountDown(amount, decimals, price, priceDecimals, valueDecimals).value;
            && a.requestedAmount == amount && a.supportedAmount + a.remainder == amount
            && Ok(a.increment) == CalculateAssetAmountIncrement(decimals, price, priceDecimals, valueDecimals)
            && CalculateAssetValueExact(a.supportedAmount, decimals, price, priceDecimals, valueDecimals).Ok?
            && forall x: nat :: a.supportedAmount < x <= amount ==>
                 CalculateAssetValueExact(x, decimals, price, priceDecimals, valueDecimals).Err?
  {
    hide CalculateAssetAmountIncrement, CalculateAssetValueExact, ScaledValue;
    var a := AdjustAssetAmountDown(amount, decimals, price, priceDecimals, valueDecimals).value;
    DivisionBounds(amount, a.increment);
    assert a.supportedAmount == amount / a.increment * a.increment;
    MultipleIsDivisible(a.supportedAmount, a.increment, amount / a.increment);
    SmallerAmountsScale(amount, a.supportedAmount, decimals, price, priceDecimals, valueDecimals);
    ExactlyMultiplesConvert(a.supportedAmount, decimals, price, priceDecimals, valueDecimals);
    forall x: nat | a.supportedAmount < x <= amount
      ensures CalculateAssetValueExact(x, decimals, price, priceDecimals, valueDecimals).Err?
    {
      SmallerAmountsScale(amount, x, decimals, price, priceDecimals, valueDecimals);
      ExactlyMultiplesConvert(x, decimals, price, priceDecimals, valueDecimals);
      NoMultipleBetween(amount, x, a.increment);
    }
  }

  lemma NoMultipleBetween(amount: nat, x: nat, increment: nat)
    requires 0 < increment && amount / increment * increment < x <= amount
    ensures !Divides(increment, x)
  {
    if Divides(increment, x) {
      DivisibleIsMultiple(x, increment);
      MulCancelLt(amount / increment, x / increment, increment);
      FloorDivGe(amount, increment, x / increment);
    }
  }
}
