/**
 The checked unsigned arithmetic shared by every financial module.

 Amounts are unbounded naturals with the source's explicit 256-bit checks written out;
 a thrown exception is an `Err` result.  The two Galois lemmas at the end (`CeilDivLe` and
 `FloorDivGe`) are what every rounding argument in this project rests on.
 */
module Uint256 {
  import opened Wrappers

  const UINT256_MAX: nat := 0xFFFF_FFFF_FFFF_FFFF_FFFF_FFFF_FFFF_FFFF_FFFF_FFFF_FFFF_FFFF_FFFF_FFFF_FFFF_FFFF
  const BASIS_POINTS: nat := 10_000
  const FIXED_POINT_SCALE: nat := 1_000_000_000_000_000_000
  const MAX_DECIMALS: nat := 36

  datatype Error =
    | NotUint256
    | Overflow
    | Underflow
    | BadDecimals
    | BadBps
    | BadPolicy
    | UnmanagedAsset
    | MissingAsset
    | SameAsset
    | DuplicateAsset
    | EmptyPortfolio
    | ZeroNav
    | ZeroPrice
    | InexactAmount
    | CapacityExceeded
    | BadFeeConfig
    | BadUtilization
    | FeeExceedsCap
    | FeeExceedsOutput
    | BadFeePayment
    | EpochMismatch
    | DecimalScaleMismatch
    | PriceTokenMismatch
    | BadTimestamp
    | FuturePrice
    | StalePrice
    | UnapprovedPrice
    | PriceDeviation
    | ExchangeBelowMinimum

  /** The outcome of a checked computation; an error stands for a thrown exception. */
  type Checked<+T> = Result<T, Error>

  function Min(a: nat, b: nat): nat {
    if a < b then a else b
  }

  function Max(a: int, b: int): int {
    if a < b then b else a
  }

  function ToUint256(value: int): Checked<nat> {
    if value < 0 || value > UINT256_MAX then Err(NotUint256) else Ok(value)
  }

  function RequireBps(value: int): Checked<nat> {
    if value < 0 || value > BASIS_POINTS then Err(BadBps) else Ok(value)
  }

  function CheckedAdd(a: nat, b: nat): Checked<nat> {
    if a + b > UINT256_MAX then Err(Overflow) else Ok(a + b)
  }

  function CheckedSub(a: nat, b: nat): Checked<nat> {
    if b > a then Err(Underflow) else Ok(a - b)
  }

  /** The source guards by dividing the bound, so that no wide product is ever formed. */
  function CheckedMul(a: nat, b: nat): (r: Checked<nat>)
    ensures r == if a * b <= UINT256_MAX then Ok(a * b) else Err(Overflow)
  {
    MulBound(a, b);
    if a != 0 && b > UINT256_MAX / a then Err(Overflow) else Ok(a * b)
  }

  lemma MulBound(a: nat, b: nat)
    ensures (a != 0 && b > UINT256_MAX / a) <==> a * b > UINT256_MAX
  {
    if a != 0 {
      FloorDivGe(UINT256_MAX, a, b);
      assert a * b == b * a;
    }
  }

  /** The least q whose multiple q * d reaches n. */
  function CeilDiv(n: nat, d: nat): (q: nat)
    requires d > 0
  {
    if n == 0 then 0 else (n - 1) / d + 1
  }

  function FloorDiv(n: nat, d: nat): nat
    requires d > 0
  {
    n / d
  }

  function FloorMod(n: nat, d: nat): (r: nat)
    requires d > 0
    ensures r <= n && r < d
  {
    ModBounds(n, d, n / d, n % d);
    n % d
  }

  lemma ModBounds(n: nat, d: nat, q: int, r: int)
    requires d > 0 && n == d * q + r && 0 <= r < d
    ensures 0 <= r <= n
  {
    if q >= 0 {
      MulMono(0, q, d);
    } else {
      MulMono(q, -1, d);
    }
  }

  function Pow10(decimals: nat): (p: nat)
    ensures p > 0
  {
    if decimals == 0 then 1 else 10 * Pow10(decimals - 1)
  }

  function Scale10(decimals: int): (r: Checked<nat>)
    ensures r.Ok? ==> r.value > 0
  {
    if decimals < 0 || decimals > MAX_DECIMALS then Err(BadDecimals) else Ok(Pow10(decimals))
  }

  // ----- Ordering and rounding lemmas

  lemma MulMono(a: int, b: int, c: nat)
    requires a <= b
    ensures a * c <= b * c
    ensures c * a <= c * b
  {
  }

  lemma MulStrict(a: int, b: int, c: nat)
    requires a < b && 0 < c
    ensures a * c < b * c
    ensures c * a < c * b
  {
  }

  lemma MulCancelLe(a: int, b: int, d: nat)
    requires d > 0 && a * d <= b * d
    ensures a <= b
  {
    if b < a {
      MulStrict(b, a, d);
    }
  }

  lemma MulCancelLt(a: int, b: int, d: nat)
    requires a * d < b * d
    ensures a < b
  {
    if b <= a {
      MulMono(b, a, d);
    }
  }

  lemma DivisionBounds(n: nat, d: nat)
    requires d > 0
    ensures n / d * d <= n < (n / d + 1) * d
    ensures (n / d + 1) * d == n / d * d + d
  {
    assert n == n / d * d + n % d;
    assert (n / d + 1) * d == n / d * d + d;
  }

  lemma FloorDivGe(n: nat, d: nat, q: int)
    requires d > 0
    ensures q <= n / d <==> q * d <= n
  {
    DivisionBounds(n, d);
    if q <= n / d {
      MulMono(q, n / d, d);
    } else {
      MulMono(n / d + 1, q, d);
    }
  }

  /** Ceiling division rounds up by less than one unit. */
  lemma CeilDivBounds(n: nat, d: nat)
    requires d > 0
    ensures n <= CeilDiv(n, d) * d < n + d
  {
    if n != 0 {
      DivisionBounds(n - 1, d);
    }
  }

  lemma CeilDivLe(n: nat, d: nat, q: int)
    requires d > 0
    ensures CeilDiv(n, d) <= q <==> n <= q * d
  {
    CeilDivBounds(n, d);
    var c := CeilDiv(n, d);
    if c <= q {
      MulMono(c, q, d);
    } else {
      MulMono(q, c - 1, d);
      assert (c - 1) * d == c * d - d;
    }
  }

  lemma CeilDivMono(m: nat, n: nat, d: nat)
    requires d > 0 && m <= n
    ensures CeilDiv(m, d) <= CeilDiv(n, d)
  {
    CeilDivLe(m, d, CeilDiv(n, d));
  }

  /** Ceiling division turns a difference of at most k divisors into one of at most k. */
  lemma CeilDivStep(m: nat, n: nat, d: nat, k: nat)
    requires d > 0 && m <= n <= m + k * d
    ensures CeilDiv(m, d) <= CeilDiv(n, d) <= CeilDiv(m, d) + k
  {
    CeilDivMono(m, n, d);
    CeilDivBounds(m, d);
    assert (CeilDiv(m, d) + k) * d == CeilDiv(m, d) * d + k * d;
    CeilDivLe(n, d, CeilDiv(m, d) + k);
  }

  lemma FloorDivMono(m: nat, n: nat, d: nat)
    requires d > 0 && m <= n
    ensures m / d <= n / d
  {
    DivisionBounds(m, d);
    FloorDivGe(n, d, m / d);
  }

  lemma PowAdd(a: nat, b: nat)
    ensures Pow10(a + b) == Pow10(a) * Pow10(b)
  {
    if a > 0 {
      PowAdd(a - 1, b);
      assert 10 * (Pow10(a - 1) * Pow10(b)) == (10 * Pow10(a - 1)) * Pow10(b);
    }
  }

  lemma {:induction false} PowMono(a: nat, b: nat)
    requires a <= b
    ensures Pow10(a) <= Pow10(b)
    decreases b
  {
    if a < b {
      PowMono(a, b - 1);
    }
  }

  /** The product of two admissible scales always fits. */
  lemma ScalesFit(a: nat, b: nat)
    requires a <= MAX_DECIMALS && b <= MAX_DECIMALS
    ensures Pow10(a) * Pow10(b) <= UINT256_MAX
  {
    PowMono(a, 36);
    PowMono(b, 36);
    LargestScale();
    ProductBelow(Pow10(a), Pow10(b), Pow10(36));
  }

  lemma LargestScale()
    ensures Pow10(36) == 1_000_000_000_000_000_000_000_000_000_000_000_000
  {
    assert Pow10(9) == 1_000_000_000;
    PowAdd(9, 9);
    PowAdd(18, 18);
  }

  lemma ProductBelow(a: nat, b: nat, m: nat)
    requires a <= m && b <= m
    ensures a * b <= m * m
  {
    MulMono(a, m, b);
    MulMono(b, m, m);
  }
}
