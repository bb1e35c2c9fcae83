/**
 Price freshness, deviation and the conservative treasury exchange check
 (packages/shared/src/price.ts:241-464).

 Prices and amounts are rationals over powers of ten.  The main result compares exact rationals by
 cross multiplication, so no rounding takes part in its statement.
 */
module PriceProtection {
  import opened Uint256
  import opened Wrappers
  import opened Portfolios
  import AbiWords

  const MAX_SAFE_INTEGER: nat := 9_007_199_254_740_991

  datatype PriceSnapshot = PriceSnapshot(snapshotId: string, token: Token, price: int, priceDecimals: int,
    observedAt: int)

  datatype SettlementPriceProtection = SettlementPriceProtection(
    inputReference: PriceSnapshot, inputExecution: PriceSnapshot,
    outputReference: PriceSnapshot, outputExecution: PriceSnapshot,
    approvedInputSnapshotId: string, approvedOutputSnapshotId: string,
    inputAmount: int, outputAmount: int, inputDecimals: int, outputDecimals: int, valueDecimals: int,
    nowSeconds: int, maximumPriceAgeSeconds: int, maximumPriceDeviationBps: int)

  datatype TreasuryExchangeValues = TreasuryExchangeValues(
    treasuryInputValue: nat, treasuryOutputValue: nat, minimumTreasuryInputValue: nat, maximumDeviationBps: nat)

  function RequireTimestamp(value: int): Checked<nat> {
    if value < 0 || value > MAX_SAFE_INTEGER then Err(BadTimestamp) else Ok(value)
  }

  function AssertFreshPrice(snapshot: PriceSnapshot, nowSeconds: int, maxAgeSeconds: int): Checked<()> {
    var observedAt :- RequireTimestamp(snapshot.observedAt);
    var now :- RequireTimestamp(nowSeconds);
    if maxAgeSeconds <= 0 || maxAgeSeconds > MAX_SAFE_INTEGER then Err(BadTimestamp) else
    var price :- ToUint256(snapshot.price);
    if price == 0 then Err(ZeroPrice) else
    var _ :- Scale10(snapshot.priceDecimals);
    if observedAt > now then Err(FuturePrice)
    else if now - observedAt > maxAgeSeconds then Err(StalePrice)
    else Ok(())
  }

  function AssertApprovedPriceSnapshot(snapshot: PriceSnapshot, expectedToken: Token,
    approvedSnapshotId: string): Checked<()>
  {
    if snapshot.token != expectedToken then Err(PriceTokenMismatch)
    else if !AbiWords.IsBytes32(snapshot.snapshotId)
      || !AbiWords.IsBytes32(approvedSnapshotId) then Err(UnapprovedPrice)
    else if AbiWords.LowerCase(snapshot.snapshotId) != AbiWords.LowerCase(approvedSnapshotId) then Err(UnapprovedPrice)
    else Ok(())
  }

  function AssertPriceWithinDeviation(reference: PriceSnapshot, actual: PriceSnapshot,
    maximumDeviationBps: int): Checked<()>
  {
    if reference.token != actual.token then Err(PriceTokenMismatch) else
    var referencePrice :- ToUint256(reference.price);
    var actualPrice :- ToUint256(actual.price);
    if referencePrice == 0 || actualPrice == 0 then Err(ZeroPrice) else
    var referenceScale :- Scale10(reference.priceDecimals);
    var actualScale :- Scale10(actual.priceDecimals);
    var referenceNormalized :- CheckedMul(referencePrice, actualScale);
    var actualNormalized :- CheckedMul(actualPrice, referenceScale);
    var difference: nat :=
      if actualNormalized >= referenceNormalized then actualNormalized - referenceNormalized
      else referenceNormalized - actualNormalized;
    var deviation :- RequireBps(maximumDeviationBps);
    var scaledDifference :- CheckedMul(difference, BASIS_POINTS);
    var bound :- CheckedMul(referenceNormalized, deviation);
    if scaledDifference > bound then Err(PriceDeviation) else Ok(())
  }

  function CeilMulDivBySmall(value: nat, multiplier: nat, denominator: nat): nat
    requires denominator > 0
  {
    value / denominator * multiplier + CeilDiv(value % denominator * multiplier, denominator)
  }

  function CalculateMinimumTreasuryInputValue(treasuryOutputValue: int, maximumDeviationBps: int): Checked<nat> {
    var output :- ToUint256(treasuryOutputValue);
    var deviation :- RequireBps(maximumDeviationBps);
    Ok(CeilMulDivBySmall(output, BASIS_POINTS - deviation, BASIS_POINTS))
  }

  function AssertMinimumTreasuryExchangeValue(treasuryInputValue: int, treasuryOutputValue: int,
    maximumDeviationBps: int): Checked<TreasuryExchangeValues>
  {
    var input :- ToUint256(treasuryInputValue);
    var output :- ToUint256(treasuryOutputValue);
    var deviation :- RequireBps(maximumDeviationBps);
    var minimumInput :- CalculateMinimumTreasuryInputValue(output, deviation);
    if input < minimumInput then Err(ExchangeBelowMinimum)
    else Ok(TreasuryExchangeValues(input, output, minimumInput, deviation))
  }

  function CalculateTreasuryExchangeValues(p: SettlementPriceProtection): Checked<TreasuryExchangeValues> {
    var input :- CalculateAssetValueDown(p.inputAmount, p.inputDecimals, p.inputExecution.price,
      p.inputExecution.priceDecimals, p.valueDecimals);
    var output :- CalculateAssetValue(p.outputAmount, p.outputDecimals, p.outputExecution.price,
      p.outputExecution.priceDecimals, p.valueDecimals);
    AssertMinimumTreasuryExchangeValue(input, output, p.maximumPriceDeviationBps)
  }

  // ----- What the checks accept

  /** Observed neither in the future nor longer ago than allowed, at a positive price. */
  ghost predicate IsRecent(snapshot: PriceSnapshot, nowSeconds: int, maxAgeSeconds: int) {
    && 0 <= snapshot.observedAt <= nowSeconds <= snapshot.observedAt + maxAgeSeconds
    && nowSeconds <= MAX_SAFE_INTEGER && 0 < maxAgeSeconds <= MAX_SAFE_INTEGER
    && 0 < snapshot.price <= UINT256_MAX && 0 <= snapshot.priceDecimals <= 36
  }

  /** A snapshot of the token whose identifier has the approved 32 bytes. */
  ghost predicate IsApproved(snapshot: PriceSnapshot, token: Token, approvedId: string) {
    && snapshot.token == token
    && AbiWords.IsBytes32(snapshot.snapshotId) && AbiWords.IsBytes32(approvedId)
    && AbiWords.HexWord(snapshot.snapshotId) == AbiWords.HexWord(approvedId)
  }

  /** Prices of one token, as exact rationals at most the deviation apart, with room for the products compared. */
  ghost predicate WithinDeviation(reference: PriceSnapshot, actual: PriceSnapshot, d: int) {
    && reference.token == actual.token
    && 0 < reference.price <= UINT256_MAX && 0 <= reference.priceDecimals <= 36
    && 0 < actual.price <= UINT256_MAX && 0 <= actual.priceDecimals <= 36
    && 0 <= d <= BASIS_POINTS
    && var r, a := reference.price * Pow10(actual.priceDecimals), actual.price * Pow10(reference.priceDecimals);
    && r * (BASIS_POINTS - d) <= a * BASIS_POINTS <= r * (BASIS_POINTS + d)
    && r <= UINT256_MAX && a <= UINT256_MAX && r * d <= UINT256_MAX
    && (a - r) * BASIS_POINTS <= UINT256_MAX && (r - a) * BASIS_POINTS <= UINT256_MAX
  }

  /** The floored input value is at least the allowed share of the ceiled output value. */
  ghost predicate ExchangeHolds(p: SettlementPriceProtection) {
    && Valuable(p.inputAmount, p.inputDecimals, p.inputExecution.price, p.inputExecution.priceDecimals, p.valueDecimals)
    && Valuable(p.outputAmount, p.outputDecimals, p.outputExecution.price, p.outputExecution.priceDecimals,
         p.valueDecimals)
    && 0 <= p.maximumPriceDeviationBps <= BASIS_POINTS
    && CeiledOutput(p) * (BASIS_POINTS - p.maximumPriceDeviationBps) <= FlooredInput(p) * BASIS_POINTS
  }

  ghost function FlooredInput(p: SettlementPriceProtection): nat
    requires Valuable(p.inputAmount, p.inputDecimals, p.inputExecution.price, p.inputExecution.priceDecimals,
               p.valueDecimals)
  {
    var i := ExactValue(p.inputAmount, p.inputDecimals, p.inputExecution.price, p.inputExecution.priceDecimals,
      p.valueDecimals);
    FloorDiv(i.numerator, i.denominator)
  }

  ghost function CeiledOutput(p: SettlementPriceProtection): nat
    requires Valuable(p.outputAmount, p.outputDecimals, p.outputExecution.price, p.outputExecution.priceDecimals,
               p.valueDecimals)
  {
    var o := ExactValue(p.outputAmount, p.outputDecimals, p.outputExecution.price, p.outputExecution.priceDecimals,
      p.valueDecimals);
    CeilDiv(o.numerator, o.denominator)
  }

  /** Everything a settlement's prices must satisfy, said without the checks. */
  ghost predicate Protected(p: SettlementPriceProtection) {
    && IsRecent(p.inputReference, p.nowSeconds, p.maximumPriceAgeSeconds)
    && IsRecent(p.outputReference, p.nowSeconds, p.maximumPriceAgeSeconds)
    && IsRecent(p.inputExecution, p.nowSeconds, p.maximumPriceAgeSeconds)
    && IsRecent(p.outputExecution, p.nowSeconds, p.maximumPriceAgeSeconds)
    && IsApproved(p.inputExecution, p.inputReference.token, p.approvedInputSnapshotId)
    && IsApproved(p.outputExecution, p.outputReference.token, p.approvedOutputSnapshotId)
    && WithinDeviation(p.inputReference, p.inputExecution, p.maximumPriceDeviationBps)
    && WithinDeviation(p.outputReference, p.outputExecution, p.maximumPriceDeviationBps)
    && ExchangeHolds(p)
  }

  /** The reported values: floor, ceiling, the least input value that would do, and the deviation. */
  ghost predicate AreExchangeValues(p: SettlementPriceProtection, v: TreasuryExchangeValues)
    requires ExchangeHolds(p)
  {
    && v.treasuryInputValue == FlooredInput(p) && v.treasuryOutputValue == CeiledOutput(p)
    && v.maximumDeviationBps == p.maximumPriceDeviationBps
    && forall q: int :: v.minimumTreasuryInputValue <= q
         <==> CeiledOutput(p) * (BASIS_POINTS - p.maximumPriceDeviationBps) <= q * BASIS_POINTS
  }

  lemma FreshIff(snapshot: PriceSnapshot, nowSeconds: int, maxAgeSeconds: int)
    ensures AssertFreshPrice(snapshot, nowSeconds, maxAgeSeconds).Ok? <==> IsRecent(snapshot, nowSeconds, maxAgeSeconds)
  {
  }

  lemma ApprovedIff(snapshot: PriceSnapshot, token: Token, approvedId: string)
    ensures AssertApprovedPriceSnapshot(snapshot, token, approvedId).Ok? <==> IsApproved(snapshot, token, approvedId)
  {
    hide AbiWords.LowerCase, AbiWords.HexWord, AbiWords.AllHex;
    if AbiWords.IsBytes32(snapshot.snapshotId) && AbiWords.IsBytes32(approvedId) {
      AbiWords.HexWordIff(snapshot.snapshotId, approvedId);
    }
  }

  lemma DeviationIff(reference: PriceSnapshot, actual: PriceSnapshot, d: int)
    ensures AssertPriceWithinDeviation(reference, actual, d).Ok? <==> WithinDeviation(reference, actual, d)
  {
    hide Pow10;
    if 0 <= reference.priceDecimals && 0 <= actual.priceDecimals {
      var r, a := reference.price * Pow10(actual.priceDecimals), actual.price * Pow10(reference.priceDecimals);
      assert r * (BASIS_POINTS + d) == r * BASIS_POINTS + r * d;
      assert r * (BASIS_POINTS - d) == r * BASIS_POINTS - r * d;
    }
  }

  lemma ExchangeIff(p: SettlementPriceProtection)
    ensures CalculateTreasuryExchangeValues(p).Ok? <==> ExchangeHolds(p)
    ensures CalculateTreasuryExchangeValues(p).Ok? ==> AreExchangeValues(p, CalculateTreasuryExchangeValues(p).value)
  {
    hide ScaledValue, ExactValue, Valuable, CeilDiv, FloorDiv, CeilMulDivBySmall;
    ScaledValueIff(p.inputAmount, p.inputDecimals, p.inputExecution.price, p.inputExecution.priceDecimals,
      p.valueDecimals);
    ScaledValueIff(p.outputAmount, p.outputDecimals, p.outputExecution.price, p.outputExecution.priceDecimals,
      p.valueDecimals);
    if Valuable(p.inputAmount, p.inputDecimals, p.inputExecution.price, p.inputExecution.priceDecimals,
         p.valueDecimals)
       && Valuable(p.outputAmount, p.outputDecimals, p.outputExecution.price, p.outputExecution.priceDecimals,
            p.valueDecimals) {
      ValuesFit(p);
      var d := p.maximumPriceDeviationBps;
      if 0 <= d <= BASIS_POINTS {
        forall q: int
          ensures CeilMulDivBySmall(CeiledOutput(p), BASIS_POINTS - d, BASIS_POINTS) <= q
             <==> CeiledOutput(p) * (BASIS_POINTS - d) <= q * BASIS_POINTS
        {
          MinimumIsCeiling(CeiledOutput(p), BASIS_POINTS - d, q);
        }
      }
    }
  }

  lemma ValuesFit(p: SettlementPriceProtection)
    requires Valuable(p.inputAmount, p.inputDecimals, p.inputExecution.price, p.inputExecution.priceDecimals,
               p.valueDecimals)
    requires Valuable(p.outputAmount, p.outputDecimals, p.outputExecution.price, p.outputExecution.priceDecimals,
               p.valueDecimals)
    ensures FlooredInput(p) <= UINT256_MAX && CeiledOutput(p) <= UINT256_MAX
  {
    hide Pow10, FloorDiv, CeilDiv;
    var i := ExactValue(p.inputAmount, p.inputDecimals, p.inputExecution.price, p.inputExecution.priceDecimals,
      p.valueDecimals);
    var o := ExactValue(p.outputAmount, p.outputDecimals, p.outputExecution.price, p.outputExecution.priceDecimals,
      p.valueDecimals);
    QuotientsBelow(i.numerator, i.denominator);
    QuotientsBelow(o.numerator, o.denominator);
  }

  lemma QuotientsBelow(n: nat, d: nat)
    requires 0 < d
    ensures FloorDiv(n, d) <= n && CeilDiv(n, d) <= n
  {
    hide CeilDiv;
    MulMono(1, d, n);
    CeilDivLe(n, d, n);
    MulMono(1, d, n + 1);
    FloorDivGe(n, d, n + 1);
  }

  // ----- The checks

  ghost predicate AllFresh(snapshots: seq<PriceSnapshot>, nowSeconds: int, maxAgeSeconds: int) {
    forall i :: 0 <= i < |snapshots| ==> IsRecent(snapshots[i], nowSeconds, maxAgeSeconds)
  }

  /** Every commitment the settlement relies on, checked in the source's order. */
  method AssertSettlementPriceProtection(p: SettlementPriceProtection) returns (r: Checked<TreasuryExchangeValues>)
    ensures r.Ok? <==> Protected(p)
    ensures r.Ok? ==> AreExchangeValues(p, r.value)
  {
    hide AssertFreshPrice, IsRecent, AssertApprovedPriceSnapshot, IsApproved, AssertPriceWithinDeviation,
      WithinDeviation, CalculateTreasuryExchangeValues, ExchangeHolds, AreExchangeValues;
    var snapshots := [p.inputReference, p.outputReference, p.inputExecution, p.outputExecution];
    for i := 0 to |snapshots|
      invariant AllFresh(snapshots[..i], p.nowSeconds, p.maximumPriceAgeSeconds)
    {
      FreshIff(snapshots[i], p.nowSeconds, p.maximumPriceAgeSeconds);
      var checked := AssertFreshPrice(snapshots[i], p.nowSeconds, p.maximumPriceAgeSeconds);
      if checked.Err? {
        return Err(checked.error);
      }
    }
    assert snapshots[..|snapshots|] == snapshots;
    assert IsRecent(snapshots[0], p.nowSeconds, p.maximumPriceAgeSeconds)
      && IsRecent(snapshots[1], p.nowSeconds, p.maximumPriceAgeSeconds)
      && IsRecent(snapshots[2], p.nowSeconds, p.maximumPriceAgeSeconds)
      && IsRecent(snapshots[3], p.nowSeconds, p.maximumPriceAgeSeconds);
    ApprovedIff(p.inputExecution, p.inputReference.token, p.approvedInputSnapshotId);
    ApprovedIff(p.outputExecution, p.outputReference.token, p.approvedOutputSnapshotId);
    DeviationIff(p.inputReference, p.inputExecution, p.maximumPriceDeviationBps);
    DeviationIff(p.outputReference, p.outputExecution, p.maximumPriceDeviationBps);
    ExchangeIff(p);
    var _ :- AssertApprovedPriceSnapshot(p.inputExecution, p.inputReference.token, p.approvedInputSnapshotId);
    var _ :- AssertApprovedPriceSnapshot(p.outputExecution, p.outputReference.token, p.approvedOutputSnapshotId);
    var _ :- AssertPriceWithinDeviation(p.inputReference, p.inputExecution, p.maximumPriceDeviationBps);
    var _ :- AssertPriceWithinDeviation(p.outputReference, p.outputExecution, p.maximumPriceDeviationBps);
    r := CalculateTreasuryExchangeValues(p);
  }

  // ----- The worst-case bound at reference prices

  /** a * k >= b * m for exact rationals a and b. */
  ghost predicate ScaledAtLeast(a: Ratio, k: nat, b: Ratio, m: nat) {
    a.numerator * b.denominator * k >= b.numerator * a.denominator * m
  }

  /** The split ceiling is the least number of basis-point multiples that reaches the exact product. */
  lemma MinimumIsCeiling(output: nat, multiplier: nat, input: int)
    ensures CeilMulDivBySmall(output, multiplier, BASIS_POINTS) <= input
      <==> output * multiplier <= input * BASIS_POINTS
  {
    var q, m := output / BASIS_POINTS, output % BASIS_POINTS;
    CeilDivLe(m * multiplier, BASIS_POINTS, input - q * multiplier);
    assert output == q * BASIS_POINTS + m;
    assert (q * BASIS_POINTS + m) * multiplier == (q * multiplier) * BASIS_POINTS + m * multiplier;
  }

  /** An accepted execution price is within the deviation of the reference, in both directions. */
  lemma DeviationBounds(reference: PriceSnapshot, actual: PriceSnapshot, deviation: int)
    requires AssertPriceWithinDeviation(reference, actual, deviation).Ok?
    ensures 0 < reference.price && 0 < actual.price && 0 <= deviation <= BASIS_POINTS
    ensures 0 <= reference.priceDecimals && 0 <= actual.priceDecimals
    ensures actual.price * Pow10(reference.priceDecimals) * BASIS_POINTS
              <= reference.price * Pow10(actual.priceDecimals) * (BASIS_POINTS + deviation)
    ensures actual.price * Pow10(reference.priceDecimals) * BASIS_POINTS
              >= reference.price * Pow10(actual.priceDecimals) * (BASIS_POINTS - deviation)
  {
    hide Pow10;
    var r: nat, a: nat := reference.price * Pow10(actual.priceDecimals), actual.price * Pow10(reference.priceDecimals);
    assert r * (BASIS_POINTS + deviation) == r * BASIS_POINTS + r * deviation;
    assert r * (BASIS_POINTS - deviation) == r * BASIS_POINTS - r * deviation;
  }

  /** The checked exchange inequality holds for the exact rationals at execution prices. */
  lemma ExecutionBound(p: SettlementPriceProtection)
    requires CalculateTreasuryExchangeValues(p).Ok?
    ensures 0 <= p.inputAmount && 0 <= p.outputAmount && 0 <= p.inputDecimals && 0 <= p.outputDecimals
      && 0 <= p.valueDecimals
    ensures 0 < p.inputExecution.price && 0 < p.outputExecution.price
    ensures 0 <= p.inputExecution.priceDecimals && 0 <= p.outputExecution.priceDecimals
      && 0 <= p.maximumPriceDeviationBps <= BASIS_POINTS
    ensures ScaledAtLeast(
              ExactValue(p.inputAmount, p.inputDecimals, p.inputExecution.price, p.inputExecution.priceDecimals,
              p.valueDecimals), BASIS_POINTS,
              ExactValue(p.outputAmount, p.outputDecimals, p.outputExecution.price, p.outputExecution.priceDecimals,
              p.valueDecimals),
              BASIS_POINTS - p.maximumPriceDeviationBps)
  {
    hide Pow10, CeilDiv, CeilMulDivBySmall;
    var i := ScaledValue(p.inputAmount, p.inputDecimals, p.inputExecution.price, p.inputExecution.priceDecimals,
      p.valueDecimals).value;
    var o := ScaledValue(p.outputAmount, p.outputDecimals, p.outputExecution.price, p.outputExecution.priceDecimals,
      p.valueDecimals).value;
    var input, output := FloorDiv(i.numerator, i.denominator), CeilDiv(o.numerator, o.denominator);
    MinimumIsCeiling(output, BASIS_POINTS - p.maximumPriceDeviationBps, input);
    RoundedBound(i, o, input, output, BASIS_POINTS, BASIS_POINTS - p.maximumPriceDeviationBps);
  }

  /** Flooring the input and ceiling the output only ever strengthens the inequality. */
  lemma RoundedBound(i: Ratio, o: Ratio, input: nat, output: nat, k: nat, m: nat)
    requires 0 < i.denominator && 0 < o.denominator
    requires input == FloorDiv(i.numerator, i.denominator) && output == CeilDiv(o.numerator, o.denominator)
    requires output * m <= input * k
    ensures ScaledAtLeast(i, k, o, m)
  {
    DivisionBounds(i.numerator, i.denominator);
    CeilDivBounds(o.numerator, o.denominator);
    RationalChain(i.numerator, i.denominator, o.numerator, o.denominator, input, output, k, m);
  }

  lemma RationalChain(ni: nat, di: nat, no: nat, do: nat, input: nat, output: nat, k: nat, m: nat)
    requires input * di <= ni && no <= output * do && output * m <= input * k
    ensures no * di * m <= ni * do * k
  {
    MulMono(no, output * do, di * m);
    MulMono(output * m, input * k, di * do);
    MulMono(input * di, ni, do * k);
    assert (output * do) * (di * m) == (output * m) * (di * do);
    assert (input * k) * (di * do) == (input * di) * (do * k);
    assert no * di * m == no * (di * m) && ni * do * k == ni * (do * k);
  }

  /** Moving a price within its deviation moves the exact value by the same factor. */
  lemma ExactValueScales(amount: nat, decimals: nat, valueDecimals: nat, price: nat, pd: nat, other: nat, otherPd: nat,
    k: nat, m: nat)
    requires price * Pow10(otherPd) * k <= other * Pow10(pd) * m
    ensures ScaledAtLeast(ExactValue(amount, decimals, other, otherPd, valueDecimals), m,
                          ExactValue(amount, decimals, price, pd, valueDecimals), k)
  {
    hide Pow10;
    CommonFactor(amount, Pow10(valueDecimals), Pow10(decimals), price, Pow10(pd), other, Pow10(otherPd), k, m);
  }

  lemma CommonFactor(a: nat, w: nat, d: nat, price: nat, e: nat, other: nat, e': nat, k: nat, m: nat)
    requires price * e' * k <= other * e * m
    ensures (a * price * w) * (d * e') * k <= (a * other * w) * (d * e) * m
  {
    var c := a * w * d;
    MulMono(price * e' * k, other * e * m, c);
    Regroup(a, price, w, d, e', k);
    Regroup(a, other, w, d, e, m);
  }

  lemma Regroup(a: nat, x: nat, w: nat, d: nat, e: nat, k: nat)
    ensures (a * x * w) * (d * e) * k == (a * w * d) * (x * e * k)
  {
    assert (a * x * w) * (d * e) == (a * w * d) * (x * e) by {
      assert (a * x * w) * (d * e) == ((a * x * w) * d) * e;
      assert (a * x * w) * d == (a * w * d) * x;
      assert ((a * w * d) * x) * e == (a * w * d) * (x * e);
    }
    assert ((a * w * d) * (x * e)) * k == (a * w * d) * (x * e * k);
  }

  /** Comparisons of positive rationals compose, multiplying their factors. */
  lemma Compose(a: Ratio, k: nat, b: Ratio, m: nat, k': nat, c: Ratio, m': nat)
    requires 0 < b.denominator
    requires ScaledAtLeast(a, k, b, m) && ScaledAtLeast(b, k', c, m')
    ensures ScaledAtLeast(a, k * k', c, m * m')
  {
    var f, g := c.denominator * k', a.denominator * m;
    MulMono(b.numerator * a.denominator * m, a.numerator * b.denominator * k, f);
    MulMono(c.numerator * b.denominator * m', b.numerator * c.denominator * k', g);
    CrossTerms(a.numerator, b.denominator, k, c.denominator, k');
    MiddleTerms(b.numerator, a.denominator, m, c.denominator, k');
    CrossTerms(c.numerator, b.denominator, m', a.denominator, m);
    assert m' * m == m * m';
    MulCancelLe(c.numerator * a.denominator * (m * m'), a.numerator * c.denominator * (k * k'), b.denominator);
  }

  lemma CrossTerms(n: nat, d: nat, k: nat, e: nat, k': nat)
    ensures (n * d * k) * (e * k') == (n * e * (k * k')) * d
  {
    assert (n * d * k) * (e * k') == (n * d * e) * (k * k') by {
      assert (n * d * k) * (e * k') == ((n * d * k) * e) * k';
      assert (n * d * k) * e == (n * d * e) * k;
    }
    assert (n * d * e) * (k * k') == (n * e * (k * k')) * d;
  }

  lemma MiddleTerms(n: nat, x: nat, m: nat, y: nat, k: nat)
    ensures (n * x * m) * (y * k) == (n * y * k) * (x * m)
  {
    assert (n * x * m) * (y * k) == (n * y * k) * (x * m) by {
      assert n * x * m == n * (x * m);
      assert n * y * k == n * (y * k);
      assert (n * (x * m)) * (y * k) == (n * (y * k)) * (x * m);
    }
  }

  /** Three chained comparisons, with one common factor cancelled. */
  lemma ChainBounds(ri: Ratio, i: Ratio, o: Ratio, ro: Ratio, k: nat, up: nat, down: nat)
    requires 0 < i.denominator && 0 < o.denominator && 0 < k
    requires ScaledAtLeast(ri, up, i, k) && ScaledAtLeast(i, k, o, down) && ScaledAtLeast(o, k, ro, down)
    ensures ScaledAtLeast(ri, up * k, ro, down * down)
  {
    Compose(ri, up, i, k, k, o, down);
    Compose(ri, up * k, o, k * down, k, ro, down);
    var x, y := ri.numerator * ro.denominator, ro.numerator * ri.denominator;
    CancelCommon(x, up * k, y, down, k);
  }

  lemma CancelCommon(x: nat, u: nat, y: nat, down: nat, k: nat)
    requires 0 < k && x * (u * k) >= y * ((k * down) * down)
    ensures x * u >= y * (down * down)
  {
    assert x * (u * k) == (x * u) * k;
    assert y * ((k * down) * down) == (y * (down * down)) * k;
    MulCancelLe(y * (down * down), x * u, k);
  }

  /** The amounts are ones the source accepts, and the treasury's exact exchange at reference prices is bounded. */
  ghost predicate TreasuryBoundHolds(p: SettlementPriceProtection) {
    var d := p.maximumPriceDeviationBps;
    && 0 <= p.inputAmount && 0 <= p.outputAmount && 0 <= p.inputDecimals && 0 <= p.outputDecimals
    && 0 <= p.valueDecimals
    && 0 < p.inputReference.price && 0 < p.outputReference.price
    && 0 <= p.inputReference.priceDecimals && 0 <= p.outputReference.priceDecimals
    && 0 <= d <= BASIS_POINTS
    && ScaledAtLeast(
         ExactValue(p.inputAmount, p.inputDecimals, p.inputReference.price, p.inputReference.priceDecimals,
         p.valueDecimals),
         (BASIS_POINTS + d) * BASIS_POINTS,
         ExactValue(p.outputAmount, p.outputDecimals, p.outputReference.price, p.outputReference.priceDecimals,
         p.valueDecimals),
         (BASIS_POINTS - d) * (BASIS_POINTS - d))
  }

  /**
   Once a settlement's prices are accepted with deviation d, then at the reference prices the exact
   value the treasury receives satisfies  in * (10000 + d) * 10000 >= (10000 - d)^2 * out.
   */
  lemma WorstCaseTreasuryBound(p: SettlementPriceProtection)
    requires Protected(p)
    ensures TreasuryBoundHolds(p)
  {
    hide IsRecent, IsApproved, AssertPriceWithinDeviation, WithinDeviation, CalculateTreasuryExchangeValues,
      ExchangeHolds, ExactValue, ScaledAtLeast, Pow10;
    var d := p.maximumPriceDeviationBps;
    DeviationIff(p.inputReference, p.inputExecution, d);
    DeviationIff(p.outputReference, p.outputExecution, d);
    ExchangeIff(p);
    DeviationBounds(p.inputReference, p.inputExecution, d);
    DeviationBounds(p.outputReference, p.outputExecution, d);
    ExecutionBound(p);
    ExactValueScales(p.inputAmount, p.inputDecimals, p.valueDecimals,
      p.inputExecution.price, p.inputExecution.priceDecimals, p.inputReference.price, p.inputReference.priceDecimals,
      BASIS_POINTS, BASIS_POINTS + d);
    ExactValueScales(p.outputAmount, p.outputDecimals, p.valueDecimals,
      p.outputReference.price, p.outputReference.priceDecimals, p.outputExecution.price,
      p.outputExecution.priceDecimals, BASIS_POINTS - d, BASIS_POINTS);
    ChainBounds(
      ExactValue(p.inputAmount, p.inputDecimals, p.inputReference.price, p.inputReference.priceDecimals,
      p.valueDecimals),
      ExactValue(p.inputAmount, p.inputDecimals, p.inputExecution.price, p.inputExecution.priceDecimals,
      p.valueDecimals),
      ExactValue(p.outputAmount, p.outputDecimals, p.outputExecution.price, p.outputExecution.priceDecimals,
      p.valueDecimals),
      ExactValue(p.outputAmount, p.outputDecimals, p.outputReference.price, p.outputReference.priceDecimals,
      p.valueDecimals),
      BASIS_POINTS, BASIS_POINTS + d, BASIS_POINTS - d);
  }

  // ----- The bound cannot be improved

  /** The two exact sides of the treasury bound are equal. */
  ghost predicate TreasuryBoundIsTight(p: SettlementPriceProtection) {
    var d := p.maximumPriceDeviationBps;
    && TreasuryBoundHolds(p)
    && ScaledAtLeast(
         ExactValue(p.outputAmount, p.outputDecimals, p.outputReference.price, p.outputReference.priceDecimals,
         p.valueDecimals),
         (BASIS_POINTS - d) * (BASIS_POINTS - d),
         ExactValue(p.inputAmount, p.inputDecimals, p.inputReference.price, p.inputReference.priceDecimals,
         p.valueDecimals),
         (BASIS_POINTS + d) * BASIS_POINTS)
  }

  function SampleId(): string {
    "0x" + seq(64, _ => '0')
  }

  function SamplePrice(token: Token, price: int): PriceSnapshot {
    PriceSnapshot(SampleId(), token, price, 0, 0)
  }

  /** References at 10000; the input executes the whole deviation above, the output the whole deviation below. */
  function WorstCase(n: nat, d: nat): SettlementPriceProtection {
    SettlementPriceProtection(
      SamplePrice("a", BASIS_POINTS), SamplePrice("a", BASIS_POINTS + d),
      SamplePrice("b", BASIS_POINTS), SamplePrice("b", BASIS_POINTS - d),
      SampleId(), SampleId(), InputUnits(n, d), OutputUnits(n, d), 0, 0, 0, 0, 60, d)
  }

  function InputUnits(n: nat, d: nat): nat {
    (BASIS_POINTS - d) * (BASIS_POINTS - d) * n
  }

  function OutputUnits(n: nat, d: nat): nat {
    BASIS_POINTS * ((BASIS_POINTS + d) * n)
  }

  lemma WorstCaseIsAccepted(n: nat, d: nat)
    requires d < BASIS_POINTS && 2_000_000_000_000 * n <= UINT256_MAX
    ensures Protected(WorstCase(n, d))
  {
    hide WorstCase, IsRecent, IsApproved, AssertPriceWithinDeviation, WithinDeviation,
      CalculateTreasuryExchangeValues, ExchangeHolds, AreExchangeValues;
    var p := WorstCase(n, d);
    WorstCaseIsFresh(n, d);
    WorstCaseIsApproved(n, d);
    WorstCaseDeviates(n, d);
    WorstCaseExchanges(n, d);
    DeviationIff(p.inputReference, p.inputExecution, p.maximumPriceDeviationBps);
    DeviationIff(p.outputReference, p.outputExecution, p.maximumPriceDeviationBps);
    ExchangeIff(p);
  }

  /** An accepted settlement of the given deviation and size that meets the bound with equality. */
  ghost predicate MeetsWorstCase(p: SettlementPriceProtection, n: nat, d: nat)
    requires d < BASIS_POINTS
  {
    && p.maximumPriceDeviationBps == d && p.inputAmount == InputUnits(n, d)
    && Protected(p) && TreasuryBoundIsTight(p)
  }

  /** For every deviation below 100% the bound is met with equality, at every size. */
  lemma WorstCaseIsAttained(n: nat, d: nat)
    requires d < BASIS_POINTS && 2_000_000_000_000 * n <= UINT256_MAX
    ensures exists p :: MeetsWorstCase(p, n, d)
  {
    hide Protected, TreasuryBoundHolds, TreasuryBoundIsTight, InputUnits, OutputUnits, SamplePrice, SampleId;
    WorstCaseIsAccepted(n, d);
    WorstCaseTreasuryBound(WorstCase(n, d));
    WorstCaseIsEqual(n, d);
    assert MeetsWorstCase(WorstCase(n, d), n, d);
  }

  lemma WorstCaseIsEqual(n: nat, d: nat)
    requires d < BASIS_POINTS && TreasuryBoundHolds(WorstCase(n, d))
    ensures TreasuryBoundIsTight(WorstCase(n, d))
  {
    hide TreasuryBoundHolds, ExactValue, SampleId, InputUnits, OutputUnits;
    WholeValue(InputUnits(n, d), BASIS_POINTS, 0);
    WholeValue(OutputUnits(n, d), BASIS_POINTS, 0);
    SidesAgree(n, d);
  }

  lemma SidesAgree(n: nat, d: nat)
    requires d < BASIS_POINTS
    ensures InputUnits(n, d) * BASIS_POINTS * 1 * ((BASIS_POINTS + d) * BASIS_POINTS)
         == OutputUnits(n, d) * BASIS_POINTS * 1 * ((BASIS_POINTS - d) * (BASIS_POINTS - d))
  {
    var up: nat, square: nat := BASIS_POINTS + d, (BASIS_POINTS - d) * (BASIS_POINTS - d);
    assert (square * n) * up == (up * n) * square;
  }

  lemma WorstCaseIsFresh(n: nat, d: nat)
    requires d < BASIS_POINTS
    ensures var p := WorstCase(n, d);
            && IsRecent(p.inputReference, p.nowSeconds, p.maximumPriceAgeSeconds)
            && IsRecent(p.outputReference, p.nowSeconds, p.maximumPriceAgeSeconds)
            && IsRecent(p.inputExecution, p.nowSeconds, p.maximumPriceAgeSeconds)
            && IsRecent(p.outputExecution, p.nowSeconds, p.maximumPriceAgeSeconds)
  {
    hide InputUnits, OutputUnits;
  }

  lemma WorstCaseIsApproved(n: nat, d: nat)
    ensures var p := WorstCase(n, d);
            && IsApproved(p.inputExecution, p.inputReference.token, p.approvedInputSnapshotId)
            && IsApproved(p.outputExecution, p.outputReference.token, p.approvedOutputSnapshotId)
  {
    hide InputUnits, OutputUnits;
    assert AbiWords.IsBytes32(SampleId());
  }

  /** A price that moves by d from 10000 moves by d basis points. */
  lemma WholePricesDeviate(token: Token, actual: nat, d: nat)
    requires 0 < actual && d < BASIS_POINTS && (actual == BASIS_POINTS + d || actual == BASIS_POINTS - d)
    ensures AssertPriceWithinDeviation(SamplePrice(token, BASIS_POINTS), SamplePrice(token, actual), d).Ok?
  {
    assert Scale10(0) == Ok(1);
  }

  lemma WorstCaseDeviates(n: nat, d: nat)
    requires d < BASIS_POINTS
    ensures var p := WorstCase(n, d);
            && AssertPriceWithinDeviation(p.inputReference, p.inputExecution, p.maximumPriceDeviationBps).Ok?
            && AssertPriceWithinDeviation(p.outputReference, p.outputExecution, p.maximumPriceDeviationBps).Ok?
  {
    hide AssertPriceWithinDeviation, SamplePrice, InputUnits, OutputUnits;
    WholePricesDeviate("a", BASIS_POINTS + d, d);
    WholePricesDeviate("b", BASIS_POINTS - d, d);
  }

  lemma WholeValue(amount: nat, price: nat, decimals: nat)
    requires decimals == 0
    ensures ExactValue(amount, decimals, price, decimals, decimals) == Ratio(amount * price, 1)
  {
    assert Pow10(decimals) == 1;
  }

  /** At the execution prices the input is worth exactly the minimum demanded for the output. */
  lemma WorstCaseExchanges(n: nat, d: nat)
    requires d < BASIS_POINTS && 2_000_000_000_000 * n <= UINT256_MAX
    ensures CalculateTreasuryExchangeValues(WorstCase(n, d)).Ok?
  {
    hide InputUnits, OutputUnits, CeilMulDivBySmall, ScaledValue, CeilDiv, FloorDiv, SampleId;
    var up: nat, down: nat := BASIS_POINTS + d, BASIS_POINTS - d;
    ExecutionValues(n, d, up, down);
    WholeScaledValue(InputUnits(n, d), up, InputUnits(n, d) * up);
    WholeScaledValue(OutputUnits(n, d), down, OutputUnits(n, d) * down);
    DivideByOne(InputUnits(n, d) * up);
    DivideByOne(OutputUnits(n, d) * down);
  }

  lemma ExecutionValues(n: nat, d: nat, up: nat, down: nat)
    requires d < BASIS_POINTS && up == BASIS_POINTS + d && down == BASIS_POINTS - d
    requires 2_000_000_000_000 * n <= UINT256_MAX
    ensures InputUnits(n, d) * up <= UINT256_MAX && OutputUnits(n, d) * down <= UINT256_MAX
    ensures InputUnits(n, d) <= InputUnits(n, d) * up && OutputUnits(n, d) <= OutputUnits(n, d) * down
    ensures CeilMulDivBySmall(OutputUnits(n, d) * down, down, BASIS_POINTS) == InputUnits(n, d) * up
  {
    hide CeilMulDivBySmall, InputUnits, OutputUnits;
    UnitsOfShare(n, d, up, down);
    ShareIsSmall(n, up, down);
    TimesAtMost(InputUnits(n, d), 1, up);
    TimesAtMost(OutputUnits(n, d), 1, down);
    CeilOfMultiple((up * n) * down, down);
  }

  lemma UnitsOfShare(n: nat, d: nat, up: nat, down: nat)
    requires d < BASIS_POINTS && up == BASIS_POINTS + d && down == BASIS_POINTS - d
    ensures OutputUnits(n, d) * down == BASIS_POINTS * ((up * n) * down)
    ensures InputUnits(n, d) * up == ((up * n) * down) * down
  {
    assert ((down * down) * n) * up == ((up * n) * down) * down;
    assert (BASIS_POINTS * (up * n)) * down == BASIS_POINTS * ((up * n) * down);
  }

  lemma ShareIsSmall(n: nat, up: nat, down: nat)
    requires up <= 2 * BASIS_POINTS && down <= BASIS_POINTS && 2_000_000_000_000 * n <= UINT256_MAX
    ensures BASIS_POINTS * ((up * n) * down) <= UINT256_MAX && ((up * n) * down) * down <= UINT256_MAX
  {
    hide UINT256_MAX;
    TimesAtMost(n, up, 2 * BASIS_POINTS);
    TimesAtMost(up * n, down, BASIS_POINTS);
    TimesAtMost((up * n) * down, down, BASIS_POINTS);
    ThreeFactors(n, up * n, (up * n) * down, ((up * n) * down) * down);
  }

  lemma TimesAtMost(a: nat, b: nat, k: nat)
    requires b <= k
    ensures b * a <= k * a && a * b <= k * a
  {
    MulMono(b, k, a);
  }

  lemma ThreeFactors(n: nat, traded: nat, share: nat, paid: nat)
    requires traded <= 2 * BASIS_POINTS * n && share <= BASIS_POINTS * traded && paid <= BASIS_POINTS * share
    requires 2_000_000_000_000 * n <= UINT256_MAX
    ensures BASIS_POINTS * share <= UINT256_MAX && paid <= UINT256_MAX
  {
  }

  lemma CeilOfMultiple(share: nat, multiplier: nat)
    ensures CeilMulDivBySmall(BASIS_POINTS * share, multiplier, BASIS_POINTS) == share * multiplier
  {
    assert 0 * multiplier == 0;
  }

  lemma WholeScaledValue(amount: nat, price: nat, gross: nat)
    requires 0 < price <= 2 * BASIS_POINTS && gross == amount * price && amount <= UINT256_MAX && gross <= UINT256_MAX
    ensures ScaledValue(amount, 0, price, 0, 0) == Ok(Ratio(gross, 1))
  {
    assert Scale10(0) == Ok(1);
  }

  lemma DivideByOne(n: nat)
    ensures CeilDiv(n, 1) == n && FloorDiv(n, 1) == n
  {
  }
}
