/**
 Utilization, the OptionSpace interval-average fee and its distribution
 (packages/shared/src/financial.ts:769-779 and 889-1000, settlement.ts:90-108).
 */
module Fees {
  import opened Uint256
  import opened Wrappers

  const MAXIMUM_TOTAL_FEE_BPS: nat := 100
  /** One basis point of one value unit, in the scale of a scaled fee rate. */
  const RATE_SCALE: nat := BASIS_POINTS * FIXED_POINT_SCALE

  datatype FeeConfig = FeeConfig(
    baseFeeBps: int, slopeBps: int, maximumFeeBps: int, treasuryBaseFeeBps: int, solverFeeBps: int, protocolFeeBps: int)

  datatype OptionSpaceFee = OptionSpaceFee(
    feeBpsScaled: nat, premiumBpsScaled: nat, utilizationBefore: nat, utilizationAfter: nat)

  datatype FeeDistribution = FeeDistribution(
    baseFeeBps: nat, optionSpacePremiumBpsScaled: nat, totalFeeBpsScaled: nat, baseFeeAmount: nat,
    treasuryBaseFeeAmount: int, optionSpacePremiumAmount: int, totalFeeAmount: nat,
    treasuryAmount: int, solverAmount: nat, protocolAmount: nat)

  function CalculateUtilization(consumedValue: int, capacityValue: int): Checked<nat> {
    var consumed :- ToUint256(consumedValue);
    var capacity :- ToUint256(capacityValue);
    if capacity == 0 then Ok(if consumed == 0 then 0 else FIXED_POINT_SCALE)
    else if consumed > capacity then Err(CapacityExceeded)
    else
      var scaled :- CheckedMul(consumed, FIXED_POINT_SCALE);
      Ok(FloorDiv(scaled, capacity))
  }

  function CalculateOptionSpaceFee(baseFeeBps: int, slopeBps: int, utilizationBefore: int, utilizationAfter: int,
    maximumFeeBps: int): (r: Checked<OptionSpaceFee>)
  {
    var base :- RequireBps(baseFeeBps);
    var slope :- RequireBps(slopeBps);
    var u0 :- ToUint256(utilizationBefore);
    var u1 :- ToUint256(utilizationAfter);
    var maximum :- RequireBps(maximumFeeBps);
    if maximum > MAXIMUM_TOTAL_FEE_BPS || base > maximum || base + slope > maximum then Err(BadFeeConfig)
    else if u0 > FIXED_POINT_SCALE || u1 > FIXED_POINT_SCALE || u1 < u0 then Err(BadUtilization)
    else
      var after :- CheckedMul(u1, u1);
      var cross :- CheckedMul(u0, u1);
      var before :- CheckedMul(u0, u0);
      var weighted :- CheckedMul(slope, after + cross + before);
      var premium := CeilDiv(weighted, 3 * FIXED_POINT_SCALE);
      var scaledBase :- CheckedMul(base, FIXED_POINT_SCALE);
      var fee :- CheckedAdd(scaledBase, premium);
      if fee > maximum * FIXED_POINT_SCALE then Err(FeeExceedsCap)
      else Ok(OptionSpaceFee(fee, fee - scaledBase, u0, u1))
  }

  function FeeAmount(tradeValue: nat, feeBpsScaled: nat): Checked<nat> {
    var product :- CheckedMul(tradeValue, feeBpsScaled);
    Ok(CeilDiv(product, RATE_SCALE))
  }

  function FloorMulDiv(a: nat, b: nat, denominator: nat): Checked<nat>
    requires denominator > 0
  {
    var product :- CheckedMul(a, b);
    Ok(FloorDiv(product, denominator))
  }

  function DistributeFees(tradeValue: int, fee: FeeConfig, utilizationBefore: int,
    utilizationAfter: int): Checked<FeeDistribution>
  {
    var value :- ToUint256(tradeValue);
    var base :- RequireBps(fee.baseFeeBps);
    var treasuryBase :- RequireBps(fee.treasuryBaseFeeBps);
    var solver :- RequireBps(fee.solverFeeBps);
    var protocol :- RequireBps(fee.protocolFeeBps);
    if treasuryBase + solver + protocol != base then Err(BadFeeConfig) else
    var option :- CalculateOptionSpaceFee(base, fee.slopeBps, utilizationBefore, utilizationAfter, fee.maximumFeeBps);
    var baseAmount :- FeeAmount(value, base * FIXED_POINT_SCALE);
    var totalAmount :- FeeAmount(value, option.feeBpsScaled);
    var share := if base == 0 then 1 else base;
    var solverAmount :- FloorMulDiv(baseAmount, solver, share);
    var protocolAmount :- FloorMulDiv(baseAmount, protocol, share);
    Ok(FeeDistribution(
         base, option.premiumBpsScaled, option.feeBpsScaled, baseAmount,
         baseAmount - solverAmount - protocolAmount, totalAmount - baseAmount, totalAmount,
         totalAmount - solverAmount - protocolAmount, solverAmount, protocolAmount))
  }

  function FeeFor(value: int, fee: FeeConfig, consumedBefore: int, consumedAfter: int,
    capacityBaseline: int): Checked<FeeDistribution>
  {
    var before :- CalculateUtilization(consumedBefore, capacityBaseline);
    var after :- CalculateUtilization(consumedAfter, capacityBaseline);
    DistributeFees(value, fee, before, after)
  }

  // ----- What the checked computations amount to

  /** Utilization is the floored share of the capacity, scaled; without capacity it is none or all. */
  lemma UtilizationIff(consumed: int, capacity: int)
    ensures CalculateUtilization(consumed, capacity).Ok? <==>
              && 0 <= consumed <= UINT256_MAX && 0 <= capacity <= UINT256_MAX
              && (capacity == 0 || (consumed <= capacity && consumed * FIXED_POINT_SCALE <= UINT256_MAX))
    ensures CalculateUtilization(consumed, capacity).Ok? ==>
              var u := CalculateUtilization(consumed, capacity).value;
              if capacity == 0 then u == (if consumed == 0 then 0 else FIXED_POINT_SCALE)
              else u * capacity <= consumed * FIXED_POINT_SCALE < u * capacity + capacity
  {
    if capacity > 0 && 0 <= consumed {
      DivisionBounds(consumed * FIXED_POINT_SCALE, capacity);
    }
  }

  /** A configuration the fee code accepts. */
  ghost predicate ValidFee(fee: FeeConfig) {
    && 0 <= fee.treasuryBaseFeeBps && 0 <= fee.solverFeeBps && 0 <= fee.protocolFeeBps && 0 <= fee.slopeBps
    && fee.treasuryBaseFeeBps + fee.solverFeeBps + fee.protocolFeeBps == fee.baseFeeBps
    && fee.baseFeeBps + fee.slopeBps <= fee.maximumFeeBps <= MAXIMUM_TOTAL_FEE_BPS
  }

  ghost function QuadraticSum(u0: nat, u1: nat): nat {
    u1 * u1 + u0 * u1 + u0 * u0
  }

  ghost function Premium(slope: nat, u0: nat, u1: nat): nat {
    CeilDiv(slope * QuadraticSum(u0, u1), 3 * FIXED_POINT_SCALE)
  }

  ghost function Rate(base: nat, slope: nat, u0: nat, u1: nat): nat {
    base * FIXED_POINT_SCALE + Premium(slope, u0, u1)
  }

  lemma QuadraticSumBounds(u0: nat, u1: nat)
    requires u0 <= FIXED_POINT_SCALE && u1 <= FIXED_POINT_SCALE
    ensures u1 * u1 <= FIXED_POINT_SCALE * FIXED_POINT_SCALE
    ensures u0 * u1 <= FIXED_POINT_SCALE * FIXED_POINT_SCALE
    ensures u0 * u0 <= FIXED_POINT_SCALE * FIXED_POINT_SCALE
    ensures QuadraticSum(u0, u1) <= 3 * (FIXED_POINT_SCALE * FIXED_POINT_SCALE)
  {
    MulMono(u1, FIXED_POINT_SCALE, u1);
    MulMono(u0, FIXED_POINT_SCALE, u1);
    MulMono(u0, FIXED_POINT_SCALE, u0);
  }

  /** A valid slope bounds the whole premium, so the fee-cap throw cannot be reached. */
  lemma PremiumBound(slope: nat, u0: nat, u1: nat)
    requires u0 <= FIXED_POINT_SCALE && u1 <= FIXED_POINT_SCALE
    ensures slope * QuadraticSum(u0, u1) <= slope * (3 * (FIXED_POINT_SCALE * FIXED_POINT_SCALE))
    ensures Premium(slope, u0, u1) <= slope * FIXED_POINT_SCALE
  {
    QuadraticSumBounds(u0, u1);
    MulMono(QuadraticSum(u0, u1), 3 * (FIXED_POINT_SCALE * FIXED_POINT_SCALE), slope);
    CeilDivLe(slope * QuadraticSum(u0, u1), 3 * FIXED_POINT_SCALE, slope * FIXED_POINT_SCALE);
  }

  /** The option fee is computed exactly when the rates and the interval are valid, and never above the cap. */
  lemma OptionSpaceFeeIff(base: int, slope: int, u0: int, u1: int, maximum: int)
    ensures CalculateOptionSpaceFee(base, slope, u0, u1, maximum).Ok? <==>
              && 0 <= base && 0 <= slope && base + slope <= maximum <= MAXIMUM_TOTAL_FEE_BPS
              && 0 <= u0 <= u1 <= FIXED_POINT_SCALE
    ensures CalculateOptionSpaceFee(base, slope, u0, u1, maximum).Ok? ==>
              var fee := CalculateOptionSpaceFee(base, slope, u0, u1, maximum).value;
              && fee == OptionSpaceFee(Rate(base, slope, u0, u1), Premium(slope, u0, u1), u0, u1)
              && fee.feeBpsScaled <= maximum * FIXED_POINT_SCALE
  {
    if 0 <= base && 0 <= slope && base + slope <= maximum <= MAXIMUM_TOTAL_FEE_BPS
      && 0 <= u0 <= u1 <= FIXED_POINT_SCALE {
      QuadraticSumBounds(u0, u1);
      PremiumBound(slope, u0, u1);
      MulMono(slope, MAXIMUM_TOTAL_FEE_BPS, 3 * (FIXED_POINT_SCALE * FIXED_POINT_SCALE));
    }
  }

  // ----- Distribution identities

  /** Every sum and cap a quote's fee breakdown must satisfy. */
  ghost predicate SatisfiesQuoteSchema(d: FeeDistribution) {
    && d.baseFeeBps * FIXED_POINT_SCALE + d.optionSpacePremiumBpsScaled == d.totalFeeBpsScaled
    && d.totalFeeBpsScaled <= MAXIMUM_TOTAL_FEE_BPS * FIXED_POINT_SCALE
    && d.baseFeeAmount + d.optionSpacePremiumAmount == d.totalFeeAmount
    && d.treasuryBaseFeeAmount + d.solverAmount + d.protocolAmount == d.baseFeeAmount
    && d.treasuryAmount + d.solverAmount + d.protocolAmount == d.totalFeeAmount
    && 0 <= d.treasuryBaseFeeAmount && 0 <= d.optionSpacePremiumAmount && 0 <= d.treasuryAmount
  }

  /** Two floored shares of a whole never exceed it. */
  lemma SharesFit(amount: nat, solver: nat, protocol: nat, base: nat)
    requires solver + protocol <= base && 0 < base
    ensures amount * solver / base + amount * protocol / base <= amount
  {
    DivisionBounds(amount * solver, base);
    DivisionBounds(amount * protocol, base);
    var s, p := amount * solver / base, amount * protocol / base;
    assert amount * solver + amount * protocol == amount * (solver + protocol);
    MulMono(solver + protocol, base, amount);
    assert (s + p) * base == s * base + p * base;
    MulCancelLe(s + p, amount, base);
  }

  lemma DistributionSatisfiesQuoteSchema(tradeValue: int, fee: FeeConfig, u0: int, u1: int)
    requires DistributeFees(tradeValue, fee, u0, u1).Ok?
    ensures SatisfiesQuoteSchema(DistributeFees(tradeValue, fee, u0, u1).value)
  {
    hide CalculateOptionSpaceFee;
    var d := DistributeFees(tradeValue, fee, u0, u1).value;
    var base: nat := fee.baseFeeBps;
    OptionSpaceFeeIff(base, fee.slopeBps, u0, u1, fee.maximumFeeBps);
    MulMono(base * FIXED_POINT_SCALE, d.totalFeeBpsScaled, tradeValue);
    CeilDivMono(tradeValue * (base * FIXED_POINT_SCALE), tradeValue * d.totalFeeBpsScaled, RATE_SCALE);
    if base == 0 {
      assert d.solverAmount == 0 && d.protocolAmount == 0;
    } else {
      SharesFit(d.baseFeeAmount, fee.solverFeeBps, fee.protocolFeeBps, base);
    }
  }

  /** Distribution fails only on an invalid configuration or interval, or when the scaled product overflows. */
  lemma DistributeFeesIff(tradeValue: int, fee: FeeConfig, u0: int, u1: int)
    ensures DistributeFees(tradeValue, fee, u0, u1).Ok? <==>
              && 0 <= tradeValue <= UINT256_MAX && ValidFee(fee) && 0 <= u0 <= u1 <= FIXED_POINT_SCALE
              && tradeValue * Rate(fee.baseFeeBps, fee.slopeBps, u0, u1) <= UINT256_MAX
    ensures DistributeFees(tradeValue, fee, u0, u1).Ok? ==>
              var d := DistributeFees(tradeValue, fee, u0, u1).value;
              && d.baseFeeBps == fee.baseFeeBps
              && d.totalFeeBpsScaled == Rate(fee.baseFeeBps, fee.slopeBps, u0, u1)
              && d.totalFeeAmount == CeilDiv(tradeValue * Rate(fee.baseFeeBps, fee.slopeBps, u0, u1), RATE_SCALE)
              && d.baseFeeAmount == CeilDiv(tradeValue * (fee.baseFeeBps * FIXED_POINT_SCALE), RATE_SCALE)
              && d.solverAmount == FloorDiv(d.baseFeeAmount * fee.solverFeeBps, Max(fee.baseFeeBps, 1))
              && d.protocolAmount == FloorDiv(d.baseFeeAmount * fee.protocolFeeBps, Max(fee.baseFeeBps, 1))
  {
    hide CalculateOptionSpaceFee, Premium;
    OptionSpaceFeeIff(fee.baseFeeBps, fee.slopeBps, u0, u1, fee.maximumFeeBps);
    if 0 <= tradeValue <= UINT256_MAX && ValidFee(fee) && 0 <= u0 <= u1 <= FIXED_POINT_SCALE {
      var base: nat := fee.baseFeeBps;
      var rate := Rate(base, fee.slopeBps, u0, u1);
      if tradeValue * rate <= UINT256_MAX {
        MulMono(base * FIXED_POINT_SCALE, rate, tradeValue);
        BaseShareFits(tradeValue, base, fee.solverFeeBps);
        BaseShareFits(tradeValue, base, fee.protocolFeeBps);
      }
    }
  }

  /** The base fee's recipients never overflow once the fee itself did not. */
  lemma BaseShareFits(tradeValue: nat, base: nat, share: nat)
    requires share <= base <= BASIS_POINTS && tradeValue * (base * FIXED_POINT_SCALE) <= UINT256_MAX
    ensures CeilDiv(tradeValue * (base * FIXED_POINT_SCALE), RATE_SCALE) * share <= UINT256_MAX
  {
    var product := tradeValue * (base * FIXED_POINT_SCALE);
    var amount := CeilDiv(product, RATE_SCALE);
    MulMono(base * FIXED_POINT_SCALE, RATE_SCALE, tradeValue);
    CeilDivLe(product, RATE_SCALE, tradeValue);
    MulMono(amount, tradeValue, share);
    MulMono(share, base, tradeValue);
    assert product == (tradeValue * base) * FIXED_POINT_SCALE;
  }
}
