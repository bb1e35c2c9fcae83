/**
 How the rounded fee of one fill grows with the fill, inside one capacity epoch.

 `consumed` units of a baseline are already used; the fill v moves utilization from
 floor(consumed / baseline) to floor((consumed + v) / baseline), both scaled by 10^18.
 When one more unit moves the scaled utilization a whole step, the rate of the entire fill rises by
 up to the slope.  A fill so large that this alone is worth a fee unit can jump by two
 (`LargeFillJumps`), so the growth bound is on the fill; the baseline is bounded only by overflow.
 */
module FeeGrowth {
  import opened Uint256
  import opened Wrappers
  import opened Fees

  /** A baseline whose scaled products fit: the fee code throws on none of its fills. */
  predicate Representable(baseline: nat) {
    baseline * (MAXIMUM_TOTAL_FEE_BPS * FIXED_POINT_SCALE) <= UINT256_MAX
  }

  ghost predicate InEpoch(consumed: nat, baseline: nat, v: nat) {
    consumed + v <= baseline && Representable(baseline)
  }

  /** One step of the rate over the whole fill, and the rate of one more unit, are worth at most one fee unit. */
  predicate GentleFill(fee: FeeConfig, v: nat) {
    fee.slopeBps * v + (fee.baseFeeBps + fee.slopeBps) * FIXED_POINT_SCALE <= RATE_SCALE
  }

  /** Up to 99 * 10^18 every fill of every valid configuration is one. */
  lemma SmallFillsAreGentle(fee: FeeConfig, v: nat)
    requires ValidFee(fee) && v <= 99 * FIXED_POINT_SCALE
    ensures GentleFill(fee, v)
  {
    MulMono(v, 99 * FIXED_POINT_SCALE, fee.slopeBps);
  }

  lemma SmallerFillsAreGentle(fee: FeeConfig, v: nat, w: nat)
    requires ValidFee(fee) && v <= w && GentleFill(fee, w)
    ensures GentleFill(fee, v)
  {
    MulMono(v, w, fee.slopeBps);
  }

  ghost function Utilization(consumed: nat, baseline: nat): nat
    requires consumed <= baseline
  {
    if baseline == 0 then 0 else FloorDiv(consumed * FIXED_POINT_SCALE, baseline)
  }

  lemma UtilizationBounds(consumed: nat, baseline: nat)
    requires consumed <= baseline
    ensures Utilization(consumed, baseline) <= FIXED_POINT_SCALE
    ensures Utilization(consumed, baseline) * baseline <= consumed * FIXED_POINT_SCALE
    ensures 0 < baseline ==> consumed * FIXED_POINT_SCALE < Utilization(consumed, baseline) * baseline + baseline
  {
    if baseline > 0 {
      DivisionBounds(consumed * FIXED_POINT_SCALE, baseline);
      MulMono(consumed, baseline, FIXED_POINT_SCALE);
      MulCancelLe(Utilization(consumed, baseline), FIXED_POINT_SCALE, baseline);
    }
  }

  lemma UtilizationMono(c: nat, d: nat, baseline: nat)
    requires c <= d <= baseline
    ensures Utilization(c, baseline) <= Utilization(d, baseline)
  {
    if baseline > 0 {
      FloorDivMono(c * FIXED_POINT_SCALE, d * FIXED_POINT_SCALE, baseline);
    }
  }

  /** Within the baseline only an overflow of the scaled consumption fails. */
  lemma CalculateUtilizationIff(consumed: nat, baseline: nat)
    requires consumed <= baseline
    ensures CalculateUtilization(consumed, baseline).Ok?
      <==> baseline <= UINT256_MAX && consumed * FIXED_POINT_SCALE <= UINT256_MAX
    ensures CalculateUtilization(consumed, baseline).Ok? ==>
      CalculateUtilization(consumed, baseline).value == Utilization(consumed, baseline)
  {
  }

  // ----- The fee of one fill in closed form

  ghost function FillRate(fee: FeeConfig, consumed: nat, baseline: nat, v: nat): nat
    requires ValidFee(fee) && consumed + v <= baseline
  {
    Rate(fee.baseFeeBps, fee.slopeBps, Utilization(consumed, baseline), Utilization(consumed + v, baseline))
  }

  ghost function TotalFee(fee: FeeConfig, consumed: nat, baseline: nat, v: nat): nat
    requires ValidFee(fee) && consumed + v <= baseline
  {
    CeilDiv(v * FillRate(fee, consumed, baseline, v), RATE_SCALE)
  }

  /** What solver and protocol take out of the treasury. */
  ghost function BaseFee(fee: FeeConfig, v: nat): nat
    requires ValidFee(fee)
  {
    CeilDiv(v * (fee.baseFeeBps * FIXED_POINT_SCALE), RATE_SCALE)
  }

  ghost function ExternalFee(fee: FeeConfig, v: nat): nat
    requires ValidFee(fee)
  {
    FloorDiv(BaseFee(fee, v) * fee.solverFeeBps, Max(fee.baseFeeBps, 1)) +
    FloorDiv(BaseFee(fee, v) * fee.protocolFeeBps, Max(fee.baseFeeBps, 1))
  }

  /** The part of the fee the treasury keeps. */
  ghost function RetainedFee(fee: FeeConfig, consumed: nat, baseline: nat, v: nat): int
    requires ValidFee(fee) && consumed + v <= baseline
  {
    TotalFee(fee, consumed, baseline, v) - ExternalFee(fee, v)
  }

  lemma FillRateBounds(fee: FeeConfig, consumed: nat, baseline: nat, v: nat)
    requires ValidFee(fee) && consumed + v <= baseline
    ensures fee.baseFeeBps * FIXED_POINT_SCALE <= FillRate(fee, consumed, baseline, v)
      <= MAXIMUM_TOTAL_FEE_BPS * FIXED_POINT_SCALE
  {
    UtilizationBounds(consumed, baseline);
    UtilizationBounds(consumed + v, baseline);
    PremiumBound(fee.slopeBps, Utilization(consumed, baseline), Utilization(consumed + v, baseline));
  }

  /** The checked computation of a fill within its epoch: exactly when it succeeds, and its amounts. */
  lemma FeeForIff(fee: FeeConfig, consumed: nat, baseline: nat, v: nat)
    requires consumed + v <= baseline
    ensures FeeFor(v, fee, consumed, consumed + v, baseline).Ok? <==>
              && ValidFee(fee) && baseline <= UINT256_MAX && (consumed + v) * FIXED_POINT_SCALE <= UINT256_MAX
              && v * FillRate(fee, consumed, baseline, v) <= UINT256_MAX
    ensures FeeFor(v, fee, consumed, consumed + v, baseline).Ok? ==>
              HasAmounts(FeeFor(v, fee, consumed, consumed + v, baseline).value, fee, consumed, baseline, v)
  {
    hide DistributeFees, CalculateUtilization, Premium, Utilization;
    MulMono(consumed, consumed + v, FIXED_POINT_SCALE);
    CalculateUtilizationIff(consumed, baseline);
    CalculateUtilizationIff(consumed + v, baseline);
    UtilizationBounds(consumed + v, baseline);
    UtilizationMono(consumed, consumed + v, baseline);
    var u0, u1 := Utilization(consumed, baseline), Utilization(consumed + v, baseline);
    if baseline <= UINT256_MAX {
      DistributeFeesIff(v, fee, u0, u1);
      if FeeFor(v, fee, consumed, consumed + v, baseline).Ok? {
        DistributionSatisfiesQuoteSchema(v, fee, u0, u1);
      }
    }
  }

  ghost predicate HasAmounts(d: FeeDistribution, fee: FeeConfig, consumed: nat, baseline: nat, v: nat)
    requires ValidFee(fee) && consumed + v <= baseline
  {
    && d.totalFeeAmount == TotalFee(fee, consumed, baseline, v)
    && d.baseFeeAmount == BaseFee(fee, v)
    && d.solverAmount + d.protocolAmount == ExternalFee(fee, v)
    && d.treasuryAmount == RetainedFee(fee, consumed, baseline, v)
  }

  /** On a representable baseline only an invalid configuration fails. */
  lemma FeeForInEpoch(fee: FeeConfig, consumed: nat, baseline: nat, v: nat)
    requires InEpoch(consumed, baseline, v)
    ensures FeeFor(v, fee, consumed, consumed + v, baseline).Ok? <==> ValidFee(fee)
    ensures ValidFee(fee) ==>
              HasAmounts(FeeFor(v, fee, consumed, consumed + v, baseline).value, fee, consumed, baseline, v)
  {
    hide FeeFor, FillRate, TotalFee, ExternalFee, BaseFee;
    FeeForIff(fee, consumed, baseline, v);
    if ValidFee(fee) {
      FillRateBounds(fee, consumed, baseline, v);
      MulMono(FillRate(fee, consumed, baseline, v), MAXIMUM_TOTAL_FEE_BPS * FIXED_POINT_SCALE, v);
      MulMono(v, baseline, MAXIMUM_TOTAL_FEE_BPS * FIXED_POINT_SCALE);
    }
  }

  /** The fee is at most one percent, rounded up, and so never exceeds the fill. */
  lemma TotalFeeBound(fee: FeeConfig, consumed: nat, baseline: nat, v: nat)
    requires ValidFee(fee) && consumed + v <= baseline
    ensures TotalFee(fee, consumed, baseline, v) <= CeilDiv(v, 100) <= v
  {
    hide FillRate, CeilDiv;
    var rate := FillRate(fee, consumed, baseline, v);
    FillRateBounds(fee, consumed, baseline, v);
    OnePercent(v, rate);
    CeilDivLe(v, 100, v);
  }

  lemma OnePercent(v: nat, rate: nat)
    requires rate <= MAXIMUM_TOTAL_FEE_BPS * FIXED_POINT_SCALE
    ensures CeilDiv(v * rate, RATE_SCALE) <= CeilDiv(v, 100)
  {
    hide CeilDiv;
    var c := CeilDiv(v, 100);
    CeilDivBounds(v, 100);
    MulMono(rate, MAXIMUM_TOTAL_FEE_BPS * FIXED_POINT_SCALE, v);
    CeilDivLe(v * rate, RATE_SCALE, c);
  }

  lemma RetainedFeeBounds(fee: FeeConfig, consumed: nat, baseline: nat, v: nat)
    requires ValidFee(fee) && consumed + v <= baseline
    ensures 0 <= ExternalFee(fee, v) <= BaseFee(fee, v)
    ensures 0 <= RetainedFee(fee, consumed, baseline, v) <= TotalFee(fee, consumed, baseline, v)
  {
    hide FillRate;
    FillRateBounds(fee, consumed, baseline, v);
    MulMono(fee.baseFeeBps * FIXED_POINT_SCALE, FillRate(fee, consumed, baseline, v), v);
    CeilDivMono(v * (fee.baseFeeBps * FIXED_POINT_SCALE), v * FillRate(fee, consumed, baseline, v), RATE_SCALE);
    if fee.baseFeeBps > 0 {
      SharesFit(BaseFee(fee, v), fee.solverFeeBps, fee.protocolFeeBps, fee.baseFeeBps);
    }
  }

  // ----- The fee of a single unit

  /** One when some fee is due on a single unit and no recipient takes all of its base fee, otherwise nothing. */
  function KeptOfUnit(fee: FeeConfig, consumed: nat, baseline: nat): nat {
    if fee.baseFeeBps > 0 then
      if fee.solverFeeBps < fee.baseFeeBps && fee.protocolFeeBps < fee.baseFeeBps then 1 else 0
    else if fee.slopeBps > 0 && baseline <= (consumed + 1) * FIXED_POINT_SCALE then 1
    else 0
  }

  /** That is what the treasury keeps of a single unit. */
  lemma RetainedFeeOfUnit(fee: FeeConfig, consumed: nat, baseline: nat)
    requires ValidFee(fee) && consumed + 1 <= baseline
    ensures RetainedFee(fee, consumed, baseline, 1) == KeptOfUnit(fee, consumed, baseline)
  {
    hide FillRate, CeilDiv;
    FillRateBounds(fee, consumed, baseline, 1);
    UnitCeiling(FillRate(fee, consumed, baseline, 1));
    UnitCeiling(fee.baseFeeBps * FIXED_POINT_SCALE);
    if fee.baseFeeBps == 0 {
      UnitRate(fee, consumed, baseline);
      FirstStep(consumed + 1, baseline);
    } else {
      UnitShare(fee.solverFeeBps, fee.baseFeeBps);
      UnitShare(fee.protocolFeeBps, fee.baseFeeBps);
    }
  }

  lemma UnitCeiling(rate: nat)
    requires rate <= RATE_SCALE
    ensures CeilDiv(rate, RATE_SCALE) == if rate == 0 then 0 else 1
  {
    hide CeilDiv;
    CeilDivLe(rate, RATE_SCALE, 0);
    CeilDivLe(rate, RATE_SCALE, 1);
  }

  lemma UnitShare(share: nat, base: nat)
    requires share <= base && 0 < base
    ensures FloorDiv(1 * share, base) == if share == base then 1 else 0
  {
    FloorDivGe(share, base, 1);
    FloorDivGe(share, base, 2);
  }

  /** Without a base fee a unit is free exactly when it leaves the scaled utilization at zero. */
  lemma UnitRate(fee: FeeConfig, consumed: nat, baseline: nat)
    requires ValidFee(fee) && fee.baseFeeBps == 0 && consumed + 1 <= baseline
    ensures FillRate(fee, consumed, baseline, 1) == 0 <==> fee.slopeBps == 0 || Utilization(consumed + 1, baseline) == 0
  {
    hide Utilization, Premium;
    UtilizationMono(consumed, consumed + 1, baseline);
    PremiumVanishes(fee.slopeBps, Utilization(consumed, baseline), Utilization(consumed + 1, baseline));
  }

  lemma FirstStep(c: nat, baseline: nat)
    requires 0 < c <= baseline
    ensures Utilization(c, baseline) == 0 <==> c * FIXED_POINT_SCALE < baseline
  {
    FloorDivGe(c * FIXED_POINT_SCALE, baseline, 1);
  }

  lemma PremiumVanishes(slope: nat, u0: nat, u1: nat)
    requires u0 <= u1
    ensures Premium(slope, u0, u1) == 0 <==> slope == 0 || u1 == 0
  {
    hide CeilDiv, QuadraticSum;
    SquaresVanish(u0, u1);
    ProductVanishes(slope, QuadraticSum(u0, u1));
    CeilDivLe(slope * QuadraticSum(u0, u1), 3 * FIXED_POINT_SCALE, 0);
  }

  lemma SquaresVanish(u0: nat, u1: nat)
    requires u0 <= u1
    ensures QuadraticSum(u0, u1) == 0 <==> u1 == 0
  {
    MulMono(0, u1, u0);
    if 0 < u1 {
      MulMono(1, u1, u1);
    }
  }

  lemma ProductVanishes(a: nat, b: nat)
    ensures a * b == 0 <==> a == 0 || b == 0
  {
    if 0 < a && 0 < b {
      MulStrict(0, a, b);
    }
  }

  // ----- Growth by one unit

  /** One more unit moves the scaled utilization, weighted by the baseline, by less than 10^18 + baseline. */
  lemma UtilizationStep(c: nat, baseline: nat)
    requires c + 1 <= baseline
    ensures (Utilization(c + 1, baseline) - Utilization(c, baseline)) * baseline < FIXED_POINT_SCALE + baseline
  {
    UtilizationBounds(c, baseline);
    UtilizationBounds(c + 1, baseline);
    var u, u' := Utilization(c, baseline), Utilization(c + 1, baseline);
    assert (u' - u) * baseline == u' * baseline - u * baseline;
  }

  lemma QuadraticStep(u0: nat, u: nat, d: nat)
    ensures QuadraticSum(u0, u + d) == QuadraticSum(u0, u) + d * (2 * u + d + u0)
  {
    assert (u + d) * (u + d) == u * u + 2 * (u * d) + d * d;
    assert u0 * (u + d) == u0 * u + u0 * d;
    assert d * (2 * u + d + u0) == 2 * (u * d) + d * d + u0 * d;
  }

  /** The premium is Lipschitz in the final utilization, with the slope as its constant. */
  lemma PremiumStep(slope: nat, u0: nat, u: nat, u': nat)
    requires u0 <= FIXED_POINT_SCALE && u <= u' <= FIXED_POINT_SCALE
    ensures Premium(slope, u0, u) <= Premium(slope, u0, u') <= Premium(slope, u0, u) + slope * (u' - u)
  {
    hide QuadraticSum;
    var d, three := u' - u, 3 * FIXED_POINT_SCALE;
    var q, q' := QuadraticSum(u0, u), QuadraticSum(u0, u');
    QuadraticStep(u0, u, d);
    MulMono(2 * u + d + u0, three, d);
    MulMono(q, q', slope);
    MulMono(q', q + d * three, slope);
    Distribute(slope, q, d, three);
    CeilDivStep(slope * q, slope * q', three, slope * d);
  }

  lemma Distribute(a: nat, b: nat, c: nat, d: nat)
    ensures a * (b + c * d) == a * b + (a * c) * d
  {
    assert a * (b + c * d) == a * b + a * (c * d);
    assert a * (c * d) == (a * c) * d;
  }

  /** The rate never falls with the fill, and one step of it over a gentle fill is worth less than a fee unit. */
  lemma RateStep(fee: FeeConfig, consumed: nat, baseline: nat, v: nat)
    requires ValidFee(fee) && consumed + v + 1 <= baseline
    ensures FillRate(fee, consumed, baseline, v) <= FillRate(fee, consumed, baseline, v + 1)
    ensures GentleFill(fee, v) ==>
              v * (FillRate(fee, consumed, baseline, v + 1) - FillRate(fee, consumed, baseline, v))
                + (fee.baseFeeBps + fee.slopeBps) * FIXED_POINT_SCALE <= RATE_SCALE
  {
    var c := consumed + v;
    var u0, u, u' := Utilization(consumed, baseline), Utilization(c, baseline), Utilization(c + 1, baseline);
    hide Premium, Utilization, Rate;
    UtilizationBounds(consumed, baseline);
    UtilizationBounds(c + 1, baseline);
    UtilizationMono(c, c + 1, baseline);
    UtilizationStep(c, baseline);
    PremiumStep(fee.slopeBps, u0, u, u');
    RateDifference(fee.baseFeeBps, fee.slopeBps, u0, u, u');
    if GentleFill(fee, v) {
      var d := Premium(fee.slopeBps, u0, u') - Premium(fee.slopeBps, u0, u);
      ScaledStep(v, d, fee.slopeBps, u' - u, baseline, fee.baseFeeBps);
    }
  }

  lemma RateDifference(base: nat, slope: nat, u0: nat, u: nat, u': nat)
    ensures Rate(base, slope, u0, u') - Rate(base, slope, u0, u) == Premium(slope, u0, u') - Premium(slope, u0, u)
  {
  }

  /** On a baseline of at least 10^18 a unit moves utilization by at most one; on a smaller one the fill is small. */
  lemma ScaledStep(v: nat, d: nat, slope: nat, step: nat, baseline: nat, base: nat)
    requires d <= slope * step && base + slope <= MAXIMUM_TOTAL_FEE_BPS && v <= baseline
    requires step * baseline < FIXED_POINT_SCALE + baseline
    requires slope * v + (base + slope) * FIXED_POINT_SCALE <= RATE_SCALE
    ensures v * d + (base + slope) * FIXED_POINT_SCALE <= RATE_SCALE
  {
    MulMono(d, slope * step, v);
    assert v * (slope * step) == slope * (v * step);
    if baseline >= FIXED_POINT_SCALE {
      StepIsOne(step, baseline);
      MulMono(step, 1, v);
      MulMono(v * step, v, slope);
    } else {
      MulMono(v, baseline, step);
      MulMono(v * step, 2 * FIXED_POINT_SCALE, slope);
      MulMono(slope, MAXIMUM_TOTAL_FEE_BPS, 2 * FIXED_POINT_SCALE);
    }
  }

  lemma StepIsOne(step: nat, baseline: nat)
    requires step * baseline < FIXED_POINT_SCALE + baseline && FIXED_POINT_SCALE <= baseline
    ensures step <= 1
  {
    MulCancelLt(step, 2, baseline);
  }

  /** One more unit never lowers the fee, and raises a gentle fill's by at most one unit. */
  lemma TotalFeeStep(fee: FeeConfig, consumed: nat, baseline: nat, v: nat)
    requires ValidFee(fee) && consumed + v + 1 <= baseline
    ensures TotalFee(fee, consumed, baseline, v) <= TotalFee(fee, consumed, baseline, v + 1)
    ensures GentleFill(fee, v) ==> TotalFee(fee, consumed, baseline, v + 1) <= TotalFee(fee, consumed, baseline, v) + 1
  {
    var f, f' := FillRate(fee, consumed, baseline, v), FillRate(fee, consumed, baseline, v + 1);
    hide FillRate, CeilDiv;
    RateStep(fee, consumed, baseline, v);
    FillRateBelow(fee, consumed, baseline, v + 1);
    AmountStep(v, f, f');
  }

  lemma FillRateBelow(fee: FeeConfig, consumed: nat, baseline: nat, v: nat)
    requires ValidFee(fee) && consumed + v <= baseline
    ensures FillRate(fee, consumed, baseline, v) <= (fee.baseFeeBps + fee.slopeBps) * FIXED_POINT_SCALE
  {
    UtilizationBounds(consumed, baseline);
    UtilizationBounds(consumed + v, baseline);
    PremiumBound(fee.slopeBps, Utilization(consumed, baseline), Utilization(consumed + v, baseline));
  }

  lemma AmountStep(v: nat, f: nat, f': nat)
    requires f <= f'
    ensures CeilDiv(v * f, RATE_SCALE) <= CeilDiv((v + 1) * f', RATE_SCALE)
    ensures v * (f' - f) + f' <= RATE_SCALE ==> CeilDiv((v + 1) * f', RATE_SCALE) <= CeilDiv(v * f, RATE_SCALE) + 1
  {
    hide CeilDiv;
    ProductStep(v, f, f');
    var m, n: nat := v * f, (v + 1) * f';
    CeilDivMono(m, n, RATE_SCALE);
    if n <= m + RATE_SCALE {
      CeilDivStep(m, n, RATE_SCALE, 1);
    }
  }

  lemma ProductStep(v: nat, f: nat, f': nat)
    requires f <= f'
    ensures (v + 1) * f' == v * f + v * (f' - f) + f'
    ensures 0 <= v * (f' - f)
  {
  }

  lemma ExternalFeeMono(fee: FeeConfig, v: nat, w: nat)
    requires ValidFee(fee) && v <= w
    ensures BaseFee(fee, v) <= BaseFee(fee, w)
    ensures ExternalFee(fee, v) <= ExternalFee(fee, w)
  {
    MulMono(v, w, fee.baseFeeBps * FIXED_POINT_SCALE);
    CeilDivMono(v * (fee.baseFeeBps * FIXED_POINT_SCALE), w * (fee.baseFeeBps * FIXED_POINT_SCALE), RATE_SCALE);
    ShareMono(BaseFee(fee, v), BaseFee(fee, w), fee.solverFeeBps, Max(fee.baseFeeBps, 1));
    ShareMono(BaseFee(fee, v), BaseFee(fee, w), fee.protocolFeeBps, Max(fee.baseFeeBps, 1));
  }

  lemma ShareMono(a: nat, b: nat, share: nat, base: nat)
    requires a <= b && 0 < base
    ensures FloorDiv(a * share, base) <= FloorDiv(b * share, base)
  {
    MulMono(a, b, share);
    FloorDivMono(a * share, b * share, base);
  }

  /** The total fee is nondecreasing over any two fills of an epoch, and 1-Lipschitz up to a gentle one. */
  lemma {:induction false} TotalFeeGrowth(fee: FeeConfig, consumed: nat, baseline: nat, v: nat, w: nat)
    requires ValidFee(fee) && v <= w && consumed + w <= baseline
    ensures TotalFee(fee, consumed, baseline, v) <= TotalFee(fee, consumed, baseline, w)
    ensures GentleFill(fee, w) ==>
      TotalFee(fee, consumed, baseline, w) <= TotalFee(fee, consumed, baseline, v) + (w - v)
    decreases w - v
  {
    hide TotalFee, GentleFill;
    if v < w {
      TotalFeeGrowth(fee, consumed, baseline, v, w - 1);
      TotalFeeStep(fee, consumed, baseline, w - 1);
      if GentleFill(fee, w) {
        SmallerFillsAreGentle(fee, w - 1, w);
      }
    }
  }

  /** What the treasury keeps may fall, but up to a gentle fill it never rises by more than the fill does. */
  lemma RetainedFeeGrowth(fee: FeeConfig, consumed: nat, baseline: nat, v: nat, w: nat)
    requires ValidFee(fee) && v <= w && consumed + w <= baseline
    ensures GentleFill(fee, w) ==>
      RetainedFee(fee, consumed, baseline, w) <= RetainedFee(fee, consumed, baseline, v) + (w - v)
    ensures fee.solverFeeBps == fee.protocolFeeBps == 0 ==>
              RetainedFee(fee, consumed, baseline, v) <= RetainedFee(fee, consumed, baseline, w)
  {
    hide TotalFee, GentleFill;
    TotalFeeGrowth(fee, consumed, baseline, v, w);
    ExternalFeeMono(fee, v, w);
    if fee.solverFeeBps == fee.protocolFeeBps == 0 {
      assert BaseFee(fee, v) * 0 == 0 && BaseFee(fee, w) * 0 == 0;
    }
  }

  // ----- Exactly when one more unit costs at most one

  /** How far a charge is short of a whole number of fee units. */
  function Residue(charge: int): nat {
    (RATE_SCALE - charge % RATE_SCALE) % RATE_SCALE
  }

  lemma ResidueFillsUnit(charge: nat)
    ensures CeilDiv(charge, RATE_SCALE) * RATE_SCALE == charge + Residue(charge)
  {
  }

  /**
   The step of the rate over the whole fill and the rate of the new unit fit in one fee unit and the fill's
   residue.
   */
  ghost predicate StepFits(fee: FeeConfig, consumed: nat, baseline: nat, v: nat)
    requires ValidFee(fee) && consumed + v + 1 <= baseline
  {
    var f, f' := FillRate(fee, consumed, baseline, v), FillRate(fee, consumed, baseline, v + 1);
    v * (f' - f) + f' <= RATE_SCALE + Residue(v * f)
  }

  lemma TotalFeeStepIff(fee: FeeConfig, consumed: nat, baseline: nat, v: nat)
    requires ValidFee(fee) && consumed + v + 1 <= baseline
    ensures TotalFee(fee, consumed, baseline, v + 1) <= TotalFee(fee, consumed, baseline, v) + 1
       <==> StepFits(fee, consumed, baseline, v)
  {
    var f, f' := FillRate(fee, consumed, baseline, v), FillRate(fee, consumed, baseline, v + 1);
    hide FillRate, CeilDiv, Residue;
    var m, n := v * f, (v + 1) * f';
    ResidueFillsUnit(m);
    CeilDivLe(n, RATE_SCALE, CeilDiv(m, RATE_SCALE) + 1);
    SplitProduct(v, f, f');
  }

  lemma SplitProduct(v: nat, f: int, f': int)
    ensures (v + 1) * f' == v * f + v * (f' - f) + f'
  {
  }

  ghost predicate IsLipschitz(fee: FeeConfig, consumed: nat, baseline: nat, top: nat)
    requires ValidFee(fee) && consumed + top <= baseline
  {
    forall v: nat, w: nat ::
      v <= w <= top ==> TotalFee(fee, consumed, baseline, w) <= TotalFee(fee, consumed, baseline, v) + (w - v)
  }

  /** The fee is 1-Lipschitz up to `top` exactly when every step on the way fits. */
  lemma LipschitzIff(fee: FeeConfig, consumed: nat, baseline: nat, top: nat)
    requires ValidFee(fee) && consumed + top <= baseline
    ensures IsLipschitz(fee, consumed, baseline, top)
      <==> forall v: nat :: v < top ==> StepFits(fee, consumed, baseline, v)
  {
    hide TotalFee, StepFits;
    if IsLipschitz(fee, consumed, baseline, top) {
      forall v: nat | v < top
        ensures StepFits(fee, consumed, baseline, v)
      {
        TotalFeeStepIff(fee, consumed, baseline, v);
        assert TotalFee(fee, consumed, baseline, v + 1) <= TotalFee(fee, consumed, baseline, v) + (v + 1 - v);
      }
    }
    if forall v: nat :: v < top ==> StepFits(fee, consumed, baseline, v) {
      forall v: nat, w: nat | v <= w <= top
        ensures TotalFee(fee, consumed, baseline, w) <= TotalFee(fee, consumed, baseline, v) + (w - v)
      {
        StepsAddUp(fee, consumed, baseline, v, w);
      }
    }
  }

  lemma {:induction false} StepsAddUp(fee: FeeConfig, consumed: nat, baseline: nat, v: nat, w: nat)
    requires ValidFee(fee) && v <= w && consumed + w <= baseline
    requires forall u: nat :: u < w ==> StepFits(fee, consumed, baseline, u)
    ensures TotalFee(fee, consumed, baseline, w) <= TotalFee(fee, consumed, baseline, v) + (w - v)
    decreases w - v
  {
    hide TotalFee, StepFits;
    if v < w {
      StepsAddUp(fee, consumed, baseline, v, w - 1);
      TotalFeeStepIff(fee, consumed, baseline, w - 1);
    }
  }

  // ----- Fills that are not gentle

  /** One percent, all of it slope. */
  const STEEP_FEE := FeeConfig(0, 100, 100, 0, 0, 0)

  const WIDE_BASELINE: nat := 100_000_000_000_000_000_000_000_000_000_000_000_000
  const WIDE_CONSUMED: nat := 99_739_827_476_705_969_600_952_336_302_220_565_888
  const LARGE_FILL: nat := 99_047_663_697_779_434_111

  /** One more unit raises the fee of a fill by two, inside a representable epoch. */
  ghost predicate JumpsByTwo(fee: FeeConfig, consumed: nat, baseline: nat, v: nat) {
    && ValidFee(fee) && InEpoch(consumed, baseline, v + 1) && !GentleFill(fee, v)
    && TotalFee(fee, consumed, baseline, v + 1) == TotalFee(fee, consumed, baseline, v) + 2
  }

  /** A fill 0.05% above the 99 * 10^18 that are gentle for every configuration. */
  lemma LargeFillJumps()
    ensures LARGE_FILL < 99_048 * 1_000_000_000_000_000
    ensures JumpsByTwo(STEEP_FEE, WIDE_CONSUMED, WIDE_BASELINE, LARGE_FILL)
  {
    hide TotalFee, SteepFeeIs, InEpoch, GentleFill, JumpsByTwo;
    LargeFillFees();
    LargeFillIsOrderly();
    JumpFromFees(WIDE_CONSUMED, WIDE_BASELINE, LARGE_FILL, 985_329_445_370_457_620);
  }

  lemma JumpFromFees(consumed: nat, baseline: nat, v: nat, amount: nat)
    requires InEpoch(consumed, baseline, v + 1) && !GentleFill(STEEP_FEE, v)
    requires SteepFeeIs(consumed, baseline, v, amount) && SteepFeeIs(consumed, baseline, v + 1, amount + 2)
    ensures JumpsByTwo(STEEP_FEE, consumed, baseline, v)
  {
    hide TotalFee, GentleFill, Representable;
  }

  lemma LargeFillIsOrderly()
    ensures InEpoch(WIDE_CONSUMED, WIDE_BASELINE, LARGE_FILL + 1) && !GentleFill(STEEP_FEE, LARGE_FILL)
  {
  }

  lemma LargeFillFees()
    ensures SteepFeeIs(WIDE_CONSUMED, WIDE_BASELINE, LARGE_FILL, 985_329_445_370_457_620)
    ensures SteepFeeIs(WIDE_CONSUMED, WIDE_BASELINE, LARGE_FILL + 1, 985_329_445_370_457_622)
  {
    hide SteepFeeIs;
    var u, u': nat := 997_398_274_767_059_696, 997_398_274_767_059_697;
    SteepFee(WIDE_CONSUMED, WIDE_BASELINE, LARGE_FILL, u, u, 99_480_331_850_830_711_028, 985_329_445_370_457_620);
    SteepFee(WIDE_CONSUMED, WIDE_BASELINE, LARGE_FILL + 1, u, u', 99_480_331_850_830_711_128, 985_329_445_370_457_622);
  }

  predicate IsFloor(n: nat, d: nat, q: nat) {
    0 < d && q * d <= n < (q + 1) * d
  }

  predicate IsCeil(n: nat, d: nat, q: nat) {
    0 < d && (q - 1) * d < n <= q * d
  }

  lemma FloorIs(n: nat, d: nat, q: nat)
    requires IsFloor(n, d, q)
    ensures 0 < d && FloorDiv(n, d) == q
  {
    FloorDivGe(n, d, q);
    FloorDivGe(n, d, q + 1);
  }

  lemma CeilIs(n: nat, d: nat, q: nat)
    requires IsCeil(n, d, q)
    ensures 0 < d && CeilDiv(n, d) == q
  {
    CeilDivLe(n, d, q);
    CeilDivLe(n, d, q - 1);
  }

  lemma UtilizationIs(consumed: nat, baseline: nat, u: nat)
    requires consumed <= baseline && IsFloor(consumed * FIXED_POINT_SCALE, baseline, u)
    ensures Utilization(consumed, baseline) == u
  {
    hide FloorDiv;
    FloorIs(consumed * FIXED_POINT_SCALE, baseline, u);
  }

  lemma SteepRate(u0: nat, u1: nat, rate: nat)
    requires IsCeil(100 * QuadraticSum(u0, u1), 3 * FIXED_POINT_SCALE, rate)
    ensures Rate(0, 100, u0, u1) == rate
  {
    hide CeilDiv, IsCeil, QuadraticSum;
    CeilIs(100 * QuadraticSum(u0, u1), 3 * FIXED_POINT_SCALE, rate);
  }

  ghost predicate SteepRateIs(consumed: nat, baseline: nat, v: nat, rate: nat) {
    consumed + v <= baseline && FillRate(STEEP_FEE, consumed, baseline, v) == rate
  }

  ghost predicate SteepFeeIs(consumed: nat, baseline: nat, v: nat, amount: nat) {
    consumed + v <= baseline && TotalFee(STEEP_FEE, consumed, baseline, v) == amount
  }

  lemma SteepFillRate(consumed: nat, baseline: nat, v: nat, u0: nat, u1: nat, rate: nat)
    requires consumed + v <= baseline
    requires IsFloor(consumed * FIXED_POINT_SCALE, baseline, u0)
      && IsFloor((consumed + v) * FIXED_POINT_SCALE, baseline, u1)
    requires IsCeil(100 * QuadraticSum(u0, u1), 3 * FIXED_POINT_SCALE, rate)
    ensures SteepRateIs(consumed, baseline, v, rate)
  {
    hide Utilization, Rate, QuadraticSum, IsFloor, IsCeil;
    UtilizationIs(consumed, baseline, u0);
    UtilizationIs(consumed + v, baseline, u1);
    SteepRate(u0, u1, rate);
  }

  lemma SteepAmount(consumed: nat, baseline: nat, v: nat, rate: nat, product: nat, amount: nat)
    requires SteepRateIs(consumed, baseline, v, rate) && product == v * rate && IsCeil(product, RATE_SCALE, amount)
    ensures SteepFeeIs(consumed, baseline, v, amount)
  {
    hide FillRate, CeilDiv, IsCeil;
    CeilIs(product, RATE_SCALE, amount);
  }

  /** The steep fee of a fill from its two utilizations and its rate. */
  lemma SteepFee(consumed: nat, baseline: nat, v: nat, u0: nat, u1: nat, rate: nat, amount: nat)
    requires consumed + v <= baseline
    requires IsFloor(consumed * FIXED_POINT_SCALE, baseline, u0)
      && IsFloor((consumed + v) * FIXED_POINT_SCALE, baseline, u1)
    requires IsCeil(100 * QuadraticSum(u0, u1), 3 * FIXED_POINT_SCALE, rate) && IsCeil(v * rate, RATE_SCALE, amount)
    ensures SteepFeeIs(consumed, baseline, v, amount)
  {
    hide SteepRateIs, SteepFeeIs, QuadraticSum, IsFloor, IsCeil;
    SteepFillRate(consumed, baseline, v, u0, u1, rate);
    SteepAmount(consumed, baseline, v, rate, v * rate, amount);
  }
}
