/**
 The fee-inclusive direct settlement
 (packages/shared/src/settlement.ts:90-325, packages/shared/src/financial.ts:573-628).

 A `Market` gathers what one search keeps fixed.  A probe of the search is a checked computation;
 the source catches its exceptions and treats them as a refusal.
 */
module Settlement {
  import opened Uint256
  import opened Wrappers
  import opened Portfolios
  import opened Constraints
  import opened Fees
  import opened FeeGrowth
  import Search
  import Weights

  datatype Market = Market(
    portfolio: Portfolio, policy: Policy, fee: FeeConfig, input: Token, output: Token, consumed: nat, baseline: nat)

  /** The trader pays v and receives v less the fee; solver and protocol shares also leave the treasury. */
  function ApplyFeeInclusiveTrade(p: Portfolio, input: Token, output: Token, tradeValue: int,
    fees: FeeDistribution): Checked<Portfolio>
  {
    var value :- ToUint256(tradeValue);
    if value == 0 then Ok(p)
    else if input == output then Err(SameAsset) else
    var i :- AssetIndex(p.assets, input);
    var o :- AssetIndex(p.assets, output);
    var external :- CheckedAdd(fees.solverAmount, fees.protocolAmount);
    if fees.totalFeeAmount > value || external > value then Err(FeeExceedsOutput) else
    var leaving :- CheckedAdd(value - fees.totalFeeAmount, external);
    var received :- CheckedAdd(p.assets[i].value, value);
    var remaining :- CheckedSub(p.assets[o].value, leaving);
    var updated := MoveValues(p.assets, i, o, received, remaining);
    var nav :- CheckedSum(0, updated);
    if nav == 0 then Err(ZeroNav) else Ok(Portfolio(p.valueDecimals, nav, Reweigh(updated, nav)))
  }

  ghost function FeesAt(m: Market, v: nat): Checked<FeeDistribution> {
    FeeFor(v, m.fee, m.consumed, m.consumed + v, m.baseline)
  }

  ghost function PostTrade(m: Market, v: nat): Checked<Portfolio> {
    var fees :- FeesAt(m, v);
    ApplyFeeInclusiveTrade(m.portfolio, m.input, m.output, v, fees)
  }

  ghost function Probe(m: Market, v: nat): Checked<Evaluation> {
    var post :- PostTrade(m, v);
    Evaluate(post, m.policy, v)
  }

  ghost predicate Accepts(m: Market, v: nat) {
    Probe(m, v).Ok? && Probe(m, v).value.safe
  }

  ghost function AcceptsPredicate(m: Market): nat -> bool {
    (v: nat) => Accepts(m, v)
  }

  /** The body of the source's try block and its catch. */
  method TryFill(m: Market, v: nat) returns (accepted: bool)
    ensures accepted <==> Accepts(m, v)
  {
    hide FeeFor, ApplyFeeInclusiveTrade, Evaluate;
    var fees := FeeFor(v, m.fee, m.consumed, m.consumed + v, m.baseline);
    if fees.Err? {
      return false;
    }
    var post := ApplyFeeInclusiveTrade(m.portfolio, m.input, m.output, v, fees.value);
    if post.Err? {
      return false;
    }
    var evaluation := EvaluateConstraints(post.value, m.policy, v);
    return evaluation.Ok? && evaluation.value.safe;
  }

  method SearchFill(m: Market, top: nat) returns (fill: nat)
    ensures fill == Search.Bisect(AcceptsPredicate(m), 0, top)
  {
    hide Accepts, Search.Bisect;
    ghost var accepts := AcceptsPredicate(m);
    var low: nat, high: nat := 0, top;
    while low < high
      invariant low <= high <= top
      invariant Search.Bisect(accepts, low, high) == Search.Bisect(accepts, 0, top)
    {
      var mid: nat := low + (high - low + 1) / 2;
      Search.BisectStep(accepts, low, high);
      assert mid == (low + high + 1) / 2;
      var accepted := TryFill(m, mid);
      if accepted {
        low := mid;
      } else {
        high := mid - 1;
      }
    }
    Search.BisectDone(accepts, low);
    return low;
  }

  // ----- The shape of a fee-inclusive trade

  ghost function ValueAfter(p: Portfolio, i: nat, o: nat, v: nat, kept: int, k: nat): int
    requires k < |p.assets|
  {
    if k == i then p.assets[k].value + v
    else if k == o then p.assets[k].value - v + kept
    else p.assets[k].value
  }

  /** NAV grows by exactly the retained fee; only the two traded values change. */
  ghost predicate IsFeeTrade(p: Portfolio, post: Portfolio, i: nat, o: nat, v: nat, kept: int) {
    && |post.assets| == |p.assets| && post.valueDecimals == p.valueDecimals
    && post.nav == SumValues(p.assets) + kept
    && 0 < post.nav == SumValues(post.assets) <= UINT256_MAX
    && forall k :: 0 <= k < |p.assets| ==>
         && post.assets[k] == p.assets[k].(value := post.assets[k].value, weightBps := post.assets[k].weightBps)
         && post.assets[k].value == ValueAfter(p, i, o, v, kept, k)
         && post.assets[k].weightBps == Weights.WeightUp(post.assets[k].value, post.nav)
  }

  lemma FeeTradeShape(p: Portfolio, input: Token, output: Token, v: nat, fees: FeeDistribution)
    requires 0 < v && ApplyFeeInclusiveTrade(p, input, output, v, fees).Ok?
    ensures input != output && AssetIndex(p.assets, input).Ok? && AssetIndex(p.assets, output).Ok?
    ensures fees.totalFeeAmount <= v
    ensures IsFeeTrade(p, ApplyFeeInclusiveTrade(p, input, output, v, fees).value,
              AssetIndex(p.assets, input).value, AssetIndex(p.assets, output).value, v,
              fees.totalFeeAmount - fees.solverAmount - fees.protocolAmount)
  {
    hide SumValues, AssetIndex, CheckedSum, Reweigh, MoveValues;
    var i, o := AssetIndex(p.assets, input).value, AssetIndex(p.assets, output).value;
    var leaving := v - fees.totalFeeAmount + (fees.solverAmount + fees.protocolAmount);
    var received: nat, remaining: nat := p.assets[i].value + v, p.assets[o].value - leaving;
    var updated := MoveValues(p.assets, i, o, received, remaining);
    SumAfterMove(p.assets, i, o, received, remaining);
    var post := ApplyFeeInclusiveTrade(p, input, output, v, fees).value;
    assert post == Portfolio(p.valueDecimals, SumValues(updated), Reweigh(updated, SumValues(updated)));
    SumDependsOnValues(updated, post.assets);
  }

  /**
   A fee-inclusive trade succeeds exactly for no value at all, or for two assets of the portfolio, fees within the
   value, and balances and NAV that stay in range.
   */
  lemma FeeTradeIff(p: Portfolio, input: Token, output: Token, v: int, fees: FeeDistribution)
    ensures ApplyFeeInclusiveTrade(p, input, output, v, fees).Ok? <==>
              0 <= v <= UINT256_MAX
              && (0 < v ==>
                    && input != output && AssetIndex(p.assets, input).Ok? && AssetIndex(p.assets, output).Ok?
                    && fees.totalFeeAmount <= v && fees.solverAmount + fees.protocolAmount <= v
                    && FeeTradeFits(p, AssetIndex(p.assets, input).value, AssetIndex(p.assets, output).value, v,
                         fees.totalFeeAmount, fees.solverAmount + fees.protocolAmount))
  {
    hide SumValues, AssetIndex, CheckedSum, Reweigh, MoveValues;
    if 0 < v && input != output && AssetIndex(p.assets, input).Ok? && AssetIndex(p.assets, output).Ok?
       && fees.totalFeeAmount <= v {
      var i, o := AssetIndex(p.assets, input).value, AssetIndex(p.assets, output).value;
      var leaving: nat := v - fees.totalFeeAmount + (fees.solverAmount + fees.protocolAmount);
      if leaving <= p.assets[o].value {
        SumAfterMove(p.assets, i, o, p.assets[i].value + v, p.assets[o].value - leaving);
      }
    }
  }

  /** What leaves is covered by the output balance, the input balance has room, and NAV stays positive and fits. */
  ghost predicate FeeTradeFits(p: Portfolio, i: nat, o: nat, v: nat, total: nat, external: nat)
    requires i < |p.assets| && o < |p.assets|
  {
    && v - total + external <= p.assets[o].value && v - total + external <= UINT256_MAX
    && p.assets[i].value + v <= UINT256_MAX
    && 0 < SumValues(p.assets) + total - external <= UINT256_MAX
  }

  lemma FeeTradeSucceeds(p: Portfolio, input: Token, output: Token, v: nat, fees: FeeDistribution)
    requires WellFormed(p) && input != output && AssetIndex(p.assets, input).Ok? && AssetIndex(p.assets, output).Ok?
    requires v <= p.assets[AssetIndex(p.assets, output).value].value
    requires fees.solverAmount + fees.protocolAmount <= fees.totalFeeAmount <= v
    requires p.nav + fees.totalFeeAmount <= UINT256_MAX
    ensures ApplyFeeInclusiveTrade(p, input, output, v, fees).Ok?
  {
    hide SumValues, AssetIndex, CheckedSum, Reweigh, MoveValues, DistinctTokens;
    if v > 0 {
      var i, o := AssetIndex(p.assets, input).value, AssetIndex(p.assets, output).value;
      TwoValuesWithinSum(p.assets, i, o);
      var leaving: nat := v - fees.totalFeeAmount + (fees.solverAmount + fees.protocolAmount);
      var received: nat, remaining: nat := p.assets[i].value + v, p.assets[o].value - leaving;
      SumAfterMove(p.assets, i, o, received, remaining);
      ValueWithinSum(MoveValues(p.assets, i, o, received, remaining), i);
    }
  }

  lemma FeeTradeKeepsWellFormed(p: Portfolio, post: Portfolio, i: nat, o: nat, v: nat, kept: int)
    requires WellFormed(p) && IsFeeTrade(p, post, i, o, v, kept)
    ensures WellFormed(post) && post.nav == p.nav + kept
  {
    hide SumValues;
    forall j, k | 0 <= j < k < |post.assets|
      ensures post.assets[j].token != post.assets[k].token
    {
      assert p.assets[j].token != p.assets[k].token;
    }
  }

  // ----- What a probe decides

  ghost predicate Ready(m: Market) {
    && WellFormed(m.portfolio) && ValidPolicy(m.policy) && Covers(m.policy, m.portfolio.assets) && ValidFee(m.fee)
    && m.input != m.output && AssetIndex(m.portfolio.assets, m.input).Ok?
    && AssetIndex(m.portfolio.assets, m.output).Ok?
    && m.consumed <= m.baseline && Representable(m.baseline)
  }

  /** Up to `top` no checked operation can fail: capacity and balance suffice and NAV has room for the fee. */
  ghost predicate Settleable(m: Market, top: nat) {
    && Ready(m)
    && m.consumed + top <= m.baseline
    && top <= m.portfolio.assets[AssetIndex(m.portfolio.assets, m.output).value].value
    && m.portfolio.nav + CeilDiv(top, 100) <= UINT256_MAX
  }

  ghost function Kept(m: Market, v: nat): int
    requires Ready(m) && m.consumed + v <= m.baseline
  {
    RetainedFee(m.fee, m.consumed, m.baseline, v)
  }

  /** The exact rational inequalities one asset must meet after a fill of v. */
  ghost predicate AssetHolds(m: Market, v: nat, k: nat)
    requires Ready(m) && m.consumed + v <= m.baseline && k < |m.portfolio.assets|
  {
    var p := m.portfolio;
    var value := ValueAfter(p, AssetIndex(p.assets, m.input).value, AssetIndex(p.assets, m.output).value, v,
      Kept(m, v), k);
    && 0 <= value && 0 <= p.nav + Kept(m, v)
    && WithinRange(value, p.nav + Kept(m, v), PolicyBounds(m.policy, p.assets[k].token).value)
  }

  lemma KeptBounds(m: Market, v: nat)
    requires Ready(m) && m.consumed + v <= m.baseline
    ensures 0 <= Kept(m, v) <= CeilDiv(v, 100) <= v
  {
    hide TotalFee, CeilDiv;
    TotalFeeBound(m.fee, m.consumed, m.baseline, v);
    RetainedFeeBounds(m.fee, m.consumed, m.baseline, v);
  }

  lemma TradeAtSucceeds(m: Market, top: nat, v: nat)
    requires Settleable(m, top) && v <= top
    ensures PostTrade(m, v).Ok? && FeesAt(m, v).Ok?
    ensures v == 0 ==> PostTrade(m, v).value == m.portfolio
    ensures 0 < v ==> IsFeeTrade(m.portfolio, PostTrade(m, v).value,
              AssetIndex(m.portfolio.assets, m.input).value, AssetIndex(m.portfolio.assets, m.output).value,
              v, Kept(m, v))
  {
    hide FeeFor, ApplyFeeInclusiveTrade, TotalFee, ExternalFee, WellFormed, IsFeeTrade, CeilDiv, ValidPolicy,
      ValidFee, AssetIndex;
    FeeForInEpoch(m.fee, m.consumed, m.baseline, v);
    TotalFeeBound(m.fee, m.consumed, m.baseline, v);
    RetainedFeeBounds(m.fee, m.consumed, m.baseline, v);
    CeilDivMono(v, top, 100);
    var fees := FeesAt(m, v).value;
    FeeTradeSucceeds(m.portfolio, m.input, m.output, v, fees);
    if v == 0 {
      ZeroTrade(m.portfolio, m.input, m.output, fees);
    } else {
      DistributionIdentity(m, v);
      FeeTradeShape(m.portfolio, m.input, m.output, v, fees);
    }
  }

  lemma ZeroTrade(p: Portfolio, input: Token, output: Token, fees: FeeDistribution)
    ensures ApplyFeeInclusiveTrade(p, input, output, 0, fees) == Ok(p)
  {
  }

  lemma DistributionIdentity(m: Market, v: nat)
    requires FeesAt(m, v).Ok?
    ensures SatisfiesQuoteSchema(FeesAt(m, v).value)
  {
    hide DistributeFees, CalculateUtilization;
    var u0 := CalculateUtilization(m.consumed, m.baseline).value;
    var u1 := CalculateUtilization(m.consumed + v, m.baseline).value;
    DistributionSatisfiesQuoteSchema(v, m.fee, u0, u1);
  }

  /** A probe in range never throws, and accepts exactly the fills whose exact weights are in range. */
  lemma ProbeIff(m: Market, top: nat, v: nat)
    requires Settleable(m, top) && v <= top
    ensures Probe(m, v).Ok?
    ensures Accepts(m, v) <==>
              v <= m.policy.maximumTransactionValue && forall k :: 0 <= k < |m.portfolio.assets| ==> AssetHolds(m, v, k)
  {
    hide FeesAt, PostTrade, Evaluate, RetainedFee, ValidPolicy, ValidFee, AssetIndex, CeilDiv, SumValues,
      PolicyBounds, DistinctTokens;
    TradeAtSucceeds(m, top, v);
    KeptBounds(m, v);
    var p, post := m.portfolio, PostTrade(m, v).value;
    ValueWithinSum(p.assets, AssetIndex(p.assets, m.output).value);
    CoversDependsOnTokens(m.policy, post.assets, p.assets);
    EvaluateIff(post, m.policy, v);
    forall k | 0 <= k < |p.assets|
      ensures AssetSafe(post.assets[k], post.nav, m.policy) <==> AssetHolds(m, v, k)
    {
    }
  }

  /** Whenever a fill trades, its evaluation is decided by the exact inequalities. */
  lemma EvaluatedTradeIff(m: Market, post: Portfolio, v: nat)
    requires Ready(m) && m.consumed + v <= m.baseline && v <= UINT256_MAX
    requires IsFeeTrade(m.portfolio, post, AssetIndex(m.portfolio.assets, m.input).value,
      AssetIndex(m.portfolio.assets, m.output).value, v, Kept(m, v))
    ensures Evaluate(post, m.policy, v).Ok? && (Evaluate(post, m.policy, v).value.safe <==> FillHolds(m, v))
  {
    hide FeesAt, PostTrade, Evaluate, RetainedFee, ValidPolicy, ValidFee, AssetIndex, CeilDiv, SumValues,
      PolicyBounds, DistinctTokens;
    var p := m.portfolio;
    CoversDependsOnTokens(m.policy, post.assets, p.assets);
    EvaluateIff(post, m.policy, v);
    forall k | 0 <= k < |p.assets|
      ensures AssetSafe(post.assets[k], post.nav, m.policy) <==> AssetHolds(m, v, k)
    {
    }
  }

  // ----- When the search finds the greatest fill

  /** No third asset's minimum can be crossed by fee growth of NAV: vacuous for two assets and for zero minimums. */
  ghost predicate UntouchedRoom(m: Market, top: nat)
    requires Ready(m)
  {
    var p := m.portfolio;
    forall k :: 0 <= k < |p.assets| && p.assets[k].token != m.input && p.assets[k].token != m.output ==>
      PolicyBounds(m.policy, p.assets[k].token).value.minimum * (p.nav + CeilDiv(top, 100))
        <= BASIS_POINTS * p.assets[k].value
  }

  ghost predicate NoExternalShares(fee: FeeConfig) {
    fee.solverFeeBps == 0 && fee.protocolFeeBps == 0
  }

  /** A weight range met before the trade and after a fill of w is met after every smaller fill v. */
  lemma InputHoldsBelow(value: nat, nav: nat, range: Range, v: nat, w: nat, tv: nat, tw: nat)
    requires WithinRange(value, nav, range) && WithinRange(value + w, nav + tw, range)
    requires v <= w && tv <= v && tw <= tv + (w - v) && range.minimum <= BASIS_POINTS && range.maximum <= BASIS_POINTS
    ensures WithinRange(value + v, nav + tv, range)
  {
    MulMono(range.minimum, BASIS_POINTS, tv);
    MulMono(nav + tw, nav + tv + (w - v), range.maximum);
    MulMono(range.maximum, BASIS_POINTS, w - v);
    assert range.maximum * (nav + tv + (w - v)) == range.maximum * (nav + tv) + range.maximum * (w - v);
    assert range.minimum * (nav + tv) == range.minimum * nav + range.minimum * tv;
  }

  lemma OutputHoldsBelow(value: nat, nav: nat, range: Range, v: nat, w: nat, tv: nat, tw: nat)
    requires w <= value
    requires WithinRange(value, nav, range) && WithinRange(value - w + tw, nav + tw, range)
    requires v <= w && tv <= v && tw <= tv + (w - v) && range.minimum <= BASIS_POINTS && range.maximum <= BASIS_POINTS
    ensures WithinRange(value - v + tv, nav + tv, range)
  {
    var min, max := range.minimum, range.maximum;
    assert min * (nav + tw) == min * nav + min * tw && min * (nav + tv) == min * nav + min * tv;
    assert max * (nav + tv) == max * nav + max * tv;
    MulMono(tw, tv + (w - v), BASIS_POINTS - min);
    assert (BASIS_POINTS - min) * tw == BASIS_POINTS * tw - min * tw;
    assert (BASIS_POINTS - min) * (tv + (w - v)) == BASIS_POINTS * (tv + (w - v)) - min * tv - min * (w - v);
    assert 0 <= min * (w - v) && 0 <= max * tv;
  }

  lemma UntouchedHoldsBelow(value: nat, nav: nat, range: Range, tv: nat, tw: nat)
    requires WithinRange(value, nav, range) && WithinRange(value, nav + tw, range)
    requires range.minimum * (nav + tv) <= BASIS_POINTS * value
    ensures WithinRange(value, nav + tv, range)
  {
    MulMono(nav, nav + tv, range.maximum);
  }

  /** An asset outside the traded pair keeps its minimum although the retained fee raises NAV. */
  ghost predicate UntouchedMinimumHolds(m: Market, v: nat, k: nat)
    requires Ready(m) && m.consumed + v <= m.baseline && k < |m.portfolio.assets|
  {
    var p := m.portfolio;
    p.assets[k].token != m.input && p.assets[k].token != m.output ==>
      PolicyBounds(m.policy, p.assets[k].token).value.minimum * (p.nav + Kept(m, v)) <= BASIS_POINTS * p.assets[k].value
  }

  /** Smaller fills can lose only the minimum of an untouched asset. */
  lemma HoldsBelow(m: Market, top: nat, v: nat, w: nat, k: nat)
    requires Settleable(m, top) && GentleFill(m.fee, w) && v <= w <= top && k < |m.portfolio.assets|
    requires AssetSafe(m.portfolio.assets[k], m.portfolio.nav, m.policy)
    requires AssetHolds(m, w, k) && UntouchedMinimumHolds(m, v, k)
    ensures AssetHolds(m, v, k)
  {
    hide RetainedFee, FeesAt, ValidPolicy, AssetIndex, SumValues, DistinctTokens, CeilDiv, PolicyBounds, Covers,
      WithinRange;
    var p := m.portfolio;
    KeptBounds(m, v);
    KeptBounds(m, w);
    RetainedFeeGrowth(m.fee, m.consumed, m.baseline, v, w);
    var range := PolicyBounds(m.policy, p.assets[k].token).value;
    RangeIsBps(m.policy, p.assets[k].token);
    if k == AssetIndex(p.assets, m.input).value {
      InputHoldsBelow(p.assets[k].value, p.nav, range, v, w, Kept(m, v), Kept(m, w));
    } else if k == AssetIndex(p.assets, m.output).value {
      OutputHoldsBelow(p.assets[k].value, p.nav, range, v, w, Kept(m, v), Kept(m, w));
    } else {
      OnlyIndex(p, AssetIndex(p.assets, m.input).value, k);
      OnlyIndex(p, AssetIndex(p.assets, m.output).value, k);
      UntouchedHoldsBelow(p.assets[k].value, p.nav, range, Kept(m, v), Kept(m, w));
    }
  }

  /** Room for the largest fee, or a fee kept whole, protects every untouched minimum below an accepted fill. */
  lemma UntouchedMinimumBelow(m: Market, top: nat, v: nat, w: nat, k: nat)
    requires Settleable(m, top) && v <= w <= top && k < |m.portfolio.assets| && AssetHolds(m, w, k)
    requires UntouchedRoom(m, top) || NoExternalShares(m.fee)
    ensures UntouchedMinimumHolds(m, v, k)
  {
    hide RetainedFee, FeesAt, ValidPolicy, AssetIndex, SumValues, DistinctTokens, CeilDiv, PolicyBounds;
    KeptBounds(m, v);
    CeilDivMono(v, top, 100);
    RetainedFeeGrowth(m.fee, m.consumed, m.baseline, v, w);
    var p := m.portfolio;
    var minimum := PolicyBounds(m.policy, p.assets[k].token).value.minimum;
    if p.assets[k].token != m.input && p.assets[k].token != m.output {
      MulMono(p.nav + Kept(m, v), p.nav + (if NoExternalShares(m.fee) then Kept(m, w) else CeilDiv(top, 100)), minimum);
    }
  }

  lemma RangeIsBps(policy: Policy, token: Token)
    requires PolicyBounds(policy, token).Ok?
    ensures PolicyBounds(policy, token).value.minimum <= BASIS_POINTS
      && PolicyBounds(policy, token).value.maximum <= BASIS_POINTS
  {
  }

  lemma OnlyIndex(p: Portfolio, i: nat, k: nat)
    requires DistinctTokens(p.assets) && i < |p.assets| && k < |p.assets| && i != k
    ensures p.assets[i].token != p.assets[k].token
  {
  }

  /** The cap and every asset's exact range, as inequalities between numbers of the market. */
  ghost predicate FillHolds(m: Market, v: nat)
    requires Ready(m) && m.consumed + v <= m.baseline
  {
    v <= m.policy.maximumTransactionValue && forall k :: 0 <= k < |m.portfolio.assets| ==> AssetHolds(m, v, k)
  }

  /** No fill's retained fee crosses an untouched minimum below a fill whose inequalities hold. */
  ghost predicate UntouchedMinimumsHoldBelow(m: Market, top: nat)
    requires Settleable(m, top)
  {
    forall v: nat, w: nat, k: nat ::
      v < w <= top && k < |m.portfolio.assets| && FillHolds(m, w) ==> UntouchedMinimumHolds(m, v, k)
  }

  /** Acceptance is lost below an accepted fill exactly when the fee there crosses an untouched minimum. */
  lemma DownwardClosedIff(m: Market, top: nat)
    requires Settleable(m, top) && GentleFill(m.fee, top) && WeightsSafe(m.portfolio, m.policy)
    ensures Accepts(m, 0)
    ensures Search.DownwardClosed(AcceptsPredicate(m), top) <==> UntouchedMinimumsHoldBelow(m, top)
  {
    hide Probe, Ready, AssetSafe, Accepts, FillHolds, GentleFill;
    AcceptsNothing(m, top);
    if UntouchedMinimumsHoldBelow(m, top) {
      forall u: nat, w: nat | u < w <= top && Accepts(m, w)
        ensures Accepts(m, u)
      {
        AcceptsIff(m, top, w);
        AcceptedBelow(m, top, u, w);
      }
    }
    if Search.DownwardClosed(AcceptsPredicate(m), top) {
      forall v: nat, w: nat, k: nat | v < w <= top && k < |m.portfolio.assets| && FillHolds(m, w)
        ensures UntouchedMinimumHolds(m, v, k)
      {
        AcceptsIff(m, top, w);
        assert AcceptsPredicate(m)(w) && AcceptsPredicate(m)(v);
        ProbeIff(m, top, v);
        HoldsKeepsMinimum(m, v, k);
      }
    }
  }

  lemma AcceptsIff(m: Market, top: nat, v: nat)
    requires Settleable(m, top) && v <= top
    ensures Accepts(m, v) <==> FillHolds(m, v)
  {
    hide Ready, Accepts, AssetHolds;
    ProbeIff(m, top, v);
  }

  lemma ReadyFee(m: Market)
    requires Ready(m)
    ensures ValidFee(m.fee)
  {
  }

  lemma AcceptedBelow(m: Market, top: nat, u: nat, w: nat)
    requires Settleable(m, top) && GentleFill(m.fee, top) && WeightsSafe(m.portfolio, m.policy) && u < w <= top
      && Accepts(m, w)
    requires forall k: nat :: k < |m.portfolio.assets| ==> UntouchedMinimumHolds(m, u, k)
    ensures Accepts(m, u)
  {
    hide AssetHolds, Probe, Ready, AssetSafe, UntouchedMinimumHolds, Accepts;
    ProbeIff(m, top, w);
    ProbeIff(m, top, u);
    ReadyFee(m);
    SmallerFillsAreGentle(m.fee, w, top);
    forall k | 0 <= k < |m.portfolio.assets|
      ensures AssetHolds(m, u, k)
    {
      HoldsBelow(m, top, u, w, k);
    }
  }

  lemma HoldsKeepsMinimum(m: Market, v: nat, k: nat)
    requires Ready(m) && m.consumed + v <= m.baseline && k < |m.portfolio.assets| && AssetHolds(m, v, k)
    ensures UntouchedMinimumHolds(m, v, k)
  {
    hide RetainedFee, PolicyBounds, ValidPolicy, SumValues, DistinctTokens;
  }

  /**
   From a safe portfolio, every request up to `top` is answered with the greatest acceptable fill
   exactly when no smaller fill's retained fee crosses an untouched minimum that a larger one meets.
   */
  lemma GreatestForEveryRequestIff(m: Market, top: nat)
    requires Settleable(m, top) && GentleFill(m.fee, top) && WeightsSafe(m.portfolio, m.policy)
    ensures (forall q: nat ::
      q <= top ==> Search.IsGreatest(AcceptsPredicate(m), q, Search.Bisect(AcceptsPredicate(m), 0, q)))
              <==> UntouchedMinimumsHoldBelow(m, top)
  {
    hide Probe, Ready, Accepts, WeightsSafe, UntouchedMinimumsHoldBelow, Search.Bisect, Search.IsGreatest;
    DownwardClosedIff(m, top);
    assert AcceptsPredicate(m)(0);
    Search.BisectGreatestForEveryRequestIff(AcceptsPredicate(m), top);
  }

  /** From a safe portfolio the accepted fills are downward closed. */
  lemma AcceptedFillsAreDownwardClosed(m: Market, top: nat)
    requires Settleable(m, top) && GentleFill(m.fee, top) && WeightsSafe(m.portfolio, m.policy)
    requires UntouchedRoom(m, top) || NoExternalShares(m.fee)
    ensures Accepts(m, 0) && Search.DownwardClosed(AcceptsPredicate(m), top)
  {
    hide AssetHolds, Probe, Ready, AssetSafe, UntouchedRoom, UntouchedMinimumHolds, Accepts;
    DownwardClosedIff(m, top);
    forall v: nat, w: nat, k: nat | v < w <= top && k < |m.portfolio.assets| && FillHolds(m, w)
      ensures UntouchedMinimumHolds(m, v, k)
    {
      UntouchedMinimumBelow(m, top, v, w, k);
    }
  }

  lemma AcceptsNothing(m: Market, top: nat)
    requires Settleable(m, top)
    ensures Accepts(m, 0) <==> WeightsSafe(m.portfolio, m.policy)
  {
    hide FeesAt, PostTrade, Evaluate, ValidFee, AssetIndex, CeilDiv, SumValues, DistinctTokens;
    TradeAtSucceeds(m, top, 0);
    EvaluateIff(m.portfolio, m.policy, 0);
  }

  /** The greatest acceptable fill is found from every safe portfolio, and no probe throws on the way. */
  lemma SearchFindsGreatestFill(m: Market, top: nat)
    requires Settleable(m, top) && GentleFill(m.fee, top) && WeightsSafe(m.portfolio, m.policy)
    requires UntouchedRoom(m, top) || NoExternalShares(m.fee)
    ensures Search.IsGreatest(AcceptsPredicate(m), top, Search.Bisect(AcceptsPredicate(m), 0, top))
    ensures forall v: nat :: v <= top ==> Probe(m, v).Ok?
  {
    hide Accepts, Probe, Ready, UntouchedRoom, Search.Bisect, Search.IsGreatest;
    AcceptedFillsAreDownwardClosed(m, top);
    Search.BisectGreatest(AcceptsPredicate(m), top);
    forall v: nat | v <= top
      ensures Probe(m, v).Ok?
    {
      ProbeIff(m, top, v);
    }
  }

  /** The same without further hypotheses: no fill's retained fee crosses an untouched minimum below a larger one. */
  lemma SearchFindsGreatestWhenMinimumsHold(m: Market, top: nat)
    requires Settleable(m, top) && GentleFill(m.fee, top) && WeightsSafe(m.portfolio, m.policy)
      && UntouchedMinimumsHoldBelow(m, top)
    ensures Search.IsGreatest(AcceptsPredicate(m), top, Search.Bisect(AcceptsPredicate(m), 0, top))
  {
    hide Accepts, Probe, Ready, UntouchedMinimumsHoldBelow, Search.Bisect, Search.IsGreatest, GentleFill, WeightsSafe;
    DownwardClosedIff(m, top);
    assert AcceptsPredicate(m)(0);
    Search.BisectGreatest(AcceptsPredicate(m), top);
  }

  /** With two assets, or zero minimums on the others, no third minimum is at risk. */
  lemma UntouchedRoomOfPair(m: Market, top: nat)
    requires Ready(m)
    requires |m.portfolio.assets| == 2
          || forall k :: (&& 0 <= k < |m.portfolio.assets|
                         && m.portfolio.assets[k].token != m.input && m.portfolio.assets[k].token != m.output) ==>
               PolicyBounds(m.policy, m.portfolio.assets[k].token).value.minimum == 0
    ensures UntouchedRoom(m, top)
  {
    var assets := m.portfolio.assets;
    var i, o := AssetIndex(assets, m.input).value, AssetIndex(assets, m.output).value;
    forall k | 0 <= k < |assets| && assets[k].token != m.input && assets[k].token != m.output
      ensures PolicyBounds(m.policy, assets[k].token).value.minimum * (m.portfolio.nav + CeilDiv(top, 100))
        <= BASIS_POINTS * assets[k].value
    {
      assert k != i && k != o;
      assert |assets| != 2;
      assert 0 * (m.portfolio.nav + CeilDiv(top, 100)) == 0;
    }
  }
}
