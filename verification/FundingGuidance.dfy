/**
 The funding guidance of a new two-asset Space
 (apps/trader/src/pages/SpaceForm.tsx:249-408 and 450-477), and its exact agreement with the
 settlement-scale constraint checker.

 Weights are basis points between 1 and 10,000, the range the form's own percentage conversion
 produces (SpaceForm.tsx:204-208).
 */
module FundingGuidance {
  import opened Uint256
  import opened Wrappers
  import opened Portfolios
  import opened Constraints
  import Weights

  datatype DraftAsset = DraftAsset(token: Token, decimals: nat, minimumWeightBps: int, maximumWeightBps: int)
  datatype ReferencePrice = ReferencePrice(raw: nat, decimals: nat)
  datatype FundingRange = FundingRange(minimumRaw: nat, maximumRaw: Option<nat>)

  datatype AllocationIssue = TooFewAssets | WeightOutOfRange(token: Token) | MinimumAboveMaximum(token: Token)
    | MinimumsTooHigh | MaximumsTooLow

  // ----- allocationIssue

  function TotalMinimum(assets: seq<DraftAsset>): int {
    if assets == [] then 0 else assets[0].minimumWeightBps + TotalMinimum(assets[1..])
  }

  function TotalMaximum(assets: seq<DraftAsset>): int {
    if assets == [] then 0 else assets[0].maximumWeightBps + TotalMaximum(assets[1..])
  }

  function FirstBadAsset(assets: seq<DraftAsset>): Option<AllocationIssue> {
    if assets == [] then None
    else if assets[0].minimumWeightBps < 1 || assets[0].maximumWeightBps < 1
      || assets[0].maximumWeightBps > BASIS_POINTS
    then Some(WeightOutOfRange(assets[0].token))
    else if assets[0].minimumWeightBps > assets[0].maximumWeightBps then Some(MinimumAboveMaximum(assets[0].token))
    else FirstBadAsset(assets[1..])
  }

  function FindAllocationIssue(assets: seq<DraftAsset>): Option<AllocationIssue> {
    if |assets| < 2 then Some(TooFewAssets)
    else if FirstBadAsset(assets).Some? then FirstBadAsset(assets)
    else if TotalMinimum(assets) > BASIS_POINTS then Some(MinimumsTooHigh)
    else if TotalMaximum(assets) < BASIS_POINTS then Some(MaximumsTooLow)
    else None
  }

  ghost predicate SoundWeights(asset: DraftAsset) {
    1 <= asset.minimumWeightBps <= asset.maximumWeightBps <= BASIS_POINTS
  }

  /** The first asset whose weights are out of range or out of order is named, if there is one. */
  lemma {:induction false} FirstBadAssetIff(assets: seq<DraftAsset>)
    ensures FirstBadAsset(assets) == None <==> forall i :: 0 <= i < |assets| ==> SoundWeights(assets[i])
    ensures FirstBadAsset(assets).Some? ==>
              exists i :: && 0 <= i < |assets| && !SoundWeights(assets[i])
                          && (forall j :: 0 <= j < i ==> SoundWeights(assets[j]))
                          && (FirstBadAsset(assets).value == WeightOutOfRange(assets[i].token)
                              || FirstBadAsset(assets).value == MinimumAboveMaximum(assets[i].token))
  {
    if assets != [] {
      FirstBadAssetIff(assets[1..]);
      if FirstBadAsset(assets).Some? && SoundWeights(assets[0]) {
        var i :| && 0 <= i < |assets[1..]| && !SoundWeights(assets[1..][i])
                 && (forall j :: 0 <= j < i ==> SoundWeights(assets[1..][j]))
                 && (FirstBadAsset(assets).value == WeightOutOfRange(assets[1..][i].token)
                     || FirstBadAsset(assets).value == MinimumAboveMaximum(assets[1..][i].token));
        assert !SoundWeights(assets[i + 1]) && forall j :: 0 <= j < i + 1 ==> SoundWeights(assets[j]);
      } else if FirstBadAsset(assets).Some? {
        assert !SoundWeights(assets[0]);
      }
    }
  }

  /** A draft passes exactly with two assets or more, sound weights, and sums that admit the whole. */
  lemma AllocationIssueIff(assets: seq<DraftAsset>)
    ensures FindAllocationIssue(assets) == None <==>
              && 2 <= |assets| && (forall i :: 0 <= i < |assets| ==> SoundWeights(assets[i]))
              && TotalMinimum(assets) <= BASIS_POINTS <= TotalMaximum(assets)
  {
    FirstBadAssetIff(assets);
  }

  // ----- Valuation and its inversion

  function Scale(asset: DraftAsset, price: ReferencePrice): (d: nat)
    ensures 0 < d
  {
    Pow10(asset.decimals + price.decimals)
  }

  function SettlementValue(rawAmount: nat, asset: DraftAsset, price: ReferencePrice): nat {
    CeilDiv(rawAmount * price.raw, Scale(asset, price))
  }

  function RawAmountForMinimumValue(value: nat, asset: DraftAsset, price: ReferencePrice): nat
    requires 0 < price.raw
  {
    if value == 0 then 1
    else
      var below: nat := value - 1;
      FloorDiv(below * Scale(asset, price), price.raw) + 1
  }

  function RawAmountForMaximumValue(value: nat, asset: DraftAsset, price: ReferencePrice): nat
    requires 0 < price.raw
  {
    FloorDiv(value * Scale(asset, price), price.raw)
  }

  function MakeRange(minimumValue: nat, maximumValue: Option<nat>, asset: DraftAsset,
    price: ReferencePrice): FundingRange
    requires 0 < price.raw
  {
    FundingRange(
      RawAmountForMinimumValue(minimumValue, asset, price),
      if maximumValue == None then None else Some(RawAmountForMaximumValue(maximumValue.value, asset, price)))
  }

  predicate InRange(raw: nat, range: FundingRange) {
    range.minimumRaw <= raw && (range.maximumRaw == None || raw <= range.maximumRaw.value)
  }

  /** Raw amounts within a range are exactly the positive ones valued within its bounds. */
  lemma RangeInvertsValuation(minimumValue: nat, maximumValue: Option<nat>, asset: DraftAsset,
    price: ReferencePrice, raw: nat)
    requires 0 < price.raw && 0 < raw
    ensures InRange(raw, MakeRange(minimumValue, maximumValue, asset, price)) <==>
              && minimumValue <= SettlementValue(raw, asset, price)
              && (maximumValue == None || SettlementValue(raw, asset, price) <= maximumValue.value)
  {
    hide Pow10, CeilDiv;
    var scale := Scale(asset, price);
    if 0 < minimumValue {
      CeilDivLe(raw * price.raw, scale, minimumValue - 1);
      FloorDivGe((minimumValue - 1) * scale, price.raw, raw);
    }
    if maximumValue.Some? {
      CeilDivLe(raw * price.raw, scale, maximumValue.value);
      FloorDivGe(maximumValue.value * scale, price.raw, raw);
    }
  }

  // ----- The guidance

  ghost predicate FormWeights(asset: DraftAsset) {
    1 <= asset.minimumWeightBps <= BASIS_POINTS && 1 <= asset.maximumWeightBps <= BASIS_POINTS
  }

  function LowerUsdcWeight(usdc: DraftAsset, weth: DraftAsset): int {
    Max(usdc.minimumWeightBps, BASIS_POINTS - weth.maximumWeightBps)
  }

  function UpperUsdcWeight(usdc: DraftAsset, weth: DraftAsset): int {
    var complement := BASIS_POINTS - weth.minimumWeightBps;
    if usdc.maximumWeightBps < complement then usdc.maximumWeightBps else complement
  }

  /** The value that fills up the rest when this one is the given share of the pair, rounded up. */
  function RestUp(share: nat, value: nat): nat
    requires 1 <= share <= BASIS_POINTS
  {
    CeilDiv((BASIS_POINTS - share) * value, share)
  }

  function RestDown(share: nat, value: nat): nat
    requires 1 <= share <= BASIS_POINTS
  {
    FloorDiv((BASIS_POINTS - share) * value, share)
  }

  /** The WETH range for a USDC value; dividing by a zero upper weight throws. */
  function WethForUsdc(usdc: DraftAsset, weth: DraftAsset, wethPrice: ReferencePrice,
    usdcValue: nat): Checked<FundingRange>
    requires FormWeights(usdc) && FormWeights(weth) && 0 < wethPrice.raw
  {
    var lower: nat, upper: nat := LowerUsdcWeight(usdc, weth), UpperUsdcWeight(usdc, weth);
    if upper == 0 && 0 < usdcValue then Err(Overflow)
    else
      var minimum := if upper >= BASIS_POINTS || upper == 0 then 0 else RestUp(upper, usdcValue);
      Ok(MakeRange(minimum, Some(RestDown(lower, usdcValue)), weth, wethPrice))
  }

  function UsdcForWeth(usdc: DraftAsset, weth: DraftAsset, usdcPrice: ReferencePrice, wethValue: nat): FundingRange
    requires FormWeights(usdc) && FormWeights(weth) && 0 < usdcPrice.raw
  {
    var lower: nat, upper: nat := LowerUsdcWeight(usdc, weth), UpperUsdcWeight(usdc, weth);
    var minimum := if lower >= BASIS_POINTS then 1 else RestUp(BASIS_POINTS - lower, wethValue);
    var maximum := if upper >= BASIS_POINTS then None else Some(RestDown(BASIS_POINTS - upper, wethValue));
    MakeRange(minimum, maximum, usdc, usdcPrice)
  }

  // ----- Agreement with the constraint checker

  function InputFor(asset: DraftAsset, raw: nat, price: ReferencePrice): AssetInput {
    AssetInput(asset.token, raw, asset.decimals, price.raw, price.decimals, asset.minimumWeightBps,
      asset.maximumWeightBps)
  }

  function PolicyFor(usdc: DraftAsset, weth: DraftAsset, cap: nat): Policy {
    Policy(cap, [AssetBound(usdc.token, usdc.minimumWeightBps, usdc.maximumWeightBps),
                 AssetBound(weth.token, weth.minimumWeightBps, weth.maximumWeightBps)])
  }

  function FundedPortfolio(usdc: DraftAsset, usdcRaw: nat, usdcPrice: ReferencePrice, weth: DraftAsset, wethRaw: nat,
    wethPrice: ReferencePrice): Checked<Portfolio>
  {
    CalculatePortfolioValuation([InputFor(usdc, usdcRaw, usdcPrice), InputFor(weth, wethRaw, wethPrice)], 0)
  }

  ghost predicate Fundable(usdc: DraftAsset, weth: DraftAsset) {
    usdc.token != weth.token && FindAllocationIssue([usdc, weth]) == None
  }

  lemma FundableFacts(usdc: DraftAsset, weth: DraftAsset)
    requires Fundable(usdc, weth)
    ensures FormWeights(usdc) && FormWeights(weth)
    ensures usdc.minimumWeightBps <= usdc.maximumWeightBps && weth.minimumWeightBps <= weth.maximumWeightBps
    ensures usdc.minimumWeightBps + weth.minimumWeightBps <= BASIS_POINTS
      <= usdc.maximumWeightBps + weth.maximumWeightBps
  {
    assert [usdc, weth][1..] == [weth] && [weth][1..] == [];
    assert TotalMinimum([weth]) == weth.minimumWeightBps && TotalMaximum([weth]) == weth.maximumWeightBps;
    assert FirstBadAsset([weth]) == None;
  }

  /** The chain's settlement value of a funded balance is the form's own valuation. */
  lemma ValuationsAgree(asset: DraftAsset, raw: nat, price: ReferencePrice)
    requires CalculateAssetValue(raw, asset.decimals, price.raw, price.decimals, 0).Ok?
    ensures CalculateAssetValue(raw, asset.decimals, price.raw, price.decimals, 0).value
      == SettlementValue(raw, asset, price)
  {
    hide CeilDiv;
    PowAdd(asset.decimals, price.decimals);
    assert Pow10(0) == 1;
  }

  lemma FundedPortfolioShape(usdc: DraftAsset, usdcRaw: nat, usdcPrice: ReferencePrice, weth: DraftAsset, wethRaw: nat,
    wethPrice: ReferencePrice)
    requires usdc.token != weth.token && FundedPortfolio(usdc, usdcRaw, usdcPrice, weth, wethRaw, wethPrice).Ok?
    ensures var p := FundedPortfolio(usdc, usdcRaw, usdcPrice, weth, wethRaw, wethPrice).value;
            && |p.assets| == 2 && p.assets[0].token == usdc.token && p.assets[1].token == weth.token
            && p.assets[0].value == SettlementValue(usdcRaw, usdc, usdcPrice)
            && p.assets[1].value == SettlementValue(wethRaw, weth, wethPrice)
            && p.nav == p.assets[0].value + p.assets[1].value
  {
    hide CalculateAssetValue, SettlementValue, Weights.WeightUp;
    var inputs := [InputFor(usdc, usdcRaw, usdcPrice), InputFor(weth, wethRaw, wethPrice)];
    assert inputs[1..] == [inputs[1]] && [inputs[1]][1..] == [];
    var raw := ValueAssets(inputs, {}, 0).value;
    ValuedPair(inputs[0], inputs[1]);
    ValuationsAgree(usdc, usdcRaw, usdcPrice);
    ValuationsAgree(weth, wethRaw, wethPrice);
    assert raw[1..] == [raw[1]] && raw[1..][1..] == [];
    assert SumValues(raw[1..]) == raw[1].value;
  }

  lemma ValuedPair(x: AssetInput, y: AssetInput)
    requires ValueAssets([x, y], {}, 0).Ok?
    ensures ValueAsset(x, 0).Ok? && ValueAsset(y, 0).Ok?
    ensures ValueAssets([x, y], {}, 0).value == [ValueAsset(x, 0).value, ValueAsset(y, 0).value]
  {
    hide ValueAsset;
    assert [x, y][1..] == [y] && [y][1..] == [];
    assert ValueAssets([y], {x.token}, 0).Ok?;
    assert {} + {x.token} == {x.token};
  }

  lemma PolicyForFacts(usdc: DraftAsset, weth: DraftAsset, cap: nat)
    requires Fundable(usdc, weth) && cap <= UINT256_MAX
    ensures ValidPolicy(PolicyFor(usdc, weth, cap))
    ensures PolicyBounds(PolicyFor(usdc, weth, cap), usdc.token)
      == Ok(Range(usdc.minimumWeightBps, usdc.maximumWeightBps))
    ensures PolicyBounds(PolicyFor(usdc, weth, cap), weth.token)
      == Ok(Range(weth.minimumWeightBps, weth.maximumWeightBps))
  {
    hide BoundIndex, FindAllocationIssue;
    FundableFacts(usdc, weth);
    var bounds := PolicyFor(usdc, weth, cap).assets;
    assert bounds[..1] == [bounds[0]] && bounds[..1][..0] == [];
    assert SumMinimum(bounds[..1]) == usdc.minimumWeightBps && SumMaximum(bounds[..1]) == usdc.maximumWeightBps;
    assert bounds[0].token == usdc.token && bounds[1].token == weth.token;
  }

  /** USDC is worth at least c basis points of the pair. */
  ghost predicate UsdcAtLeast(c: nat, usdcValue: nat, wethValue: nat)
    requires c <= BASIS_POINTS
  {
    c * wethValue <= (BASIS_POINTS - c) * usdcValue
  }

  ghost predicate UsdcAtMost(c: nat, usdcValue: nat, wethValue: nat)
    requires c <= BASIS_POINTS
  {
    (BASIS_POINTS - c) * usdcValue <= c * wethValue
  }

  lemma ShareForms(c: nat, u: nat, w: nat)
    requires c <= BASIS_POINTS
    ensures UsdcAtLeast(c, u, w) <==> c * (u + w) <= BASIS_POINTS * u
    ensures UsdcAtLeast(c, u, w) <==> BASIS_POINTS * w <= (BASIS_POINTS - c) * (u + w)
    ensures UsdcAtMost(c, u, w) <==> BASIS_POINTS * u <= c * (u + w)
    ensures UsdcAtMost(c, u, w) <==> (BASIS_POINTS - c) * (u + w) <= BASIS_POINTS * w
  {
    assert c * (u + w) == c * u + c * w;
    assert (BASIS_POINTS - c) * (u + w) == (BASIS_POINTS - c) * u + (BASIS_POINTS - c) * w;
    assert (BASIS_POINTS - c) * u == BASIS_POINTS * u - c * u && (BASIS_POINTS - c) * w == BASIS_POINTS * w - c * w;
  }

  lemma ShareMono(c: nat, d: nat, u: nat, w: nat)
    requires c <= d <= BASIS_POINTS
    ensures UsdcAtLeast(d, u, w) ==> UsdcAtLeast(c, u, w)
    ensures UsdcAtMost(c, u, w) ==> UsdcAtMost(d, u, w)
  {
    MulMono(c, d, w);
    MulMono(BASIS_POINTS - d, BASIS_POINTS - c, u);
  }

  ghost predicate PairInRange(usdc: DraftAsset, weth: DraftAsset, u: nat, w: nat)
    requires FormWeights(usdc) && FormWeights(weth)
  {
    && WithinRange(u, u + w, Range(usdc.minimumWeightBps, usdc.maximumWeightBps))
    && WithinRange(w, u + w, Range(weth.minimumWeightBps, weth.maximumWeightBps))
  }

  /** The two bounds that limit the USDC share from above. */
  ghost predicate UsdcBelowBounds(usdc: DraftAsset, weth: DraftAsset, u: nat, w: nat) {
    BASIS_POINTS * u <= usdc.maximumWeightBps * (u + w) && weth.minimumWeightBps * (u + w) <= BASIS_POINTS * w
  }

  /** The four weight bounds of a pair amount to one lower and one upper bound on the USDC share. */
  lemma PairBoundsIff(usdc: DraftAsset, weth: DraftAsset, u: nat, w: nat)
    requires FormWeights(usdc) && FormWeights(weth)
    ensures var lower, upper := LowerUsdcWeight(usdc, weth), UpperUsdcWeight(usdc, weth);
            && 0 <= lower <= BASIS_POINTS && 0 <= upper <= BASIS_POINTS
            && (UsdcAtLeast(lower, u, w) && UsdcAtMost(upper, u, w) <==> PairInRange(usdc, weth, u, w))
            && (UsdcAtMost(upper, u, w) <==> UsdcBelowBounds(usdc, weth, u, w))
  {
    hide UsdcAtLeast, UsdcAtMost;
    var a: nat, b: nat := usdc.minimumWeightBps, BASIS_POINTS - weth.maximumWeightBps;
    var c: nat, d: nat := usdc.maximumWeightBps, BASIS_POINTS - weth.minimumWeightBps;
    ShareForms(a, u, w);
    ShareForms(b, u, w);
    ShareForms(c, u, w);
    ShareForms(d, u, w);
    ShareMono(if a < b then a else b, if a < b then b else a, u, w);
    ShareMono(if c < d then c else d, if c < d then d else c, u, w);
  }

  lemma FundedPairIsSafeIff(usdc: DraftAsset, usdcRaw: nat, usdcPrice: ReferencePrice, weth: DraftAsset, wethRaw: nat,
    wethPrice: ReferencePrice, cap: nat)
    requires Fundable(usdc, weth) && cap <= UINT256_MAX && FormWeights(usdc) && FormWeights(weth)
    requires FundedPortfolio(usdc, usdcRaw, usdcPrice, weth, wethRaw, wethPrice).Ok?
    ensures var e := Evaluate(FundedPortfolio(usdc, usdcRaw, usdcPrice, weth, wethRaw, wethPrice).value,
      PolicyFor(usdc, weth, cap), 0);
            var u, w := SettlementValue(usdcRaw, usdc, usdcPrice), SettlementValue(wethRaw, weth, wethPrice);
            && e.Ok?
            && (e.value.safe <==> PairInRange(usdc, weth, u, w))
  {
    hide FundedPortfolio, SettlementValue, WithinRange, ValidPolicy, Fundable, PolicyFor, PolicyBounds;
    var p, policy := FundedPortfolio(usdc, usdcRaw, usdcPrice, weth, wethRaw, wethPrice).value,
      PolicyFor(usdc, weth, cap);
    FundableFacts(usdc, weth);
    DistinctTokensOf(usdc, weth);
    FundedPortfolioShape(usdc, usdcRaw, usdcPrice, weth, wethRaw, wethPrice);
    PolicyForFacts(usdc, weth, cap);
    EvaluateIff(p, policy, 0);
    PolicyCap(usdc, weth, cap);
    assert AssetSafe(p.assets[0], p.nav, policy) && AssetSafe(p.assets[1], p.nav, policy) <==> WeightsSafe(p, policy);
  }

  lemma DistinctTokensOf(usdc: DraftAsset, weth: DraftAsset)
    requires Fundable(usdc, weth)
    ensures usdc.token != weth.token
  {
  }

  lemma PolicyCap(usdc: DraftAsset, weth: DraftAsset, cap: nat)
    ensures PolicyFor(usdc, weth, cap).maximumTransactionValue == cap
  {
  }

  lemma CeilingBound(a: nat, d: nat, w: nat, u: nat)
    requires 0 < d
    ensures CeilDiv(a * w, d) <= u <==> a * w <= d * u
  {
    var n := a * w;
    CeilDivLe(n, d, u);
    assert u * d == d * u;
  }

  lemma FloorBound(a: nat, d: nat, w: nat, u: nat)
    requires 0 < d
    ensures u <= FloorDiv(a * w, d) <==> d * u <= a * w
  {
    var n := a * w;
    FloorDivGe(n, d, u);
    assert u * d == d * u;
  }

  lemma UsdcBoundsIff(lower: nat, upper: nat, u: nat, w: nat)
    requires lower <= BASIS_POINTS && upper < BASIS_POINTS
    ensures lower < BASIS_POINTS ==> (RestUp(BASIS_POINTS - lower, w) <= u <==> UsdcAtLeast(lower, u, w))
    ensures u <= RestDown(BASIS_POINTS - upper, w) <==> UsdcAtMost(upper, u, w)
  {
    hide CeilDiv, FloorDiv;
    if lower < BASIS_POINTS {
      CeilingBound(lower, BASIS_POINTS - lower, w, u);
    }
    FloorBound(upper, BASIS_POINTS - upper, w, u);
  }

  lemma WethBoundsIff(lower: nat, upper: nat, u: nat, w: nat)
    requires 1 <= lower <= BASIS_POINTS && upper < BASIS_POINTS
    ensures upper == u == 0 ==> UsdcAtMost(upper, u, w)
    ensures 1 <= upper ==> (RestUp(upper, u) <= w <==> UsdcAtMost(upper, u, w))
    ensures w <= RestDown(lower, u) <==> UsdcAtLeast(lower, u, w)
  {
    hide CeilDiv, FloorDiv;
    if 1 <= upper {
      CeilingBound(BASIS_POINTS - upper, upper, u, w);
    }
    FloorBound(BASIS_POINTS - lower, lower, u, w);
  }

  lemma WeightsRoom(usdc: DraftAsset, weth: DraftAsset)
    requires FormWeights(usdc) && FormWeights(weth)
    ensures UpperUsdcWeight(usdc, weth) == 0 <==> weth.minimumWeightBps == BASIS_POINTS
    ensures LowerUsdcWeight(usdc, weth) == BASIS_POINTS <==> usdc.minimumWeightBps == BASIS_POINTS
    ensures 1 <= LowerUsdcWeight(usdc, weth) && UpperUsdcWeight(usdc, weth) < BASIS_POINTS
  {
  }

  /**
   The WETH range of any draft, sound or not: it throws exactly when WETH must be the whole of a pair that holds
   USDC, and otherwise its positive amounts are those that put both shares in range.
   */
  lemma WethForUsdcIff(usdc: DraftAsset, weth: DraftAsset, wethPrice: ReferencePrice, u: nat, raw: nat)
    requires FormWeights(usdc) && FormWeights(weth) && 0 < wethPrice.raw && 0 < raw
    ensures var range := WethForUsdc(usdc, weth, wethPrice, u);
            && (range.Err? <==> weth.minimumWeightBps == BASIS_POINTS && 0 < u)
            && (range.Ok? ==>
                  (InRange(raw, range.value) <==> PairInRange(usdc, weth, u, SettlementValue(raw, weth, wethPrice))))
  {
    hide SettlementValue, RestUp, RestDown, WithinRange, MakeRange, InRange, UsdcAtLeast, UsdcAtMost, UsdcBelowBounds,
      PairInRange, LowerUsdcWeight, UpperUsdcWeight;
    WeightsRoom(usdc, weth);
    var w := SettlementValue(raw, weth, wethPrice);
    PairBoundsIff(usdc, weth, u, w);
    var lower: nat, upper: nat := LowerUsdcWeight(usdc, weth), UpperUsdcWeight(usdc, weth);
    var maximum := RestDown(lower, u);
    WethBoundsIff(lower, upper, u, w);
    if upper == 0 {
      RangeInvertsValuation(0, Some(maximum), weth, wethPrice, raw);
    } else {
      RangeInvertsValuation(RestUp(upper, u), Some(maximum), weth, wethPrice, raw);
    }
  }

  /**
   The USDC range of any draft: its positive amounts are those that put both shares in range, except that a draft
   whose USDC must be the whole of the pair is guided by the bounds from above alone.
   */
  lemma UsdcForWethIff(usdc: DraftAsset, weth: DraftAsset, usdcPrice: ReferencePrice, w: nat, raw: nat)
    requires FormWeights(usdc) && FormWeights(weth) && 0 < usdcPrice.raw && 0 < raw
    ensures InRange(raw, UsdcForWeth(usdc, weth, usdcPrice, w)) <==>
              var u := SettlementValue(raw, usdc, usdcPrice);
              if usdc.minimumWeightBps == BASIS_POINTS then UsdcBelowBounds(usdc, weth, u, w)
              else PairInRange(usdc, weth, u, w)
  {
    hide SettlementValue, RestUp, RestDown, WithinRange, MakeRange, InRange, UsdcAtLeast, UsdcAtMost, UsdcBelowBounds,
      PairInRange, LowerUsdcWeight, UpperUsdcWeight;
    WeightsRoom(usdc, weth);
    var u := SettlementValue(raw, usdc, usdcPrice);
    PairBoundsIff(usdc, weth, u, w);
    var lower: nat, upper: nat := LowerUsdcWeight(usdc, weth), UpperUsdcWeight(usdc, weth);
    var maximum := RestDown(BASIS_POINTS - upper, w);
    UsdcBoundsIff(lower, upper, u, w);
    if lower == BASIS_POINTS {
      PositiveValue(raw, usdc, usdcPrice);
      RangeInvertsValuation(1, Some(maximum), usdc, usdcPrice, raw);
    } else {
      RangeInvertsValuation(RestUp(BASIS_POINTS - lower, w), Some(maximum), usdc, usdcPrice, raw);
    }
  }

  /** A draft that asks for USDC alone and for some WETH is still shown amounts, none of which fits it. */
  lemma UnfitDraftIsGuided(usdc: DraftAsset, weth: DraftAsset, usdcPrice: ReferencePrice, w: nat, raw: nat)
    requires FormWeights(usdc) && FormWeights(weth) && 0 < usdcPrice.raw && 0 < raw && 0 < w
    requires usdc.minimumWeightBps == usdc.maximumWeightBps == BASIS_POINTS && weth.minimumWeightBps == 1
    ensures InRange(raw, UsdcForWeth(usdc, weth, usdcPrice, w)) <==> SettlementValue(raw, usdc, usdcPrice) <= 9999 * w
    ensures !PairInRange(usdc, weth, SettlementValue(raw, usdc, usdcPrice), w)
  {
    hide SettlementValue, UsdcForWeth, InRange;
    UsdcForWethIff(usdc, weth, usdcPrice, w, raw);
  }

  lemma PositiveValue(raw: nat, asset: DraftAsset, price: ReferencePrice)
    requires 0 < raw && 0 < price.raw
    ensures 1 <= SettlementValue(raw, asset, price)
  {
    hide CeilDiv, Scale;
    CeilDivLe(raw * price.raw, Scale(asset, price), 0);
  }

  /** A positive WETH amount lies in the guided range exactly when the funded pair passes every constraint. */
  lemma WethGuidanceIsExact(usdc: DraftAsset, usdcRaw: nat, usdcPrice: ReferencePrice, weth: DraftAsset, wethRaw: nat,
    wethPrice: ReferencePrice, cap: nat)
    requires Fundable(usdc, weth) && FormWeights(usdc) && FormWeights(weth) && cap <= UINT256_MAX
    requires 0 < wethRaw && 0 < wethPrice.raw
    requires FundedPortfolio(usdc, usdcRaw, usdcPrice, weth, wethRaw, wethPrice).Ok?
    ensures var range := WethForUsdc(usdc, weth, wethPrice, SettlementValue(usdcRaw, usdc, usdcPrice));
            var e := Evaluate(FundedPortfolio(usdc, usdcRaw, usdcPrice, weth, wethRaw, wethPrice).value,
              PolicyFor(usdc, weth, cap), 0);
            range.Ok? && e.Ok? && (InRange(wethRaw, range.value) <==> e.value.safe)
  {
    hide FundedPortfolio, SettlementValue, Evaluate, Fundable, WithinRange, WethForUsdc, InRange, PolicyFor;
    FundedPairIsSafeIff(usdc, usdcRaw, usdcPrice, weth, wethRaw, wethPrice, cap);
    FundableFacts(usdc, weth);
    WethForUsdcIff(usdc, weth, wethPrice, SettlementValue(usdcRaw, usdc, usdcPrice), wethRaw);
  }

  lemma UsdcGuidanceIsExact(usdc: DraftAsset, usdcRaw: nat, usdcPrice: ReferencePrice, weth: DraftAsset, wethRaw: nat,
    wethPrice: ReferencePrice, cap: nat)
    requires Fundable(usdc, weth) && FormWeights(usdc) && FormWeights(weth) && cap <= UINT256_MAX
    requires 0 < usdcRaw && 0 < usdcPrice.raw
    requires FundedPortfolio(usdc, usdcRaw, usdcPrice, weth, wethRaw, wethPrice).Ok?
    ensures var range := UsdcForWeth(usdc, weth, usdcPrice, SettlementValue(wethRaw, weth, wethPrice));
            var e := Evaluate(FundedPortfolio(usdc, usdcRaw, usdcPrice, weth, wethRaw, wethPrice).value,
              PolicyFor(usdc, weth, cap), 0);
            e.Ok? && (InRange(usdcRaw, range) <==> e.value.safe)
  {
    hide FundedPortfolio, SettlementValue, Evaluate, Fundable, WithinRange, UsdcForWeth, InRange, PolicyFor;
    FundedPairIsSafeIff(usdc, usdcRaw, usdcPrice, weth, wethRaw, wethPrice, cap);
    FundableFacts(usdc, weth);
    UsdcForWethIff(usdc, weth, usdcPrice, SettlementValue(wethRaw, weth, wethPrice), usdcRaw);
  }
}
