/**
 Asset and portfolio valuation and the fee-free trade
 (packages/shared/src/financial.ts:332-561).

 A token is its lower-cased name: two spellings that the source normalizes to the same name are
 the same `Token` here.
 */
module Portfolios {
  import opened Uint256
  import opened Wrappers
  import opened Weights

  type Token = string

  datatype AssetInput = AssetInput(
    token: Token, balance: int, decimals: int, price: int, priceDecimals: int,
    minimumWeightBps: int, maximumWeightBps: int)

  datatype Asset = Asset(
    token: Token, balance: nat, decimals: int, price: nat, priceDecimals: int, value: nat,
    weightBps: nat, minimumWeightBps: nat, maximumWeightBps: nat)

  datatype Portfolio = Portfolio(valueDecimals: int, nav: nat, assets: seq<Asset>)

  // ----- Valuation

  datatype Ratio = Ratio(numerator: nat, denominator: nat)

  /** The checked fraction balance * price * 10^valueDecimals / 10^(decimals + priceDecimals). */
  function ScaledValue(balance: int, decimals: int, price: int, priceDecimals: int,
    valueDecimals: int): (r: Checked<Ratio>)
    ensures r.Ok? ==> 0 < r.value.denominator
  {
    var checkedBalance :- ToUint256(balance);
    var checkedPrice :- ToUint256(price);
    if checkedPrice == 0 then Err(ZeroPrice) else
    var gross :- CheckedMul(checkedBalance, checkedPrice);
    var scale :- Scale10(valueDecimals);
    var numerator :- CheckedMul(gross, scale);
    var tokenScale :- Scale10(decimals);
    var priceScale :- Scale10(priceDecimals);
    var denominator :- CheckedMul(tokenScale, priceScale);
    MulStrict(0, tokenScale, priceScale);
    Ok(Ratio(numerator, denominator))
  }

  /** The exact value of an amount at a price, with no rounding and no overflow check. */
  ghost function ExactValue(amount: nat, decimals: nat, price: nat, priceDecimals: nat, valueDecimals: nat): (r: Ratio)
    ensures 0 < r.denominator
  {
    MulStrict(0, Pow10(decimals), Pow10(priceDecimals));
    Ratio(amount * price * Pow10(valueDecimals), Pow10(decimals) * Pow10(priceDecimals))
  }

  /** What can be valued: amounts, a positive price, scales of at most 36 decimals, and a product that fits. */
  ghost predicate Valuable(balance: int, decimals: int, price: int, priceDecimals: int, valueDecimals: int) {
    && 0 <= balance <= UINT256_MAX && 0 < price <= UINT256_MAX
    && 0 <= decimals <= 36 && 0 <= priceDecimals <= 36 && 0 <= valueDecimals <= 36
    && balance * price * Pow10(valueDecimals) <= UINT256_MAX
  }

  /** The checked fraction is the exact value, and exists exactly for what can be valued. */
  lemma ScaledValueIff(balance: int, decimals: int, price: int, priceDecimals: int, valueDecimals: int)
    ensures ScaledValue(balance, decimals, price, priceDecimals, valueDecimals).Ok?
       <==> Valuable(balance, decimals, price, priceDecimals, valueDecimals)
    ensures Valuable(balance, decimals, price, priceDecimals, valueDecimals) ==>
              ScaledValue(balance, decimals, price, priceDecimals, valueDecimals)
              == Ok(ExactValue(balance, decimals, price, priceDecimals, valueDecimals))
  {
    hide Pow10;
    if 0 <= decimals <= 36 && 0 <= priceDecimals <= 36 {
      ScalesFit(decimals, priceDecimals);
    }
    if 0 <= valueDecimals && 0 <= balance && 0 < price {
      GrossFits(balance * price, Pow10(valueDecimals));
    }
  }

  lemma GrossFits(gross: int, scale: nat)
    requires 0 < scale
    ensures 0 <= gross ==> gross <= gross * scale
  {
    if 0 <= gross {
      MulMono(1, scale, gross);
    }
  }

  function CalculateAssetValue(balance: int, decimals: int, price: int, priceDecimals: int,
    valueDecimals: int): Checked<nat>
  {
    var ratio :- ScaledValue(balance, decimals, price, priceDecimals, valueDecimals);
    Ok(CeilDiv(ratio.numerator, ratio.denominator))
  }

  function CalculateAssetValueDown(balance: int, decimals: int, price: int, priceDecimals: int,
    valueDecimals: int): Checked<nat>
  {
    var ratio :- ScaledValue(balance, decimals, price, priceDecimals, valueDecimals);
    Ok(FloorDiv(ratio.numerator, ratio.denominator))
  }

  function CalculateAssetValueExact(balance: int, decimals: int, price: int, priceDecimals: int,
    valueDecimals: int): Checked<nat>
  {
    var ratio :- ScaledValue(balance, decimals, price, priceDecimals, valueDecimals);
    if ratio.numerator % ratio.denominator != 0 then Err(InexactAmount)
    else Ok(FloorDiv(ratio.numerator, ratio.denominator))
  }

  function SumValues(assets: seq<Asset>): nat {
    if assets == [] then 0 else assets[0].value + SumValues(assets[1..])
  }

  /** The checked left-to-right NAV reduction fails exactly when the whole sum does not fit. */
  function CheckedSum(sum: nat, assets: seq<Asset>): (r: Checked<nat>)
    requires sum <= UINT256_MAX
    ensures r == if sum + SumValues(assets) <= UINT256_MAX then Ok(sum + SumValues(assets)) else Err(Overflow)
    decreases assets
  {
    if assets == [] then Ok(sum)
    else
      var next :- CheckedAdd(sum, assets[0].value);
      CheckedSum(next, assets[1..])
  }

  function Reweigh(assets: seq<Asset>, nav: nat): (r: seq<Asset>)
    ensures |r| == |assets|
    ensures forall i :: 0 <= i < |r| ==> r[i] == assets[i].(weightBps := WeightUp(assets[i].value, nav))
  {
    seq(|assets|, i requires 0 <= i < |assets| => assets[i].(weightBps := WeightUp(assets[i].value, nav)))
  }

  function ValueAsset(asset: AssetInput, valueDecimals: int): Checked<Asset> {
    var minimum :- RequireBps(asset.minimumWeightBps);
    var maximum :- RequireBps(asset.maximumWeightBps);
    if minimum > maximum then Err(BadPolicy) else
    var balance :- ToUint256(asset.balance);
    var price :- ToUint256(asset.price);
    var value :- CalculateAssetValue(asset.balance, asset.decimals, asset.price, asset.priceDecimals, valueDecimals);
    Ok(Asset(asset.token, balance, asset.decimals, price, asset.priceDecimals, value, 0, minimum, maximum))
  }

  function ValueAssets(assets: seq<AssetInput>, seen: set<Token>, valueDecimals: int): (r: Checked<seq<Asset>>)
    ensures r.Ok? ==> |r.value| == |assets|
  {
    if assets == [] then Ok([])
    else if assets[0].token in seen then Err(DuplicateAsset)
    else
      var first :- ValueAsset(assets[0], valueDecimals);
      var rest :- ValueAssets(assets[1..], seen + {assets[0].token}, valueDecimals);
      Ok([first] + rest)
  }

  function CalculatePortfolioValuation(assets: seq<AssetInput>, valueDecimals: int): Checked<Portfolio> {
    if assets == [] then Err(EmptyPortfolio) else
    var raw :- ValueAssets(assets, {}, valueDecimals);
    var nav :- CheckedSum(0, raw);
    if nav == 0 then Err(ZeroNav) else Ok(Portfolio(valueDecimals, nav, Reweigh(raw, nav)))
  }

  ghost predicate DistinctTokens(assets: seq<Asset>) {
    forall i, j :: 0 <= i < j < |assets| ==> assets[i].token != assets[j].token
  }

  /** What a freshly valued portfolio satisfies and every trade below keeps. */
  ghost predicate WellFormed(p: Portfolio) {
    && DistinctTokens(p.assets)
    && 0 < p.nav == SumValues(p.assets) <= UINT256_MAX
    && forall i :: 0 <= i < |p.assets| ==> p.assets[i].weightBps == WeightUp(p.assets[i].value, p.nav)
  }

  lemma {:induction false} ValuedAssetsAreDistinct(assets: seq<AssetInput>, seen: set<Token>, valueDecimals: int)
    requires ValueAssets(assets, seen, valueDecimals).Ok?
    ensures var valued := ValueAssets(assets, seen, valueDecimals).value;
            DistinctTokens(valued) && forall i :: 0 <= i < |valued| ==> valued[i].token !in seen
  {
    if assets != [] {
      ValuedAssetsAreDistinct(assets[1..], seen + {assets[0].token}, valueDecimals);
    }
  }

  lemma {:induction false} SumDependsOnValues(a: seq<Asset>, b: seq<Asset>)
    requires |a| == |b|
    requires forall i :: 0 <= i < |a| ==> a[i].value == b[i].value
    ensures SumValues(a) == SumValues(b)
  {
    if a != [] {
      SumDependsOnValues(a[1..], b[1..]);
    }
  }

  lemma {:induction false} SumAfterUpdate(assets: seq<Asset>, i: nat, asset: Asset)
    requires i < |assets|
    ensures SumValues(assets[i := asset]) == SumValues(assets) - assets[i].value + asset.value
  {
    var updated := assets[i := asset];
    if i == 0 {
      assert updated[1..] == assets[1..];
    } else {
      assert updated[1..] == assets[1..][i - 1 := asset];
      SumAfterUpdate(assets[1..], i - 1, asset);
    }
  }

  /** The two traded values replaced. */
  function MoveValues(assets: seq<Asset>, i: nat, o: nat, received: nat, remaining: nat): (r: seq<Asset>)
    requires i < |assets| && o < |assets|
    ensures |r| == |assets|
    ensures forall k :: 0 <= k < |r| ==>
              r[k] == assets[k].(value := if k == o then remaining else if k == i then received else assets[k].value)
  {
    assets[i := assets[i].(value := received)][o := assets[o].(value := remaining)]
  }

  lemma SumAfterMove(assets: seq<Asset>, i: nat, o: nat, received: nat, remaining: nat)
    requires i < |assets| && o < |assets| && i != o
    ensures SumValues(MoveValues(assets, i, o, received, remaining))
         == SumValues(assets) - assets[i].value - assets[o].value + received + remaining
  {
    var first := assets[i := assets[i].(value := received)];
    SumAfterUpdate(assets, i, assets[i].(value := received));
    SumAfterUpdate(first, o, assets[o].(value := remaining));
    assert first[o] == assets[o];
  }

  lemma {:induction false} ValueWithinSum(assets: seq<Asset>, i: nat)
    requires i < |assets|
    ensures assets[i].value <= SumValues(assets)
  {
    if i > 0 {
      ValueWithinSum(assets[1..], i - 1);
    }
  }

  lemma {:induction false} TwoValuesWithinSum(assets: seq<Asset>, i: nat, j: nat)
    requires i < |assets| && j < |assets| && i != j
    ensures assets[i].value + assets[j].value <= SumValues(assets)
  {
    if i == 0 {
      ValueWithinSum(assets[1..], j - 1);
    } else if j == 0 {
      ValueWithinSum(assets[1..], i - 1);
    } else {
      TwoValuesWithinSum(assets[1..], i - 1, j - 1);
    }
  }

  lemma ValuationIsWellFormed(assets: seq<AssetInput>, valueDecimals: int)
    requires CalculatePortfolioValuation(assets, valueDecimals).Ok?
    ensures WellFormed(CalculatePortfolioValuation(assets, valueDecimals).value)
  {
    var raw := ValueAssets(assets, {}, valueDecimals).value;
    ValuedAssetsAreDistinct(assets, {}, valueDecimals);
    SumDependsOnValues(raw, Reweigh(raw, SumValues(raw)));
  }

  /** An asset that can be valued: amounts and scales as above, and a weight range in order. */
  ghost predicate ValuableAsset(asset: AssetInput, valueDecimals: int) {
    && Valuable(asset.balance, asset.decimals, asset.price, asset.priceDecimals, valueDecimals)
    && 0 <= asset.minimumWeightBps <= asset.maximumWeightBps <= BASIS_POINTS
  }

  /** Its exact value rounded up; nothing for what cannot be valued. */
  ghost function CeiledValue(asset: AssetInput, valueDecimals: int): nat {
    if !ValuableAsset(asset, valueDecimals) then 0
    else
      var exact := ExactValue(asset.balance, asset.decimals, asset.price, asset.priceDecimals, valueDecimals);
      CeilDiv(exact.numerator, exact.denominator)
  }

  ghost function SumCeiled(assets: seq<AssetInput>, valueDecimals: int): nat {
    if assets == [] then 0 else CeiledValue(assets[0], valueDecimals) + SumCeiled(assets[1..], valueDecimals)
  }

  ghost predicate DistinctInputs(assets: seq<AssetInput>) {
    forall i, j :: 0 <= i < j < |assets| ==> assets[i].token != assets[j].token
  }

  /** The asset as it was given, with its ceiled value and a weight. */
  ghost predicate IsValued(valued: Asset, asset: AssetInput, valueDecimals: int, weightBps: nat) {
    && valued.token == asset.token && valued.balance == asset.balance && valued.decimals == asset.decimals
    && valued.price == asset.price && valued.priceDecimals == asset.priceDecimals
    && valued.minimumWeightBps == asset.minimumWeightBps && valued.maximumWeightBps == asset.maximumWeightBps
    && valued.value == CeiledValue(asset, valueDecimals) && valued.weightBps == weightBps
  }

  lemma ValueAssetIff(asset: AssetInput, valueDecimals: int)
    ensures ValueAsset(asset, valueDecimals).Ok? <==> ValuableAsset(asset, valueDecimals)
    ensures ValueAsset(asset, valueDecimals).Ok? ==>
      IsValued(ValueAsset(asset, valueDecimals).value, asset, valueDecimals, 0)
  {
    hide ScaledValue, ExactValue, CeilDiv, Pow10;
    ScaledValueIff(asset.balance, asset.decimals, asset.price, asset.priceDecimals, valueDecimals);
  }

  lemma {:induction false} ValueAssetsIff(assets: seq<AssetInput>, seen: set<Token>, valueDecimals: int)
    ensures ValueAssets(assets, seen, valueDecimals).Ok? <==>
              && DistinctInputs(assets)
              && forall i :: 0 <= i < |assets| ==> ValuableAsset(assets[i], valueDecimals) && assets[i].token !in seen
    ensures ValueAssets(assets, seen, valueDecimals).Ok? ==>
              var valued := ValueAssets(assets, seen, valueDecimals).value;
              && SumValues(valued) == SumCeiled(assets, valueDecimals)
              && forall i :: 0 <= i < |assets| ==> IsValued(valued[i], assets[i], valueDecimals, 0)
    decreases |assets|
  {
    hide ValueAsset, ValuableAsset, CeiledValue;
    if assets != [] {
      ValueAssetIff(assets[0], valueDecimals);
      ValueAssetsIff(assets[1..], seen + {assets[0].token}, valueDecimals);
      assert forall i :: 0 < i < |assets| ==> assets[i] == assets[1..][i - 1];
      assert DistinctInputs(assets) ==> DistinctInputs(assets[1..]);
    }
  }

  /**
   A portfolio is valued exactly when it has assets, all distinct and valuable, and their ceiled values have a
   positive sum that fits; NAV is that sum, and every asset is what was given with its value and its weight.
   */
  lemma ValuationIff(assets: seq<AssetInput>, valueDecimals: int)
    ensures CalculatePortfolioValuation(assets, valueDecimals).Ok? <==>
              && assets != [] && DistinctInputs(assets)
              && (forall i :: 0 <= i < |assets| ==> ValuableAsset(assets[i], valueDecimals))
              && 0 < SumCeiled(assets, valueDecimals) <= UINT256_MAX
    ensures CalculatePortfolioValuation(assets, valueDecimals).Ok? ==>
              var p := CalculatePortfolioValuation(assets, valueDecimals).value;
              && p.valueDecimals == valueDecimals && p.nav == SumCeiled(assets, valueDecimals)
              && |p.assets| == |assets|
              && forall i :: 0 <= i < |assets| ==>
                   IsValued(p.assets[i], assets[i], valueDecimals, WeightUp(p.assets[i].value, p.nav))
  {
    hide ValueAssets, ValuableAsset, CeiledValue, SumValues, SumCeiled, DistinctInputs, WeightUp, CheckedSum;
    ValueAssetsIff(assets, {}, valueDecimals);
  }

  // ----- Trades without a fee

  function AssetIndex(assets: seq<Asset>, token: Token): (r: Checked<nat>)
    ensures r.Ok? ==> r.value < |assets| && assets[r.value].token == token
    ensures r.Ok? ==> forall j :: 0 <= j < r.value ==> assets[j].token != token
    ensures r.Err? ==> forall j :: 0 <= j < |assets| ==> assets[j].token != token
  {
    if assets == [] then Err(MissingAsset)
    else if assets[0].token == token then Ok(0)
    else
      var rest :- AssetIndex(assets[1..], token);
      Ok(rest + 1)
  }

  function ApplyTrade(p: Portfolio, inputToken: Token, outputToken: Token, tradeValue: int): Checked<Portfolio> {
    var value :- ToUint256(tradeValue);
    if value == 0 then Ok(p)
    else if inputToken == outputToken then Err(SameAsset) else
    var i :- AssetIndex(p.assets, inputToken);
    var o :- AssetIndex(p.assets, outputToken);
    var received :- CheckedAdd(p.assets[i].value, value);
    var sent :- CheckedSub(p.assets[o].value, value);
    Ok(p.(assets := Reweigh(MoveValues(p.assets, i, o, received, sent), p.nav)))
  }

  /** A fee-free trade moves value between two assets and changes nothing else. */
  lemma TradeKeepsWellFormed(p: Portfolio, inputToken: Token, outputToken: Token, v: nat)
    requires WellFormed(p) && ApplyTrade(p, inputToken, outputToken, v).Ok?
    ensures WellFormed(ApplyTrade(p, inputToken, outputToken, v).value)
    ensures ApplyTrade(p, inputToken, outputToken, v).value.nav == p.nav
  {
    hide SumValues, AssetIndex, Reweigh, MoveValues;
    if v != 0 {
      var i, o := AssetIndex(p.assets, inputToken).value, AssetIndex(p.assets, outputToken).value;
      var received: nat, sent: nat := p.assets[i].value + v, p.assets[o].value - v;
      SumAfterMove(p.assets, i, o, received, sent);
      var updated := MoveValues(p.assets, i, o, received, sent);
      SumDependsOnValues(updated, Reweigh(updated, p.nav));
    }
  }
}
