/**
 Concrete inputs on which a stronger claim about the solvers would be false.  Each shows that a
 hypothesis of a main result cannot be dropped.
 */
module Counterexamples {
  import opened Uint256
  import opened Wrappers
  import opened Portfolios
  import opened Constraints
  import opened Fees
  import opened FeeGrowth
  import opened Settlement
  import DirectSettlement
  import SafeFill
  import Search
  import Weights

  function ExampleAsset(token: Token, value: nat, nav: nat): Asset {
    Asset(token, value, 0, 1, 0, value, Weights.WeightUp(value, nav), 0, BASIS_POINTS)
  }

  function PairPortfolio(a: nat, b: nat): Portfolio {
    Portfolio(0, a + b, [ExampleAsset("a", a, a + b), ExampleAsset("b", b, a + b)])
  }

  function PairPolicy(minimumA: nat, maximumA: nat, cap: nat): Policy {
    Policy(cap, [AssetBound("a", minimumA, maximumA), AssetBound("b", 0, BASIS_POINTS)])
  }

  lemma SumOfTwo(x: Asset, y: Asset)
    ensures SumValues([x, y]) == x.value + y.value
  {
    assert [x, y][1..] == [y] && [y][1..] == [];
    assert SumValues([y]) == y.value;
  }

  lemma SumOfThree(x: Asset, y: Asset, z: Asset)
    ensures SumValues([x, y, z]) == x.value + y.value + z.value
  {
    assert [x, y, z][1..] == [y, z];
    SumOfTwo(y, z);
  }

  lemma RangesOfTwo(x: AssetBound, y: AssetBound)
    ensures SumMinimum([x, y]) == x.minimumWeightBps + y.minimumWeightBps
    ensures SumMaximum([x, y]) == x.maximumWeightBps + y.maximumWeightBps
  {
    assert [x, y][..1] == [x] && [x][..0] == [];
    assert SumMinimum([x]) == x.minimumWeightBps && SumMaximum([x]) == x.maximumWeightBps;
  }

  lemma RangesOfThree(x: AssetBound, y: AssetBound, z: AssetBound)
    ensures SumMinimum([x, y, z]) == x.minimumWeightBps + y.minimumWeightBps + z.minimumWeightBps
    ensures SumMaximum([x, y, z]) == x.maximumWeightBps + y.maximumWeightBps + z.maximumWeightBps
  {
    assert [x, y, z][..2] == [x, y];
    RangesOfTwo(x, y);
  }

  lemma TokensDiffer()
    ensures "a" != "b" && "b" != "c" && "a" != "c"
  {
    assert "a"[0] != "b"[0] && "b"[0] != "c"[0] && "a"[0] != "c"[0];
  }

  lemma PairFacts(a: nat, b: nat, minimumA: nat, maximumA: nat, cap: nat)
    requires 0 < a + b <= UINT256_MAX && minimumA <= maximumA <= BASIS_POINTS && cap <= UINT256_MAX
    ensures WellFormed(PairPortfolio(a, b)) && ValidPolicy(PairPolicy(minimumA, maximumA, cap))
    ensures AssetIndex(PairPortfolio(a, b).assets, "a") == Ok(0) && AssetIndex(PairPortfolio(a, b).assets, "b") == Ok(1)
    ensures PolicyBounds(PairPolicy(minimumA, maximumA, cap), "a") == Ok(Range(minimumA, maximumA))
    ensures PolicyBounds(PairPolicy(minimumA, maximumA, cap), "b") == Ok(Range(0, BASIS_POINTS))
    ensures Covers(PairPolicy(minimumA, maximumA, cap), PairPortfolio(a, b).assets)
  {
    hide SumValues, SumMinimum, SumMaximum, AssetIndex, BoundIndex, Weights.WeightUp;
    TokensDiffer();
    var assets, bounds := PairPortfolio(a, b).assets, PairPolicy(minimumA, maximumA, cap).assets;
    SumOfTwo(assets[0], assets[1]);
    RangesOfTwo(bounds[0], bounds[1]);
    assert assets[0].token == "a" && assets[1].token == "b" && bounds[0].token == "a" && bounds[1].token == "b";
  }

  /** An unsafe start from which the search answers 0 although `safe` is a safe fill in range. */
  ghost predicate UnsafeStartMisses(p: Portfolio, policy: Policy, requested: nat, safe: nat) {
    && SafeFill.Searchable(p, policy, "a", "b") && !WeightsSafe(p, policy)
    && safe <= SafeFill.Top(p, policy, "b", requested) && SafeFill.Fits(p, policy, "a", "b", safe)
    && Search.Bisect(SafeFill.FitsPredicate(p, policy, "a", "b"), 0, SafeFill.Top(p, policy, "b", requested)) == 0
  }

  /**
   A start outside the ranges can hide every safe fill: with 0 and 100 units and a 70-80% range for
   the input asset, fills 70 to 80 are safe but the search answers 0.
   */
  lemma UnsafeStartHidesSafeFill()
    ensures UnsafeStartMisses(PairPortfolio(0, 100), PairPolicy(7000, 8000, 100), 100, 75)
  {
    hide SumMinimum, SumMaximum, SumValues, PolicyBounds, AssetIndex, SafeFill.Fits, Search.Bisect;
    var p, policy := PairPortfolio(0, 100), PairPolicy(7000, 8000, 100);
    PairFacts(0, 100, 7000, 8000, 100);
    assert !AssetSafe(p.assets[0], p.nav, policy);
    forall v: nat | v <= 100
      ensures SafeFill.Fits(p, policy, "a", "b", v) <==> 70 <= v <= 80
    {
      PairFits(v);
    }
    var fits := SafeFill.FitsPredicate(p, policy, "a", "b");
    Search.BisectStep(fits, 0, 100);
    Search.BisectStops(fits, 0, 49);
  }

  lemma PairFits(v: nat)
    requires v <= 100
    ensures SafeFill.Fits(PairPortfolio(0, 100), PairPolicy(7000, 8000, 100), "a", "b", v) <==> 70 <= v <= 80
  {
    hide SumMinimum, SumMaximum, SumValues, PolicyBounds, AssetIndex, SafeFill.Fits, SafeFill.Probe;
    var p, policy := PairPortfolio(0, 100), PairPolicy(7000, 8000, 100);
    PairFacts(0, 100, 7000, 8000, 100);
    SafeFill.ProbeNeverFails(p, policy, "a", "b", v);
    SafeFill.FitsIff(p, policy, "a", "b", v);
    assert SafeFill.ValueAfter(p, 0, 1, v, 0) == v && SafeFill.ValueAfter(p, 0, 1, v, 1) == 100 - v;
  }

  // ----- A third asset at its minimum

  function TriplePortfolio(n: nat): Portfolio {
    Portfolio(0, 4 * n, [ExampleAsset("a", n, 4 * n), ExampleAsset("b", n, 4 * n), ExampleAsset("c", 2 * n, 4 * n)])
  }

  function TriplePolicy(cap: nat): Policy {
    Policy(cap, [AssetBound("a", 0, BASIS_POINTS), AssetBound("b", 0, BASIS_POINTS),
      AssetBound("c", 5000, BASIS_POINTS)])
  }

  /** One percent, all of it promised to solver and protocol in halves. */
  const EXTERNAL_FEE := FeeConfig(100, 0, 100, 0, 50, 50)

  function TripleMarket(n: nat): Market {
    Market(TriplePortfolio(n), TriplePolicy(n), EXTERNAL_FEE, "a", "b", 0, n)
  }

  lemma TriplePolicyFacts(n: nat)
    requires n <= UINT256_MAX
    ensures ValidPolicy(TriplePolicy(n))
    ensures PolicyBounds(TriplePolicy(n), "a") == Ok(Range(0, BASIS_POINTS))
    ensures PolicyBounds(TriplePolicy(n), "b") == Ok(Range(0, BASIS_POINTS))
    ensures PolicyBounds(TriplePolicy(n), "c") == Ok(Range(5000, BASIS_POINTS))
  {
    hide SumMinimum, SumMaximum, BoundIndex;
    TokensDiffer();
    var bounds := TriplePolicy(n).assets;
    RangesOfThree(bounds[0], bounds[1], bounds[2]);
    assert bounds[0].token == "a" && bounds[1].token == "b" && bounds[2].token == "c";
  }

  lemma TriplePortfolioFacts(n: nat)
    requires 0 < 4 * n <= UINT256_MAX
    ensures WellFormed(TriplePortfolio(n))
    ensures AssetIndex(TriplePortfolio(n).assets, "a") == Ok(0) && AssetIndex(TriplePortfolio(n).assets, "b") == Ok(1)
  {
    hide SumValues, AssetIndex, Weights.WeightUp;
    TokensDiffer();
    var assets := TriplePortfolio(n).assets;
    SumOfThree(assets[0], assets[1], assets[2]);
    assert assets[0].token == "a" && assets[1].token == "b" && assets[2].token == "c";
  }

  lemma TripleCoverage(n: nat)
    requires 0 < n && Representable(n)
    ensures Covers(TriplePolicy(n), TriplePortfolio(n).assets)
  {
    hide PolicyBounds, TriplePolicy, Weights.WeightUp;
    TriplePolicyFacts(n);
    var assets := TriplePortfolio(n).assets;
    assert assets[0].token == "a" && assets[1].token == "b" && assets[2].token == "c";
  }

  lemma TripleParts(n: nat)
    requires 0 < n && Representable(n)
    ensures WellFormed(TripleMarket(n).portfolio) && ValidPolicy(TripleMarket(n).policy)
      && Covers(TripleMarket(n).policy, TripleMarket(n).portfolio.assets)
    ensures AssetIndex(TripleMarket(n).portfolio.assets, TripleMarket(n).input).Ok?
      && AssetIndex(TripleMarket(n).portfolio.assets, TripleMarket(n).output).Ok?
  {
    hide WellFormed, ValidPolicy, Covers, PolicyBounds, AssetIndex, TriplePortfolio, TriplePolicy;
    TriplePolicyFacts(n);
    TriplePortfolioFacts(n);
    TripleCoverage(n);
  }

  lemma TripleTerms(n: nat)
    requires 0 < n && Representable(n)
    ensures ValidFee(TripleMarket(n).fee) && TripleMarket(n).consumed <= TripleMarket(n).baseline
      && Representable(TripleMarket(n).baseline)
  {
    hide TriplePortfolio, TriplePolicy;
  }

  lemma TripleIsReady(n: nat)
    requires 0 < n && Representable(n)
    ensures Ready(TripleMarket(n))
  {
    hide TripleMarket, WellFormed, ValidPolicy, Covers, ValidFee, AssetIndex;
    TripleParts(n);
    TripleTerms(n);
    TripleTokensDiffer(n);
  }

  lemma TripleTokensDiffer(n: nat)
    ensures TripleMarket(n).input != TripleMarket(n).output
  {
    TokensDiffer();
  }

  lemma TripleIsSafe(n: nat)
    requires 0 < n && Representable(n)
    ensures WeightsSafe(TriplePortfolio(n), TriplePolicy(n))
  {
    hide PolicyBounds, TriplePolicy, Weights.WeightUp;
    TriplePolicyFacts(n);
    var p := TriplePortfolio(n);
    assert p.assets[0].token == "a" && p.assets[1].token == "b" && p.assets[2].token == "c";
    assert AssetSafe(p.assets[0], p.nav, TriplePolicy(n)) && AssetSafe(p.assets[1], p.nav, TriplePolicy(n))
      && AssetSafe(p.assets[2], p.nav, TriplePolicy(n));
  }

  /** The treasury keeps one unit of a fee of one, but nothing of a fee of two. */
  lemma KeptOfExternalFee(consumed: nat, baseline: nat, v: nat)
    requires consumed + v <= baseline && 1 <= v <= 101
    ensures RetainedFee(EXTERNAL_FEE, consumed, baseline, v) == if v <= 100 then 1 else 0
  {
    hide Utilization, Premium, CeilDiv;
    PremiumWithoutSlope(Utilization(consumed, baseline), Utilization(consumed + v, baseline));
    OnePercentOf(v);
  }

  lemma PremiumWithoutSlope(u0: nat, u1: nat)
    ensures Premium(0, u0, u1) == 0
  {
    hide QuadraticSum;
    assert 0 * QuadraticSum(u0, u1) == 0;
  }

  lemma OnePercentOf(v: nat)
    requires 1 <= v <= 101
    ensures CeilDiv(v * (100 * FIXED_POINT_SCALE), RATE_SCALE) == if v <= 100 then 1 else 2
  {
    hide CeilDiv;
    var n := v * (100 * FIXED_POINT_SCALE);
    CeilDivLe(n, RATE_SCALE, if v <= 100 then 1 else 2);
    CeilDivLe(n, RATE_SCALE, if v <= 100 then 0 else 1);
  }

  /** A safe start and an acceptable request, yet the search finds nothing. */
  ghost predicate SearchMisses(m: Market, requested: nat) {
    && Settleable(m, requested) && WeightsSafe(m.portfolio, m.policy) && requested <= m.policy.maximumTransactionValue
    && Accepts(m, requested)
    && 0 == Search.Bisect(AcceptsPredicate(m), 0, requested) < requested
  }

  /**
   Without room on a third asset the greatest fill can be missed: from these safe portfolios a request
   of 101 could be executed in full, but every fill from 1 to 100 is refused and the search answers 0.
   */
  lemma TightMinimumHidesSafeFill(n: nat)
    requires 101 <= n && Representable(n)
    ensures SearchMisses(TripleMarket(n), 101)
  {
    hide Ready, WeightsSafe, AssetIndex, Accepts, Search.Bisect, CeilDiv;
    var m := TripleMarket(n);
    TripleIsReady(n);
    TriplePortfolioFacts(n);
    TripleIsSafe(n);
    CeilDivLe(101, 100, 2);
    forall v: nat | 1 <= v <= 101
      ensures Accepts(m, v) <==> v == 101
    {
      TripleAccepts(n, v);
    }
    var accepts := AcceptsPredicate(m);
    Search.BisectStep(accepts, 0, 101);
    Search.BisectStops(accepts, 0, 50);
  }

  lemma TripleAccepts(n: nat, v: nat)
    requires 1 <= v <= 101 <= n && Representable(n)
    ensures Accepts(TripleMarket(n), v) <==> v == 101
  {
    hide Ready, AssetIndex, Accepts, PolicyBounds, RetainedFee, Probe, CeilDiv, Weights.WeightUp;
    var m := TripleMarket(n);
    TripleIsReady(n);
    TriplePolicyFacts(n);
    TriplePortfolioFacts(n);
    CeilDivLe(101, 100, 2);
    KeptOfExternalFee(0, n, v);
    ProbeIff(m, 101, v);
    assert AssetHolds(m, v, 2) <==> v == 101;
    if v == 101 {
      assert AssetHolds(m, v, 0) && AssetHolds(m, v, 1);
    }
  }

  // ----- Selling the whole balance of a pair

  const NO_FEE := FeeConfig(0, 0, 0, 0, 0, 0)

  /** Half in either asset; the input asset's weight may rise to `maximum`. */
  function PairMarket(n: nat, fee: FeeConfig, maximum: nat): Market {
    Market(PairPortfolio(n, n), PairPolicy(0, maximum, 3 * n), fee, "a", "b", 0, 3 * n)
  }

  /** A flat fee that goes to the treasury alone. */
  ghost predicate FlatFee(fee: FeeConfig) {
    ValidFee(fee) && fee.slopeBps == 0 && fee.solverFeeBps == 0 && fee.protocolFeeBps == 0
  }

  lemma KeptOfFlatFee(fee: FeeConfig, consumed: nat, baseline: nat, v: nat)
    requires FlatFee(fee) && consumed + v <= baseline && 0 < v
    ensures RetainedFee(fee, consumed, baseline, v) >= 0
    ensures fee.baseFeeBps == 0 ==> RetainedFee(fee, consumed, baseline, v) == 0
    ensures fee.baseFeeBps > 0 ==> RetainedFee(fee, consumed, baseline, v) > 0
  {
    hide Utilization, Premium, CeilDiv;
    PremiumWithoutSlope(Utilization(consumed, baseline), Utilization(consumed + v, baseline));
    var rate: nat := fee.baseFeeBps * FIXED_POINT_SCALE;
    CeilDivLe(v * rate, RATE_SCALE, 0);
    if fee.baseFeeBps > 0 {
      MulStrict(0, v, rate);
    } else {
      assert v * 0 == 0;
    }
    assert BaseFee(fee, v) * 0 == 0;
  }

  /** The search finds a fill within every limit, and then reporting its constraint throws. */
  ghost predicate FillsThenThrows(m: Market, requested: nat) {
    && Ready(m) && 0 < DirectSettlement.SearchedFill(m, requested) == DirectSettlement.FillTop(m, requested)
    && DirectSettlement.ThrowsAfterSearch(m, DirectSettlement.SearchedFill(m, requested), requested)
  }

  /** The whole balance is sold, something is kept of one unit more, and that unit would still be acceptable. */
  ghost predicate SellsOutQuietly(m: Market, requested: nat) {
    && DirectSettlement.Orderly(m, requested) && DirectSettlement.SellsOut(m, requested)
    && 0 < DirectSettlement.KeptBeyond(m) && FillHolds(m, DirectSettlement.OutputBalance(m) + 1)
  }

  /** There is balance, cap and capacity; one unit is refused, but crosses no minimum. */
  ghost predicate StopsAtMaximum(m: Market, requested: nat) {
    && DirectSettlement.Orderly(m, requested) && 0 < requested && 0 < DirectSettlement.OutputBalance(m)
    && 0 < m.policy.maximumTransactionValue && m.consumed < m.baseline
    && !FillHolds(m, 1) && !DirectSettlement.UnitBreaksMinimum(m)
  }

  /** What matters of a pair market, without its names. */
  ghost predicate IsPair(m: Market, n: nat, fee: FeeConfig, maximum: nat) {
    && Ready(m) && m.fee == fee && m.consumed == 0 && m.baseline == 3 * n && m.policy.maximumTransactionValue == 3 * n
    && m.portfolio.nav == 2 * n && |m.portfolio.assets| == 2
    && AssetIndex(m.portfolio.assets, m.input) == Ok(0) && AssetIndex(m.portfolio.assets, m.output) == Ok(1)
    && m.portfolio.assets[0].value == m.portfolio.assets[1].value == n && BASIS_POINTS <= 2 * maximum
    && PolicyBounds(m.policy, m.portfolio.assets[0].token) == Ok(Range(0, maximum))
    && PolicyBounds(m.policy, m.portfolio.assets[1].token) == Ok(Range(0, BASIS_POINTS))
  }

  lemma PairMarketIsPair(n: nat, fee: FeeConfig, maximum: nat)
    requires 0 < n && Representable(3 * n) && ValidFee(fee) && maximum <= BASIS_POINTS <= 2 * maximum
    ensures IsPair(PairMarket(n, fee, maximum), n, fee, maximum)
  {
    hide Ready, AssetIndex, PolicyBounds, Representable, ValidFee, Weights.WeightUp;
    PairMarketIsReady(n, fee, maximum);
    PairMarketFacts(n, fee, maximum);
    assert PairMarket(n, fee, maximum).portfolio.assets[0].token == "a"
      && PairMarket(n, fee, maximum).portfolio.assets[1].token == "b";
  }

  /** A fill of the whole balance, or of one unit more when a fee is kept, leaves both assets in range. */
  lemma PairFillHolds(m: Market, n: nat, fee: FeeConfig, v: nat)
    requires IsPair(m, n, fee, BASIS_POINTS) && 0 < v <= 3 * n && 0 <= Kept(m, v) && v <= n + Kept(m, v)
    ensures FillHolds(m, v)
  {
    hide Ready, AssetIndex, PolicyBounds, RetainedFee;
    forall k | 0 <= k < 2
      ensures AssetHolds(m, v, k)
    {
    }
  }

  lemma PairIsOrderly(m: Market, n: nat, fee: FeeConfig, maximum: nat)
    requires IsPair(m, n, fee, maximum) && FlatFee(fee) && 0 < n
    ensures DirectSettlement.Orderly(m, 2 * n)
  {
    hide Ready, PolicyBounds, RetainedFee, CeilDiv, FillHolds, AssetIndex, FlatFee, GentleFill;
    PairIsSettleable(m, n, fee, maximum);
    FlatFeesAreGentle(fee, n);
    assert AssetSafe(m.portfolio.assets[0], m.portfolio.nav, m.policy)
      && AssetSafe(m.portfolio.assets[1], m.portfolio.nav, m.policy);
    assert DirectSettlement.FillTop(m, 2 * n) == n;
  }

  lemma PairIsSettleable(m: Market, n: nat, fee: FeeConfig, maximum: nat)
    requires IsPair(m, n, fee, maximum) && 0 < n
    ensures Settleable(m, n) && m.portfolio.nav + CeilDiv(n + 1, 100) + 1 <= UINT256_MAX
  {
    hide PolicyBounds, CeilDiv, SumValues, ValidPolicy, Covers, AssetIndex, WellFormed, ValidFee;
    CeilDivLe(n, 100, n);
    CeilDivLe(n + 1, 100, n + 1);
    PairHasRoom(m, n);
  }

  lemma FlatFeesAreGentle(fee: FeeConfig, v: nat)
    requires FlatFee(fee)
    ensures GentleFill(fee, v)
  {
    assert fee.slopeBps * v == 0;
  }

  lemma PairHasRoom(m: Market, n: nat)
    requires 0 < n && Representable(3 * n)
    ensures 3 * n + 2 <= UINT256_MAX
  {
  }

  lemma PairSellsOut(m: Market, n: nat, fee: FeeConfig)
    requires IsPair(m, n, fee, BASIS_POINTS) && FlatFee(fee) && 0 < n
    ensures DirectSettlement.SellsOut(m, 2 * n) && DirectSettlement.OutputBalance(m) == n
  {
    hide Ready, AssetIndex, PolicyBounds, RetainedFee, FillHolds, FlatFee;
    PairKept(m, n, fee, BASIS_POINTS, n);
    PairFillHolds(m, n, fee, n);
  }

  lemma PairKept(m: Market, n: nat, fee: FeeConfig, maximum: nat, v: nat)
    requires IsPair(m, n, fee, maximum) && FlatFee(fee) && 0 < v <= 3 * n
    ensures 0 <= Kept(m, v) && (fee.baseFeeBps == 0 ==> Kept(m, v) == 0) && (fee.baseFeeBps > 0 ==> 0 < Kept(m, v))
  {
    hide Ready, AssetIndex, PolicyBounds, RetainedFee, FlatFee;
    KeptOfFlatFee(fee, 0, 3 * n, v);
  }

  lemma NoFeeIsFlat()
    ensures FlatFee(NO_FEE)
  {
  }

  lemma HalfIsAWeight()
    ensures 5000 <= BASIS_POINTS <= 2 * 5000
  {
  }

  /** With no fee, a request for more than the whole output balance fills it and then throws while explaining why. */
  lemma WholeBalanceSaleThrows(n: nat)
    requires 0 < n && Representable(3 * n)
    ensures FillsThenThrows(PairMarket(n, NO_FEE, BASIS_POINTS), 2 * n)
  {
    hide *;
    NoFeeIsFlat();
    PairMarketIsPair(n, NO_FEE, BASIS_POINTS);
    PairSaleThrows(PairMarket(n, NO_FEE, BASIS_POINTS), n);
  }

  lemma PairSaleThrows(m: Market, n: nat)
    requires IsPair(m, n, NO_FEE, BASIS_POINTS) && 0 < n
    ensures FillsThenThrows(m, 2 * n)
  {
    hide Ready, AssetIndex, PolicyBounds, FillHolds, FlatFee, RetainedFee, DirectSettlement.Orderly,
      DirectSettlement.SellsOut, DirectSettlement.ThrowsAfterSearch, DirectSettlement.SearchedFill;
    NoFeeIsFlat();
    PairIsOrderly(m, n, NO_FEE, BASIS_POINTS);
    PairSellsOut(m, n, NO_FEE);
    PairKept(m, n, NO_FEE, BASIS_POINTS, n + 1);
    DirectSettlement.SellsOutIff(m, 2 * n);
    DirectSettlement.SettlementThrowsIff(m, 2 * n);
  }

  /**
   With any flat fee that goes to the treasury alone the same request sells the balance quietly, so that
   by `DirectSettlement.ReportsNoneIff` the partial fill is reported without any constraint.
   */
  lemma WholeBalanceSaleReportsNone(n: nat, fee: FeeConfig)
    requires 0 < n && Representable(3 * n) && FlatFee(fee) && 0 < fee.baseFeeBps
    ensures SellsOutQuietly(PairMarket(n, fee, BASIS_POINTS), 2 * n)
  {
    hide PairMarket, IsPair, SellsOutQuietly, Representable;
    PairMarketIsPair(n, fee, BASIS_POINTS);
    PairSellsQuietly(PairMarket(n, fee, BASIS_POINTS), n, fee);
  }

  lemma PairSellsQuietly(m: Market, n: nat, fee: FeeConfig)
    requires IsPair(m, n, fee, BASIS_POINTS) && 0 < n && FlatFee(fee) && 0 < fee.baseFeeBps
    ensures SellsOutQuietly(m, 2 * n)
  {
    hide Ready, AssetIndex, PolicyBounds, FillHolds, FlatFee, RetainedFee, DirectSettlement.Orderly,
      DirectSettlement.SellsOut;
    PairIsOrderly(m, n, fee, BASIS_POINTS);
    PairSellsOut(m, n, fee);
    PairKept(m, n, fee, BASIS_POINTS, n + 1);
    PairFillHolds(m, n, fee, n + 1);
  }

  /**
   With the input asset already at its maximum weight every fill is refused for that maximum.  The
   settlement fills nothing and reports MINIMUM_WEIGHT, although no minimum is in the way
   (`DirectSettlement.ZeroFillReportIff`).
   */
  lemma ZeroFillMisreported(n: nat)
    requires 0 < n && Representable(3 * n)
    ensures StopsAtMaximum(PairMarket(n, NO_FEE, 5000), 2 * n)
  {
    hide *;
    NoFeeIsFlat();
    HalfIsAWeight();
    PairMarketIsPair(n, NO_FEE, 5000);
    PairStopsAtMaximum(PairMarket(n, NO_FEE, 5000), n);
  }

  lemma PairStopsAtMaximum(m: Market, n: nat)
    requires IsPair(m, n, NO_FEE, 5000) && 0 < n
    ensures StopsAtMaximum(m, 2 * n)
  {
    hide Ready, AssetIndex, PolicyBounds, FlatFee, RetainedFee, DirectSettlement.Orderly;
    NoFeeIsFlat();
    PairIsOrderly(m, n, NO_FEE, 5000);
    PairKept(m, n, NO_FEE, 5000, 1);
    assert !AssetHolds(m, 1, 0);
  }

  lemma PairMarketParts(n: nat, fee: FeeConfig, maximum: nat)
    requires 0 < n && Representable(3 * n) && maximum <= BASIS_POINTS
    ensures WellFormed(PairMarket(n, fee, maximum).portfolio) && ValidPolicy(PairMarket(n, fee, maximum).policy)
      && Covers(PairMarket(n, fee, maximum).policy, PairMarket(n, fee, maximum).portfolio.assets)
    ensures AssetIndex(PairMarket(n, fee, maximum).portfolio.assets, "a").Ok?
      && AssetIndex(PairMarket(n, fee, maximum).portfolio.assets, "b").Ok?
  {
    hide WellFormed, ValidPolicy, Covers, PolicyBounds, AssetIndex, PairPortfolio, PairPolicy;
    PairFacts(n, n, 0, maximum, 3 * n);
  }

  lemma PairMarketIsReady(n: nat, fee: FeeConfig, maximum: nat)
    requires 0 < n && Representable(3 * n) && maximum <= BASIS_POINTS && ValidFee(fee)
    ensures Ready(PairMarket(n, fee, maximum))
  {
    hide WellFormed, ValidPolicy, Covers, ValidFee, AssetIndex, Representable, PairPortfolio, PairPolicy;
    PairMarketParts(n, fee, maximum);
    TokensDiffer();
  }

  lemma PairMarketFacts(n: nat, fee: FeeConfig, maximum: nat)
    requires 0 < n && Representable(3 * n) && maximum <= BASIS_POINTS
    ensures AssetIndex(PairMarket(n, fee, maximum).portfolio.assets, "a") == Ok(0)
      && AssetIndex(PairMarket(n, fee, maximum).portfolio.assets, "b") == Ok(1)
    ensures PolicyBounds(PairMarket(n, fee, maximum).policy, "a") == Ok(Range(0, maximum))
    ensures PolicyBounds(PairMarket(n, fee, maximum).policy, "b") == Ok(Range(0, BASIS_POINTS))
  {
    hide WellFormed, ValidPolicy, Covers, PolicyBounds, AssetIndex, PairPortfolio, PairPolicy;
    PairFacts(n, n, 0, maximum, 3 * n);
  }
}
