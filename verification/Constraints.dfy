/**
 Policies and the hard-constraint checker (packages/shared/src/financial.ts:295-330 and 633-682).
 The checking loops are methods; `ValidPolicy` and `WeightsSafe` say, without the loops and
 without the basis-point roundings, what they decide.
 */
module Constraints {
  import opened Uint256
  import opened Wrappers
  import opened Weights
  import opened Portfolios

  datatype AssetBound = AssetBound(token: Token, minimumWeightBps: int, maximumWeightBps: int)
  datatype Policy = Policy(maximumTransactionValue: int, assets: seq<AssetBound>)

  datatype Constraint =
    | NoConstraint
    | TransactionCap
    | AvailableBalance
    | CapacityExhausted
    | MinimumWeight
    | MaximumWeight
    | FeeExceedsOutputConstraint

  datatype Violation = Violation(constraint: Constraint, token: Option<Token>, actual: int, bound: int, excess: int)
  datatype Evaluation = Evaluation(safe: bool, bindingConstraint: Constraint, bindingAsset: Option<Token>,
    violations: seq<Violation>)

  // ----- Policies

  function SumMinimum(bounds: seq<AssetBound>): int {
    if bounds == [] then 0 else SumMinimum(bounds[..|bounds| - 1]) + bounds[|bounds| - 1].minimumWeightBps
  }

  function SumMaximum(bounds: seq<AssetBound>): int {
    if bounds == [] then 0 else SumMaximum(bounds[..|bounds| - 1]) + bounds[|bounds| - 1].maximumWeightBps
  }

  ghost predicate ValidBound(bound: AssetBound) {
    0 <= bound.minimumWeightBps <= bound.maximumWeightBps <= BASIS_POINTS
  }

  ghost predicate DistinctBounds(bounds: seq<AssetBound>) {
    forall i, j :: 0 <= i < j < |bounds| ==> bounds[i].token != bounds[j].token
  }

  /** A policy whose ranges can be met by some complete portfolio. */
  ghost predicate ValidPolicy(policy: Policy) {
    && DistinctBounds(policy.assets)
    && (forall i :: 0 <= i < |policy.assets| ==> ValidBound(policy.assets[i]))
    && SumMinimum(policy.assets) <= BASIS_POINTS <= SumMaximum(policy.assets)
    && 0 <= policy.maximumTransactionValue <= UINT256_MAX
  }

  method ValidatePolicy(policy: Policy) returns (valid: bool)
    ensures valid <==> ValidPolicy(policy)
  {
    var bounds := policy.assets;
    var seen: set<Token> := {};
    var minimumTotal, maximumTotal := 0, 0;
    for n := 0 to |bounds|
      invariant forall t :: t in seen <==> exists i :: 0 <= i < n && bounds[i].token == t
      invariant DistinctBounds(bounds[..n])
      invariant forall i :: 0 <= i < n ==> ValidBound(bounds[i])
      invariant minimumTotal == SumMinimum(bounds[..n]) && maximumTotal == SumMaximum(bounds[..n])
    {
      var bound := bounds[n];
      if bound.token in seen {
        return false;
      }
      seen := seen + {bound.token};
      if RequireBps(bound.minimumWeightBps).Err? || RequireBps(bound.maximumWeightBps).Err?
         || bound.minimumWeightBps > bound.maximumWeightBps {
        assert !ValidBound(bounds[n]);
        return false;
      }
      minimumTotal := minimumTotal + bound.minimumWeightBps;
      maximumTotal := maximumTotal + bound.maximumWeightBps;
      assert bounds[..n + 1][..n] == bounds[..n];
    }
    assert bounds[..|bounds|] == bounds;
    return minimumTotal <= BASIS_POINTS <= maximumTotal && ToUint256(policy.maximumTransactionValue).Ok?;
  }

  function BoundIndex(bounds: seq<AssetBound>, token: Token): (r: Checked<nat>)
    ensures r.Ok? ==> r.value < |bounds| && bounds[r.value].token == token
    ensures r.Ok? ==> forall j :: 0 <= j < r.value ==> bounds[j].token != token
    ensures r.Err? ==> r.error == UnmanagedAsset && forall j :: 0 <= j < |bounds| ==> bounds[j].token != token
  {
    if bounds == [] then Err(UnmanagedAsset)
    else if bounds[0].token == token then Ok(0)
    else
      var rest :- BoundIndex(bounds[1..], token);
      Ok(rest + 1)
  }

  datatype Range = Range(minimum: nat, maximum: nat)

  function PolicyBounds(policy: Policy, token: Token): Checked<Range> {
    var index :- BoundIndex(policy.assets, token);
    var minimum :- RequireBps(policy.assets[index].minimumWeightBps);
    var maximum :- RequireBps(policy.assets[index].maximumWeightBps);
    Ok(Range(minimum, maximum))
  }

  // ----- Evaluation

  /** The violations one asset reports: the lower bound is checked before the upper one. */
  function AssetViolations(asset: Asset, nav: nat, range: Range): seq<Violation> {
    (if asset.value < BpsOfUp(nav, range.minimum) then
       [Violation(MinimumWeight, Some(asset.token), WeightDown(asset.value, nav), range.minimum,
                  range.minimum - WeightDown(asset.value, nav))]
     else []) +
    (if asset.value > BpsOfDown(nav, range.maximum) then
       [Violation(MaximumWeight, Some(asset.token), asset.weightBps, range.maximum,
                  asset.weightBps - range.maximum)]
     else [])
  }

  function Violations(assets: seq<Asset>, nav: nat, policy: Policy): Checked<seq<Violation>> {
    if assets == [] then Ok([])
    else
      var before :- Violations(assets[..|assets| - 1], nav, policy);
      var range :- PolicyBounds(policy, assets[|assets| - 1].token);
      Ok(before + AssetViolations(assets[|assets| - 1], nav, range))
  }

  function CapViolations(amount: nat, cap: int): seq<Violation> {
    if amount > cap then [Violation(TransactionCap, None, amount, cap, amount - cap)] else []
  }

  function Summarize(violations: seq<Violation>): Evaluation {
    if violations == [] then Evaluation(true, NoConstraint, None, [])
    else Evaluation(false, violations[0].constraint, violations[0].token, violations)
  }

  ghost function Evaluate(p: Portfolio, policy: Policy, tradeValue: int): Checked<Evaluation> {
    if !ValidPolicy(policy) then Err(BadPolicy) else
    var amount :- ToUint256(tradeValue);
    var weights :- Violations(p.assets, p.nav, policy);
    Ok(Summarize(CapViolations(amount, policy.maximumTransactionValue) + weights))
  }

  /** The loop body: append what one asset violates. */
  method CheckAsset(asset: Asset, nav: nat, range: Range, before: seq<Violation>) returns (violations: seq<Violation>)
    ensures violations == before + AssetViolations(asset, nav, range)
  {
    violations := before;
    var minimumExposure := WeightBps(asset.value, nav, false);
    if asset.value < BpsOfUp(nav, range.minimum) {
      violations := violations + [Violation(MinimumWeight, Some(asset.token), minimumExposure, range.minimum,
                                            range.minimum - minimumExposure)];
    }
    if asset.value > BpsOfDown(nav, range.maximum) {
      violations := violations + [Violation(MaximumWeight, Some(asset.token), asset.weightBps, range.maximum,
                                            asset.weightBps - range.maximum)];
    }
  }

  method EvaluateConstraints(p: Portfolio, policy: Policy, tradeValue: int) returns (r: Checked<Evaluation>)
    ensures r == Evaluate(p, policy, tradeValue)
    ensures r.Ok? <==> ValidPolicy(policy) && 0 <= tradeValue <= UINT256_MAX && Covers(policy, p.assets)
    ensures r.Ok? ==> IsReport(r.value, p, policy, tradeValue)
  {
    hide IsReport, ValidPolicy, PolicyBounds, AssetViolations;
    if 0 <= tradeValue <= UINT256_MAX {
      EvaluateIff(p, policy, tradeValue);
      if Evaluate(p, policy, tradeValue).Ok? {
        EvaluationIsReport(p, policy, tradeValue);
      }
    }
    var valid := ValidatePolicy(policy);
    if !valid {
      return Err(BadPolicy);
    }
    var checked := ToUint256(tradeValue);
    if checked.Err? {
      return Err(checked.error);
    }
    var caps := CapViolations(checked.value, policy.maximumTransactionValue);
    var violations := caps;
    for n := 0 to |p.assets|
      invariant Violations(p.assets[..n], p.nav, policy).Ok?
      invariant violations == caps + Violations(p.assets[..n], p.nav, policy).value
    {
      assert p.assets[..n + 1][..n] == p.assets[..n];
      var range := PolicyBounds(policy, p.assets[n].token);
      if range.Err? {
        ViolationsFailOnPrefix(p.assets, n + 1, p.nav, policy);
        return Err(range.error);
      }
      violations := CheckAsset(p.assets[n], p.nav, range.value, violations);
    }
    assert p.assets[..|p.assets|] == p.assets;
    return Ok(Summarize(violations));
  }

  lemma {:induction false} ViolationsFailOnPrefix(assets: seq<Asset>, n: nat, nav: nat, policy: Policy)
    requires n <= |assets| && Violations(assets[..n], nav, policy).Err?
    ensures Violations(assets, nav, policy) == Violations(assets[..n], nav, policy)
    decreases |assets|
  {
    if n == |assets| {
      assert assets[..n] == assets;
    } else {
      var front := assets[..|assets| - 1];
      assert front[..n] == assets[..n];
      ViolationsFailOnPrefix(front, n, nav, policy);
    }
  }

  // ----- What safety means

  ghost predicate WithinRange(value: nat, nav: nat, range: Range) {
    range.minimum * nav <= BASIS_POINTS * value <= range.maximum * nav
  }

  ghost predicate AssetSafe(asset: Asset, nav: nat, policy: Policy) {
    var range := PolicyBounds(policy, asset.token);
    range.Ok? && WithinRange(asset.value, nav, range.value)
  }

  /** Every asset's share of NAV lies in its range, as an exact rational inequality. */
  ghost predicate WeightsSafe(p: Portfolio, policy: Policy) {
    forall i :: 0 <= i < |p.assets| ==> AssetSafe(p.assets[i], p.nav, policy)
  }

  ghost predicate Covers(policy: Policy, assets: seq<Asset>) {
    forall i :: 0 <= i < |assets| ==> PolicyBounds(policy, assets[i].token).Ok?
  }

  lemma CoversDependsOnTokens(policy: Policy, a: seq<Asset>, b: seq<Asset>)
    requires |a| == |b|
    requires forall k :: 0 <= k < |a| ==> a[k].token == b[k].token
    ensures Covers(policy, a) <==> Covers(policy, b)
  {
    assert forall k :: 0 <= k < |a| ==> PolicyBounds(policy, a[k].token) == PolicyBounds(policy, b[k].token);
  }

  lemma SafeIsCovered(p: Portfolio, policy: Policy)
    requires WeightsSafe(p, policy)
    ensures Covers(policy, p.assets)
  {
    forall i | 0 <= i < |p.assets|
      ensures PolicyBounds(policy, p.assets[i].token).Ok?
    {
      assert AssetSafe(p.assets[i], p.nav, policy);
    }
  }

  lemma AssetViolationsIff(asset: Asset, nav: nat, range: Range)
    ensures AssetViolations(asset, nav, range) == [] <==> WithinRange(asset.value, nav, range)
    ensures asset.value < BpsOfUp(nav, range.minimum) <==> BASIS_POINTS * asset.value < range.minimum * nav
    ensures asset.value > BpsOfDown(nav, range.maximum) <==> range.maximum * nav < BASIS_POINTS * asset.value
  {
    BpsOfUpWithin(nav, range.minimum, asset.value);
    BpsOfDownReaches(nav, range.maximum, asset.value);
  }

  lemma {:induction false} ViolationsIff(assets: seq<Asset>, nav: nat, policy: Policy)
    ensures Violations(assets, nav, policy).Ok? <==> Covers(policy, assets)
    ensures Violations(assets, nav, policy).Ok? ==>
              (Violations(assets, nav, policy).value == [] <==>
                 forall i :: 0 <= i < |assets| ==> AssetSafe(assets[i], nav, policy))
  {
    hide AssetViolations, PolicyBounds, WithinRange;
    if assets != [] {
      var front, last := assets[..|assets| - 1], assets[|assets| - 1];
      ViolationsIff(front, nav, policy);
      forall i | 0 <= i < |front|
        ensures front[i] == assets[i]
      {
      }
      if PolicyBounds(policy, last.token).Ok? {
        AssetViolationsIff(last, nav, PolicyBounds(policy, last.token).value);
      }
      assert Covers(policy, assets) <==> Covers(policy, front) && PolicyBounds(policy, last.token).Ok?;
    }
  }

  /**
   The checker fails only on a bad policy, amount or unmanaged asset, and calls safe exactly the portfolios within
   every range.
   */
  lemma EvaluateIff(p: Portfolio, policy: Policy, amount: nat)
    requires amount <= UINT256_MAX
    ensures Evaluate(p, policy, amount).Ok? <==> ValidPolicy(policy) && Covers(policy, p.assets)
    ensures Evaluate(p, policy, amount).Ok? ==>
              (Evaluate(p, policy, amount).value.safe <==>
                 amount <= policy.maximumTransactionValue && WeightsSafe(p, policy))
  {
    ViolationsIff(p.assets, p.nav, policy);
  }

  // ----- Which bounds are reported, and in what order

  /** The bounds a portfolio can cross, in the order of their ranks. */
  datatype Bound = Cap | Minimum(index: nat) | Maximum(index: nat)

  function Rank(b: Bound): nat {
    match b
    case Cap => 0
    case Minimum(k) => 2 * k + 1
    case Maximum(k) => 2 * k + 2
  }

  /** The trade exceeds the cap, or the exact share of an asset lies outside the named end of its range. */
  ghost predicate Crossed(p: Portfolio, policy: Policy, amount: int, b: Bound) {
    match b
    case Cap => policy.maximumTransactionValue < amount
    case Minimum(k) =>
      k < |p.assets| && PolicyBounds(policy, p.assets[k].token).Ok?
      && BASIS_POINTS * p.assets[k].value < PolicyBounds(policy, p.assets[k].token).value.minimum * p.nav
    case Maximum(k) =>
      k < |p.assets| && PolicyBounds(policy, p.assets[k].token).Ok?
      && PolicyBounds(policy, p.assets[k].token).value.maximum * p.nav < BASIS_POINTS * p.assets[k].value
  }

  function ConstraintOf(b: Bound): Constraint {
    match b
    case Cap => TransactionCap
    case Minimum(_) => MinimumWeight
    case Maximum(_) => MaximumWeight
  }

  function TokenOf(p: Portfolio, b: Bound): Option<Token>
    requires b.Cap? || b.index < |p.assets|
  {
    if b.Cap? then None else Some(p.assets[b.index].token)
  }

  /** The number a crossed bound is compared with, as the policy states it. */
  function BoundNumber(p: Portfolio, policy: Policy, b: Bound): int
    requires b.Cap? || (b.index < |p.assets| && PolicyBounds(policy, p.assets[b.index].token).Ok?)
  {
    match b
    case Cap => policy.maximumTransactionValue
    case Minimum(k) => PolicyBounds(policy, p.assets[k].token).value.minimum
    case Maximum(k) => PolicyBounds(policy, p.assets[k].token).value.maximum
  }

  /** The reported weight: the floored share below a minimum, the valuation's own weight above a maximum. */
  function ActualNumber(p: Portfolio, amount: int, b: Bound): int
    requires b.Cap? || b.index < |p.assets|
  {
    match b
    case Cap => amount
    case Minimum(k) => WeightDown(p.assets[k].value, p.nav)
    case Maximum(k) => p.assets[k].weightBps
  }

  /** The violation describes the crossed bound, and its excess is the distance to it. */
  ghost predicate Describes(v: Violation, p: Portfolio, policy: Policy, amount: int, b: Bound)
    requires Crossed(p, policy, amount, b)
  {
    var actual, bound := ActualNumber(p, amount, b), BoundNumber(p, policy, b);
    && v.constraint == ConstraintOf(b) && v.token == TokenOf(p, b) && v.actual == actual && v.bound == bound
    && v.excess == if b.Minimum? then bound - actual else actual - bound
  }

  ghost predicate InRankOrder(bounds: seq<Bound>) {
    forall i, j :: 0 <= i < j < |bounds| ==> Rank(bounds[i]) < Rank(bounds[j])
  }

  /** The violations describe these crossed bounds one by one. */
  ghost predicate DescribeAll(vs: seq<Violation>, bounds: seq<Bound>, p: Portfolio, policy: Policy, amount: int) {
    && |bounds| == |vs|
    && forall i :: 0 <= i < |bounds| ==>
         Crossed(p, policy, amount, bounds[i]) && Describes(vs[i], p, policy, amount, bounds[i])
  }

  /** The violations describe exactly the crossed bounds, each once and in rank order. */
  ghost predicate ListsCrossings(violations: seq<Violation>, bounds: seq<Bound>, p: Portfolio, policy: Policy,
    amount: int)
  {
    && InRankOrder(bounds) && DescribeAll(violations, bounds, p, policy, amount)
    && forall b :: Crossed(p, policy, amount, b) ==> b in bounds
  }

  /** No bound of lower rank is crossed. */
  ghost predicate IsFirstCrossed(p: Portfolio, policy: Policy, amount: int, b: Bound) {
    && Crossed(p, policy, amount, b)
    && forall other :: Crossed(p, policy, amount, other) ==> Rank(b) <= Rank(other)
  }

  /** The constraint and the asset are those of the first crossed bound. */
  ghost predicate BreaksFirst(p: Portfolio, policy: Policy, amount: int, constraint: Constraint, asset: Option<Token>) {
    exists b :: IsFirstCrossed(p, policy, amount, b) && constraint == ConstraintOf(b) && asset == TokenOf(p, b)
  }

  /** The binding constraint and asset are those of the first crossed bound; without one the portfolio is safe. */
  ghost predicate NamesFirst(e: Evaluation, p: Portfolio, policy: Policy, amount: int) {
    if e.safe then e.bindingConstraint == NoConstraint && e.bindingAsset == None
    else BreaksFirst(p, policy, amount, e.bindingConstraint, e.bindingAsset)
  }

  /** A report of every crossed bound, and of the first as the binding one. */
  ghost predicate IsReport(e: Evaluation, p: Portfolio, policy: Policy, amount: int) {
    && (exists bounds :: ListsCrossings(e.violations, bounds, p, policy, amount))
    && (e.safe <==> e.violations == []) && NamesFirst(e, p, policy, amount)
  }

  /** The crossed bounds of one asset. */
  ghost function CrossedAt(p: Portfolio, policy: Policy, amount: int, k: nat): seq<Bound> {
    (if Crossed(p, policy, amount, Minimum(k)) then [Minimum(k)] else [])
    + (if Crossed(p, policy, amount, Maximum(k)) then [Maximum(k)] else [])
  }

  /** The cap, if crossed, and the crossed bounds of the first n assets. */
  ghost function CrossedBelow(p: Portfolio, policy: Policy, amount: int, n: nat): seq<Bound> {
    if n == 0 then (if Crossed(p, policy, amount, Cap) then [Cap] else [])
    else CrossedBelow(p, policy, amount, n - 1) + CrossedAt(p, policy, amount, n - 1)
  }

  lemma CrossedAtIs(p: Portfolio, policy: Policy, amount: int, k: nat)
    ensures InRankOrder(CrossedAt(p, policy, amount, k))
    ensures forall b ::
              Crossed(p, policy, amount, b) && 2 * k < Rank(b) <= 2 * k + 2 <==> b in CrossedAt(p, policy, amount, k)
  {
    hide Crossed;
  }

  lemma ConcatInOrder(s: seq<Bound>, t: seq<Bound>, limit: nat)
    requires InRankOrder(s) && InRankOrder(t)
    requires (forall b :: b in s ==> Rank(b) <= limit) && forall b :: b in t ==> limit < Rank(b)
    ensures InRankOrder(s + t)
  {
    hide Rank;
    forall i, j | 0 <= i < j < |s + t|
      ensures Rank((s + t)[i]) < Rank((s + t)[j])
    {
      if i < |s| <= j {
        assert (s + t)[i] in s && (s + t)[j] in t;
      }
    }
  }

  lemma {:induction false} CrossedBelowIsComplete(p: Portfolio, policy: Policy, amount: int, n: nat)
    ensures InRankOrder(CrossedBelow(p, policy, amount, n))
    ensures forall b :: Crossed(p, policy, amount, b) && Rank(b) <= 2 * n <==> b in CrossedBelow(p, policy, amount, n)
  {
    hide Crossed, InRankOrder, CrossedAt;
    if n == 0 {
      OneInOrder();
    } else {
      CrossedBelowIsComplete(p, policy, amount, n - 1);
      CrossedAtIs(p, policy, amount, n - 1);
      ConcatInOrder(CrossedBelow(p, policy, amount, n - 1), CrossedAt(p, policy, amount, n - 1), 2 * (n - 1));
    }
  }

  lemma OneInOrder()
    ensures InRankOrder([]) && InRankOrder([Cap])
  {
  }

  lemma AssetViolationsDescribe(p: Portfolio, policy: Policy, amount: nat, k: nat)
    requires k < |p.assets| && PolicyBounds(policy, p.assets[k].token).Ok?
    ensures DescribeAll(AssetViolations(p.assets[k], p.nav, PolicyBounds(policy, p.assets[k].token).value),
              CrossedAt(p, policy, amount, k), p, policy, amount)
  {
    hide PolicyBounds, BpsOfUp, BpsOfDown, WeightDown;
    AssetViolationsIff(p.assets[k], p.nav, PolicyBounds(policy, p.assets[k].token).value);
  }

  lemma {:induction false} ViolationsDescribe(p: Portfolio, policy: Policy, amount: nat, n: nat)
    requires n <= |p.assets| && Violations(p.assets[..n], p.nav, policy).Ok?
    ensures DescribeAll(
              CapViolations(amount, policy.maximumTransactionValue) + Violations(p.assets[..n], p.nav, policy).value,
              CrossedBelow(p, policy, amount, n), p, policy, amount)
  {
    if n > 0 {
      hide Crossed, Describes, CrossedAt, AssetViolations, PolicyBounds, CapViolations;
      assert p.assets[..n][..n - 1] == p.assets[..n - 1];
      ViolationsDescribe(p, policy, amount, n - 1);
      AssetViolationsDescribe(p, policy, amount, n - 1);
    }
  }

  lemma CrossingsAreListed(p: Portfolio, policy: Policy, amount: nat)
    requires Violations(p.assets, p.nav, policy).Ok?
    ensures ListsCrossings(
              CapViolations(amount, policy.maximumTransactionValue) + Violations(p.assets, p.nav, policy).value,
              CrossedBelow(p, policy, amount, |p.assets|), p, policy, amount)
  {
    hide Crossed, DescribeAll, InRankOrder, CrossedBelow, Violations, CapViolations, Rank;
    assert p.assets[..|p.assets|] == p.assets;
    ViolationsDescribe(p, policy, amount, |p.assets|);
    CrossedBelowIsComplete(p, policy, amount, |p.assets|);
    forall b | Crossed(p, policy, amount, b)
      ensures b in CrossedBelow(p, policy, amount, |p.assets|)
    {
      RankWithin(p, policy, amount, b);
    }
  }

  lemma FirstIsNamed(violations: seq<Violation>, bounds: seq<Bound>, p: Portfolio, policy: Policy, amount: nat)
    requires ListsCrossings(violations, bounds, p, policy, amount) && violations != []
    ensures BreaksFirst(p, policy, amount, violations[0].constraint, violations[0].token)
  {
    hide Crossed, Rank;
    var first := bounds[0];
    assert IsFirstCrossed(p, policy, amount, first);
    CrossedIndex(p, policy, amount, first);
    assert Describes(violations[0], p, policy, amount, first);
  }

  lemma CrossedIndex(p: Portfolio, policy: Policy, amount: int, b: Bound)
    requires Crossed(p, policy, amount, b)
    ensures b.Cap? || (b.index < |p.assets| && PolicyBounds(policy, p.assets[b.index].token).Ok?)
  {
  }

  /** The checker reports exactly the crossed bounds, the cap first and the assets in portfolio order. */
  lemma EvaluationIsReport(p: Portfolio, policy: Policy, amount: nat)
    requires Evaluate(p, policy, amount).Ok?
    ensures IsReport(Evaluate(p, policy, amount).value, p, policy, amount)
  {
    hide ListsCrossings, Violations, ValidPolicy, CapViolations, BreaksFirst;
    CrossingsAreListed(p, policy, amount);
    var e := Evaluate(p, policy, amount).value;
    if !e.safe {
      FirstIsNamed(e.violations, CrossedBelow(p, policy, amount, |p.assets|), p, policy, amount);
    }
  }

  lemma RankWithin(p: Portfolio, policy: Policy, amount: int, b: Bound)
    requires Crossed(p, policy, amount, b)
    ensures Rank(b) <= 2 * |p.assets|
  {
  }

  /** On a well-formed portfolio the reported weights are the exact shares, rounded away from the bound. */
  lemma ReportedSharesAreExact(p: Portfolio, k: nat)
    requires WellFormed(p) && k < |p.assets|
    ensures ActualNumber(p, 0, Minimum(k)) == BASIS_POINTS * p.assets[k].value / p.nav
    ensures ActualNumber(p, 0, Maximum(k)) == CeilDiv(BASIS_POINTS * p.assets[k].value, p.nav)
  {
    ValueWithinSum(p.assets, k);
    WeightsAreExact(p.assets[k].value, p.nav);
  }

  /** The range of a token is the one a valid policy states for it. */
  lemma PolicyBoundsAreStated(policy: Policy, token: Token, range: Range)
    requires ValidPolicy(policy)
    ensures PolicyBounds(policy, token) == Ok(range)
       <==> AssetBound(token, range.minimum, range.maximum) in policy.assets
  {
    hide SumMinimum, SumMaximum, BoundIndex;
    var index := BoundIndex(policy.assets, token);
    if index.Ok? {
      assert ValidBound(policy.assets[index.value]);
    }
  }

  lemma AssetViolationsPositive(asset: Asset, nav: nat, range: Range)
    requires asset.value <= nav && asset.weightBps == WeightUp(asset.value, nav)
    requires range.minimum <= BASIS_POINTS && range.maximum <= BASIS_POINTS
    ensures forall v :: v in AssetViolations(asset, nav, range) ==> 0 < v.excess
  {
    AssetViolationsIff(asset, nav, range);
    WeightDownGe(asset.value, nav, range.minimum);
    if range.maximum < BASIS_POINTS {
      WeightUpLe(asset.value, nav, range.maximum);
    } else {
      assert range.maximum * nav == BASIS_POINTS * nav;
    }
  }

  lemma {:induction false} ViolationsArePositive(p: Portfolio, policy: Policy, n: nat)
    requires WellFormed(p) && ValidPolicy(policy) && n <= |p.assets|
    requires Violations(p.assets[..n], p.nav, policy).Ok?
    ensures forall v :: v in Violations(p.assets[..n], p.nav, policy).value ==> 0 < v.excess
  {
    if n > 0 {
      var last := p.assets[n - 1];
      assert p.assets[..n][..n - 1] == p.assets[..n - 1];
      ViolationsArePositive(p, policy, n - 1);
      var range := PolicyBounds(policy, last.token).value;
      ValueWithinSum(p.assets, n - 1);
      AssetViolationsPositive(last, p.nav, range);
    }
  }

  /** For a well-formed portfolio every reported excess is strictly positive, although both numbers are rounded. */
  lemma ExcessIsPositive(p: Portfolio, policy: Policy, amount: nat)
    requires amount <= UINT256_MAX && WellFormed(p) && Evaluate(p, policy, amount).Ok?
    ensures forall v :: v in Evaluate(p, policy, amount).value.violations ==> 0 < v.excess
  {
    assert p.assets[..|p.assets|] == p.assets;
    ViolationsArePositive(p, policy, |p.assets|);
  }
}
