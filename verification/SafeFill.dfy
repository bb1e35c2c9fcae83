/**
 `findMaximumSafeFill` and the binding constraint it reports
 (packages/shared/src/financial.ts:692-764).
 */
module SafeFill {
  import opened Uint256
  import opened Wrappers
  import opened Portfolios
  import opened Constraints
  import Search
  import Weights

  datatype Binding = Binding(constraint: Constraint, asset: Option<Token>)
  datatype SafeFillResult = SafeFillResult(
    requested: nat, maximumSafeFill: nat, bindingConstraint: Constraint, bindingAsset: Option<Token>,
    postTrade: Portfolio)

  /** One probe of the search: trade v, then check every constraint. */
  ghost function Probe(p: Portfolio, policy: Policy, input: Token, output: Token, v: nat): Checked<Evaluation> {
    var post :- ApplyTrade(p, input, output, v);
    Evaluate(post, policy, v)
  }

  ghost predicate Fits(p: Portfolio, policy: Policy, input: Token, output: Token, v: nat) {
    var probe := Probe(p, policy, input, output, v);
    probe.Ok? && probe.value.safe
  }

  ghost function FitsPredicate(p: Portfolio, policy: Policy, input: Token, output: Token): nat -> bool {
    (v: nat) => Fits(p, policy, input, output, v)
  }

  /** The search range: the request, the per-trade cap and the output balance. */
  function SearchTop(requested: nat, cap: nat, outputValue: nat): nat {
    Min(Min(requested, cap), outputValue)
  }

  ghost function Top(p: Portfolio, policy: Policy, output: Token, requested: int): nat
    requires 0 <= requested && 0 <= policy.maximumTransactionValue && AssetIndex(p.assets, output).Ok?
  {
    SearchTop(requested, policy.maximumTransactionValue, p.assets[AssetIndex(p.assets, output).value].value)
  }

  /** The portfolio and order are ones for which no checked operation of the search can fail. */
  ghost predicate Searchable(p: Portfolio, policy: Policy, input: Token, output: Token) {
    && WellFormed(p) && ValidPolicy(policy) && Covers(policy, p.assets)
    && input != output && AssetIndex(p.assets, input).Ok? && AssetIndex(p.assets, output).Ok?
  }

  // ----- The fitting values form an interval

  function ValueAfter(p: Portfolio, i: nat, o: nat, v: nat, k: nat): int
    requires k < |p.assets|
  {
    if k == i then p.assets[k].value + v else if k == o then p.assets[k].value - v else p.assets[k].value
  }

  /** The trade succeeds exactly when both sides stay in range, and it moves only the two values. */
  lemma TradeShape(p: Portfolio, input: Token, output: Token, v: nat)
    requires input != output && AssetIndex(p.assets, input).Ok? && AssetIndex(p.assets, output).Ok?
    requires v <= UINT256_MAX
    ensures var i, o := AssetIndex(p.assets, input).value, AssetIndex(p.assets, output).value;
            var post := ApplyTrade(p, input, output, v);
            && (post.Ok? <==> (v > 0 ==> p.assets[i].value + v <= UINT256_MAX && v <= p.assets[o].value))
            && (post.Ok? ==>
                  && post.value.nav == p.nav && post.value.valueDecimals == p.valueDecimals
                  && |post.value.assets| == |p.assets|
                  && forall k :: 0 <= k < |p.assets| ==>
                       && post.value.assets[k].value == ValueAfter(p, i, o, v, k)
                       && post.value.assets[k]
                          == p.assets[k].(value := post.value.assets[k].value,
                                          weightBps := post.value.assets[k].weightBps))
    ensures 0 < v && ApplyTrade(p, input, output, v).Ok? ==>
              forall k :: 0 <= k < |p.assets| ==>
                var asset := ApplyTrade(p, input, output, v).value.assets[k];
                asset.weightBps == Weights.WeightUp(asset.value, p.nav)
  {
    hide AssetIndex, Weights.WeightUp;
  }

  /** The exact rational inequalities a candidate fill must meet. */
  ghost predicate RangesHold(p: Portfolio, policy: Policy, i: nat, o: nat, v: nat)
    requires Covers(policy, p.assets)
  {
    forall k :: 0 <= k < |p.assets| ==>
      && ValueAfter(p, i, o, v, k) >= 0
      && WithinRange(ValueAfter(p, i, o, v, k), p.nav, PolicyBounds(policy, p.assets[k].token).value)
  }

  lemma FitsIff(p: Portfolio, policy: Policy, input: Token, output: Token, v: nat)
    requires input != output && AssetIndex(p.assets, input).Ok? && AssetIndex(p.assets, output).Ok?
    requires v <= UINT256_MAX
    ensures Probe(p, policy, input, output, v).Ok? <==>
              && ValidPolicy(policy) && Covers(policy, p.assets) && ApplyTrade(p, input, output, v).Ok?
    ensures Probe(p, policy, input, output, v).Ok? ==>
              (Fits(p, policy, input, output, v) <==>
                 && v <= policy.maximumTransactionValue
                 && RangesHold(p, policy, AssetIndex(p.assets, input).value, AssetIndex(p.assets, output).value, v))
  {
    hide ApplyTrade, Evaluate, ValidPolicy, AssetIndex, PolicyBounds;
    var i, o := AssetIndex(p.assets, input).value, AssetIndex(p.assets, output).value;
    TradeShape(p, input, output, v);
    if ApplyTrade(p, input, output, v).Ok? {
      var post := ApplyTrade(p, input, output, v).value;
      CoversDependsOnTokens(policy, post.assets, p.assets);
      EvaluateIff(post, policy, v);
      if Covers(policy, p.assets) {
        forall k | 0 <= k < |p.assets|
          ensures AssetSafe(post.assets[k], post.nav, policy) <==>
                    ValueAfter(p, i, o, v, k) >= 0
                      && WithinRange(ValueAfter(p, i, o, v, k), p.nav, PolicyBounds(policy, p.assets[k].token).value)
        {
        }
      }
    }
  }

  lemma WithinRangeBetween(a: nat, b: nat, c: nat, nav: nat, range: Range)
    requires a <= b <= c || c <= b <= a
    requires WithinRange(a, nav, range) && WithinRange(c, nav, range)
    ensures WithinRange(b, nav, range)
  {
  }

  /** Weight ranges are linear in the fill while NAV is fixed, so what fits is an interval. */
  lemma FitsIsInterval(p: Portfolio, policy: Policy, input: Token, output: Token, top: nat)
    requires input != output && AssetIndex(p.assets, input).Ok? && AssetIndex(p.assets, output).Ok?
    requires top <= UINT256_MAX
    ensures Search.IsInterval(FitsPredicate(p, policy, input, output), top)
  {
    var i, o := AssetIndex(p.assets, input).value, AssetIndex(p.assets, output).value;
    forall u: nat, v: nat, w: nat
      | u <= v <= w <= top && Fits(p, policy, input, output, u) && Fits(p, policy, input, output, w)
      ensures Fits(p, policy, input, output, v)
    {
      FitsIff(p, policy, input, output, u);
      FitsIff(p, policy, input, output, v);
      FitsIff(p, policy, input, output, w);
      TradeShape(p, input, output, v);
      TradeShape(p, input, output, w);
      forall k | 0 <= k < |p.assets|
        ensures ValueAfter(p, i, o, v, k) >= 0
        ensures WithinRange(ValueAfter(p, i, o, v, k), p.nav, PolicyBounds(policy, p.assets[k].token).value)
      {
        WithinRangeBetween(ValueAfter(p, i, o, u, k), ValueAfter(p, i, o, v, k), ValueAfter(p, i, o, w, k),
                           p.nav, PolicyBounds(policy, p.assets[k].token).value);
      }
    }
  }

  /** No checked operation fails at any candidate the search may visit. */
  lemma ProbeNeverFails(p: Portfolio, policy: Policy, input: Token, output: Token, v: nat)
    requires Searchable(p, policy, input, output)
    requires v <= p.assets[AssetIndex(p.assets, output).value].value
    ensures Probe(p, policy, input, output, v).Ok?
  {
    var i, o := AssetIndex(p.assets, input).value, AssetIndex(p.assets, output).value;
    TwoValuesWithinSum(p.assets, i, o);
    TradeShape(p, input, output, v);
    FitsIff(p, policy, input, output, v);
  }

  lemma FitsAtZeroIff(p: Portfolio, policy: Policy, input: Token, output: Token)
    requires ValidPolicy(policy)
    ensures Fits(p, policy, input, output, 0) <==> Covers(policy, p.assets) && WeightsSafe(p, policy)
  {
    EvaluateIff(p, policy, 0);
  }

  // ----- The binding constraint

  ghost function FirstUnsafeBinding(p: Portfolio, policy: Policy, input: Token, output: Token, safeFill: nat,
    requested: nat): Checked<Binding>
  {
    var cap :- ToUint256(policy.maximumTransactionValue);
    if safeFill == cap && requested > cap then Ok(Binding(TransactionCap, None)) else
    var o :- AssetIndex(p.assets, output);
    if safeFill == p.assets[o].value && requested > p.assets[o].value
    then Ok(Binding(AvailableBalance, Some(p.assets[o].token)))
    else if safeFill + 1 > p.assets[o].value then Ok(Binding(AvailableBalance, Some(p.assets[o].token)))
    else
      var unsafe :- Probe(p, policy, input, output, safeFill + 1);
      Ok(Binding(unsafe.bindingConstraint, unsafe.bindingAsset))
  }

  method FindFirstUnsafeBinding(p: Portfolio, policy: Policy, input: Token, output: Token, safeFill: nat,
    requested: nat)
    returns (r: Checked<Binding>)
    ensures r == FirstUnsafeBinding(p, policy, input, output, safeFill, requested)
  {
    var cap :- ToUint256(policy.maximumTransactionValue);
    if safeFill == cap && requested > cap {
      return Ok(Binding(TransactionCap, None));
    }
    var o :- AssetIndex(p.assets, output);
    if safeFill == p.assets[o].value && requested > p.assets[o].value {
      return Ok(Binding(AvailableBalance, Some(p.assets[o].token)));
    }
    if safeFill + 1 > p.assets[o].value {
      return Ok(Binding(AvailableBalance, Some(p.assets[o].token)));
    }
    var post :- ApplyTrade(p, input, output, safeFill + 1);
    var unsafe :- EvaluateConstraints(post, policy, safeFill + 1);
    return Ok(Binding(unsafe.bindingConstraint, unsafe.bindingAsset));
  }

  /** The reported constraint explains why one more unit is refused. */
  ghost predicate Explains(b: Binding, p: Portfolio, policy: Policy, input: Token, output: Token, fill: nat,
    requested: nat)
  {
    if b.constraint == NoConstraint then fill == requested && b.asset == None
    else if b.constraint == TransactionCap then fill == policy.maximumTransactionValue < requested && b.asset == None
    else if b.constraint == AvailableBalance then
      && AssetIndex(p.assets, output).Ok?
      && fill == p.assets[AssetIndex(p.assets, output).value].value < requested
      && fill != policy.maximumTransactionValue && b.asset == Some(output)
    else fill < requested && BreaksNext(b, p, policy, input, output, fill + 1)
  }

  /** The next unit trades, and the first bound its portfolio crosses is the named range of the named asset. */
  ghost predicate BreaksNext(b: Binding, p: Portfolio, policy: Policy, input: Token, output: Token, next: nat) {
    && (b.constraint == MinimumWeight || b.constraint == MaximumWeight)
    && ApplyTrade(p, input, output, next).Ok?
    && BreaksFirst(ApplyTrade(p, input, output, next).value, policy, next, b.constraint, b.asset)
  }

  /** An unsafe next unit within the cap breaks the first reported weight range. */
  lemma UnsafeNextUnitBreaks(p: Portfolio, policy: Policy, input: Token, output: Token, v: nat)
    requires Searchable(p, policy, input, output) && v <= policy.maximumTransactionValue
    requires v <= p.assets[AssetIndex(p.assets, output).value].value
    requires !Fits(p, policy, input, output, v)
    ensures Probe(p, policy, input, output, v).Ok?
    ensures var e := Probe(p, policy, input, output, v).value;
            BreaksNext(Binding(e.bindingConstraint, e.bindingAsset), p, policy, input, output, v)
  {
    hide ApplyTrade, Evaluate, Searchable;
    ProbeNeverFails(p, policy, input, output, v);
    EvaluationIsReport(ApplyTrade(p, input, output, v).value, policy, v);
  }

  lemma BindingExplainsStop(p: Portfolio, policy: Policy, input: Token, output: Token, fill: nat, requested: nat)
    requires Searchable(p, policy, input, output) && requested <= UINT256_MAX
    requires var top := Top(p, policy, output, requested);
             && fill <= top && fill < requested
             && (fill < top ==> !Fits(p, policy, input, output, fill + 1))
    ensures var b := FirstUnsafeBinding(p, policy, input, output, fill, requested);
            b.Ok? && b.value.constraint != NoConstraint && Explains(b.value, p, policy, input, output, fill, requested)
  {
    hide ApplyTrade, Evaluate, BreaksFirst, Fits;
    var outputValue := p.assets[AssetIndex(p.assets, output).value].value;
    var b := FirstUnsafeBinding(p, policy, input, output, fill, requested);
    if fill == policy.maximumTransactionValue {
      assert b == Ok(Binding(TransactionCap, None));
    } else if fill == outputValue {
      assert b == Ok(Binding(AvailableBalance, Some(output)));
    } else {
      UnsafeNextUnitBreaks(p, policy, input, output, fill + 1);
      var e := Probe(p, policy, input, output, fill + 1).value;
      assert b == Ok(Binding(e.bindingConstraint, e.bindingAsset));
    }
  }

  lemma ProbeOkWhenSearchable(p: Portfolio, policy: Policy, input: Token, output: Token, v: nat)
    requires AssetIndex(p.assets, output).Ok? && v <= p.assets[AssetIndex(p.assets, output).value].value
    ensures Searchable(p, policy, input, output) ==> Probe(p, policy, input, output, v).Ok?
  {
    if Searchable(p, policy, input, output) {
      ProbeNeverFails(p, policy, input, output, v);
    }
  }

  lemma NothingFitsWithoutPair(p: Portfolio, policy: Policy, input: Token, output: Token, v: nat)
    requires 0 < v && (input == output || AssetIndex(p.assets, input).Err?)
    ensures !Fits(p, policy, input, output, v)
  {
  }

  /** What the loop's answer means, for every portfolio whose probes did not fail. */
  lemma SearchIsSound(p: Portfolio, policy: Policy, input: Token, output: Token, requested: nat)
    requires ValidPolicy(policy) && requested <= UINT256_MAX && AssetIndex(p.assets, output).Ok?
    ensures var top := Top(p, policy, output, requested);
            var fill := Search.Bisect(FitsPredicate(p, policy, input, output), 0, top);
            && fill <= top
            && (fill < top ==> !Fits(p, policy, input, output, fill + 1))
            && (Fits(p, policy, input, output, 0) || 0 < fill ==>
              Search.IsGreatest(FitsPredicate(p, policy, input, output), top, fill))
  {
    hide Probe, ApplyTrade;
    var fits := FitsPredicate(p, policy, input, output);
    var top := Top(p, policy, output, requested);
    Search.BisectStops(fits, 0, top);
    if input != output && AssetIndex(p.assets, input).Ok? {
      FitsIsInterval(p, policy, input, output, top);
      if Fits(p, policy, input, output, 0) || 0 < Search.Bisect(fits, 0, top) {
        Search.BisectGreatestInInterval(fits, top);
      }
    } else {
      forall v: nat | v > 0
        ensures !Fits(p, policy, input, output, v)
      {
        NothingFitsWithoutPair(p, policy, input, output, v);
      }
    }
  }

  // ----- The search

  lemma TradeNeedsPair(p: Portfolio, input: Token, output: Token, v: nat)
    requires 0 < v && ApplyTrade(p, input, output, v).Ok?
    ensures input != output && AssetIndex(p.assets, input).Ok? && AssetIndex(p.assets, output).Ok?
  {
  }

  /** The orders on a well-formed portfolio that the solver answers at all. */
  ghost predicate Answerable(p: Portfolio, policy: Policy, input: Token, output: Token, requested: int) {
    && 0 <= requested <= UINT256_MAX && ValidPolicy(policy) && Covers(policy, p.assets)
    && AssetIndex(p.assets, output).Ok?
    && (Top(p, policy, output, requested) == 0 || (input != output && AssetIndex(p.assets, input).Ok?))
  }

  method SearchFill(p: Portfolio, policy: Policy, input: Token, output: Token, top: nat) returns (r: Checked<nat>)
    requires AssetIndex(p.assets, output).Ok? && top <= p.assets[AssetIndex(p.assets, output).value].value
    ensures Searchable(p, policy, input, output) || top == 0 ==> r.Ok?
    ensures r.Ok? && 0 < top ==> input != output && AssetIndex(p.assets, input).Ok?
    ensures r.Ok? ==> r.value == Search.Bisect(FitsPredicate(p, policy, input, output), 0, top)
  {
    hide ApplyTrade, Evaluate, Searchable, Search.Bisect;
    ghost var fits := FitsPredicate(p, policy, input, output);
    var low: nat, high: nat := 0, top;
    while low < high
      invariant low <= high <= top
      invariant Search.Bisect(fits, low, high) == Search.Bisect(fits, 0, top)
      invariant high < top || 0 < low ==> input != output && AssetIndex(p.assets, input).Ok?
    {
      var mid: nat := (low + high + 1) / 2;
      ProbeOkWhenSearchable(p, policy, input, output, mid);
      Search.BisectStep(fits, low, high);
      var post :- ApplyTrade(p, input, output, mid);
      TradeNeedsPair(p, input, output, mid);
      var evaluation :- EvaluateConstraints(post, policy, mid);
      if evaluation.safe {
        low := mid;
      } else {
        high := mid - 1;
      }
    }
    Search.BisectDone(fits, low);
    return Ok(low);
  }

  /**
   The fill is the search's answer; it is in range and trades; one more unit is out of range or unsafe; and from a safe
   portfolio, or whenever something was found, nothing larger in range is safe.
   */
  ghost predicate IsMaximumSafeFill(p: Portfolio, policy: Policy, input: Token, output: Token, requested: int,
    r: SafeFillResult)
  {
    && 0 <= requested && 0 <= policy.maximumTransactionValue && AssetIndex(p.assets, output).Ok?
    && var top := Top(p, policy, output, requested);
    && r.requested == requested && r.maximumSafeFill <= top
    && r.maximumSafeFill == Search.Bisect(FitsPredicate(p, policy, input, output), 0, top)
    && ApplyTrade(p, input, output, r.maximumSafeFill) == Ok(r.postTrade)
    && (r.maximumSafeFill < top ==> !Fits(p, policy, input, output, r.maximumSafeFill + 1))
    && (WeightsSafe(p, policy) || 0 < r.maximumSafeFill ==>
          Search.IsGreatest(FitsPredicate(p, policy, input, output), top, r.maximumSafeFill))
  }

  /** The asset of the first bound the portfolio crosses, or none if it crosses none. */
  ghost predicate IsFirstCrossedAsset(p: Portfolio, policy: Policy, amount: nat, asset: Option<Token>) {
    if forall b :: !Crossed(p, policy, amount, b) then asset == None
    else exists b :: IsFirstCrossed(p, policy, amount, b) && asset == TokenOf(p, b)
  }

  /**
   The reported constraint is NONE exactly for a complete fill, and otherwise explains the stop.  When it
   carries no asset of its own, the reported asset is the first one the result leaves out of range.
   */
  ghost predicate BindingIsExplained(p: Portfolio, policy: Policy, input: Token, output: Token, requested: nat,
    r: SafeFillResult)
  {
    && (r.bindingConstraint == NoConstraint <==> r.maximumSafeFill == requested)
    && exists asset ::
         && Explains(Binding(r.bindingConstraint, asset), p, policy, input, output, r.maximumSafeFill, requested)
         && if asset.Some? then r.bindingAsset == asset
            else IsFirstCrossedAsset(r.postTrade, policy, r.maximumSafeFill, r.bindingAsset)
  }

  lemma FoundFillIsMaximum(p: Portfolio, policy: Policy, input: Token, output: Token, requested: nat, r: SafeFillResult)
    requires ValidPolicy(policy) && requested <= UINT256_MAX && AssetIndex(p.assets, output).Ok?
    requires r.requested == requested && ApplyTrade(p, input, output, r.maximumSafeFill) == Ok(r.postTrade)
    requires r.maximumSafeFill
      == Search.Bisect(FitsPredicate(p, policy, input, output), 0, Top(p, policy, output, requested))
    ensures IsMaximumSafeFill(p, policy, input, output, requested, r)
  {
    hide ApplyTrade, Probe, WeightsSafe, Covers, Search.Bisect, Search.IsGreatest;
    SearchIsSound(p, policy, input, output, requested);
    if WeightsSafe(p, policy) {
      SafeIsCovered(p, policy);
      FitsAtZeroIff(p, policy, input, output);
    }
  }

  /** A trade keeps the tokens, so its evaluation succeeds exactly when the policy manages every asset. */
  lemma TradedIsEvaluated(p: Portfolio, policy: Policy, input: Token, output: Token, v: nat)
    requires ValidPolicy(policy) && v <= UINT256_MAX && ApplyTrade(p, input, output, v).Ok?
    ensures Evaluate(ApplyTrade(p, input, output, v).value, policy, v).Ok? <==> Covers(policy, p.assets)
  {
    hide Evaluate, ValidPolicy, Covers;
    EvaluateIff(ApplyTrade(p, input, output, v).value, policy, v);
    CoversDependsOnTokens(policy, ApplyTrade(p, input, output, v).value.assets, p.assets);
  }

  /** With nothing to search, the cap or the balance is zero and is reported. */
  lemma NothingToSearch(p: Portfolio, policy: Policy, input: Token, output: Token, requested: nat)
    requires ValidPolicy(policy) && AssetIndex(p.assets, output).Ok? && Top(p, policy, output, requested) == 0
    ensures ApplyTrade(p, input, output, 0) == Ok(p)
    ensures 0 < requested ==> FirstUnsafeBinding(p, policy, input, output, 0, requested).Ok?
  {
    hide AssetIndex, Probe;
  }

  lemma NamedIsFirstCrossed(e: Evaluation, p: Portfolio, policy: Policy, amount: nat)
    requires IsReport(e, p, policy, amount)
    ensures IsFirstCrossedAsset(p, policy, amount, e.bindingAsset)
  {
    hide Crossed, DescribeAll;
    var bounds :| ListsCrossings(e.violations, bounds, p, policy, amount);
    if e.safe {
      forall b
        ensures !Crossed(p, policy, amount, b)
      {
        assert Crossed(p, policy, amount, b) ==> b in bounds;
        NothingListed(e.violations, bounds, p, policy, amount);
      }
    }
  }

  lemma NothingListed(violations: seq<Violation>, bounds: seq<Bound>, p: Portfolio, policy: Policy, amount: int)
    requires ListsCrossings(violations, bounds, p, policy, amount)
    ensures violations == [] ==> bounds == []
  {
    hide Crossed;
  }

  /** The part of the solver after its loop: value the result and say what stopped it. */
  method Conclude(p: Portfolio, policy: Policy, input: Token, output: Token, requested: nat, low: nat)
    returns (r: Checked<SafeFillResult>)
    requires ValidPolicy(policy) && requested <= UINT256_MAX && AssetIndex(p.assets, output).Ok?
    requires low == Search.Bisect(FitsPredicate(p, policy, input, output), 0, Top(p, policy, output, requested))
    ensures Searchable(p, policy, input, output) ==>
              r.Ok? && BindingIsExplained(p, policy, input, output, requested, r.value)
    ensures r.Ok? ==> IsMaximumSafeFill(p, policy, input, output, requested, r.value) && Covers(policy, p.assets)
    ensures Covers(policy, p.assets) && Top(p, policy, output, requested) == 0 ==> r.Ok?
  {
    hide IsMaximumSafeFill, Evaluate, IsReport, ApplyTrade, FirstUnsafeBinding, Searchable, Covers, ValidPolicy,
      Search.IsGreatest, Fits, BreaksNext, AssetIndex, IsFirstCrossedAsset;
    if Top(p, policy, output, requested) == 0 {
      NothingToSearch(p, policy, input, output, requested);
    }
    SearchIsSound(p, policy, input, output, requested);
    if ApplyTrade(p, input, output, low).Ok? {
      TradedIsEvaluated(p, policy, input, output, low);
    }
    ProbeOkWhenSearchable(p, policy, input, output, low);
    if Searchable(p, policy, input, output) && low < requested {
      BindingExplainsStop(p, policy, input, output, low, requested);
    }
    var postTrade :- ApplyTrade(p, input, output, low);
    var evaluation :- EvaluateConstraints(postTrade, policy, low);
    var binding := Binding(NoConstraint, None);
    if low < requested {
      binding :- FindFirstUnsafeBinding(p, policy, input, output, low, requested);
    }
    NamedIsFirstCrossed(evaluation, postTrade, policy, low);
    assert Searchable(p, policy, input, output) ==> Explains(binding, p, policy, input, output, low, requested);
    var asset := if binding.asset == None then evaluation.bindingAsset else binding.asset;
    r := Ok(SafeFillResult(requested, low, binding.constraint, asset, postTrade));
    FoundFillIsMaximum(p, policy, input, output, requested, r.value);
  }

  method FindMaximumSafeFill(p: Portfolio, policy: Policy, input: Token, output: Token, requestedValue: int)
    returns (r: Checked<SafeFillResult>)
    ensures WellFormed(p) ==> (r.Ok? <==> Answerable(p, policy, input, output, requestedValue))
    // On a well-formed portfolio whose assets the policy manages the stop is explained.
    ensures Searchable(p, policy, input, output) && 0 <= requestedValue <= UINT256_MAX ==>
              r.Ok? && BindingIsExplained(p, policy, input, output, requestedValue, r.value)
    ensures r.Ok? ==> IsMaximumSafeFill(p, policy, input, output, requestedValue, r.value)
  {
    var valid := ValidatePolicy(policy);
    if !valid {
      return Err(BadPolicy);
    }
    var requested :- ToUint256(requestedValue);
    var cap: nat := policy.maximumTransactionValue;
    var o :- AssetIndex(p.assets, output);
    var high := if requested < cap then requested else cap;
    if high > p.assets[o].value {
      high := p.assets[o].value;
    }
    var low :- SearchFill(p, policy, input, output, high);
    r := Conclude(p, policy, input, output, requested, low);
  }
}
