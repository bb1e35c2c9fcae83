/**
 The safe fills in closed form, and exactly when the fee-free search finds what exists
 (packages/shared/src/financial.ts:692-732).
 */
module SafeFillExact {
  import opened Uint256
  import opened Wrappers
  import opened Portfolios
  import opened Constraints
  import opened SafeFill
  import Search
  import opened Weights

  /** Assets outside the traded pair are in range; no fill changes them. */
  ghost predicate OthersSafe(p: Portfolio, policy: Policy, input: Token, output: Token) {
    forall k :: 0 <= k < |p.assets| && p.assets[k].token != input && p.assets[k].token != output ==>
      AssetSafe(p.assets[k], p.nav, policy)
  }

  function AssetOf(p: Portfolio, token: Token): Asset
    requires AssetIndex(p.assets, token).Ok?
  {
    p.assets[AssetIndex(p.assets, token).value]
  }

  /** The least fill that lifts the input to its minimum and brings the output down to its maximum. */
  function LeastFill(p: Portfolio, policy: Policy, input: Token, output: Token): int
    requires AssetIndex(p.assets, input).Ok? && AssetIndex(p.assets, output).Ok?
    requires PolicyBounds(policy, input).Ok? && PolicyBounds(policy, output).Ok?
  {
    Max(BpsOfUp(p.nav, PolicyBounds(policy, input).value.minimum) - AssetOf(p, input).value,
        AssetOf(p, output).value - BpsOfDown(p.nav, PolicyBounds(policy, output).value.maximum))
  }

  /** The greatest fill that keeps the input at most at its maximum, the output at least at its minimum, and the cap. */
  function MostFill(p: Portfolio, policy: Policy, input: Token, output: Token): int
    requires AssetIndex(p.assets, input).Ok? && AssetIndex(p.assets, output).Ok?
    requires PolicyBounds(policy, input).Ok? && PolicyBounds(policy, output).Ok?
  {
    var byInput := BpsOfDown(p.nav, PolicyBounds(policy, input).value.maximum) - AssetOf(p, input).value;
    var byOutput := AssetOf(p, output).value - BpsOfUp(p.nav, PolicyBounds(policy, output).value.minimum);
    var byRange := if byInput < byOutput then byInput else byOutput;
    if policy.maximumTransactionValue < byRange then policy.maximumTransactionValue else byRange
  }

  lemma PairBounds(p: Portfolio, policy: Policy, input: Token, output: Token)
    requires Searchable(p, policy, input, output)
    ensures PolicyBounds(policy, input).Ok? && PolicyBounds(policy, output).Ok?
  {
    hide PolicyBounds, AssetIndex;
    assert PolicyBounds(policy, AssetOf(p, input).token).Ok? && PolicyBounds(policy, AssetOf(p, output).token).Ok?;
  }

  lemma ShiftedRange(value: nat, nav: nat, range: Range)
    ensures WithinRange(value, nav, range) <==> BpsOfUp(nav, range.minimum) <= value <= BpsOfDown(nav, range.maximum)
  {
    hide BpsOfUp, BpsOfDown;
    BpsOfUpWithin(nav, range.minimum, value);
    BpsOfDownReaches(nav, range.maximum, value);
  }

  ghost predicate PairHolds(p: Portfolio, policy: Policy, input: Token, output: Token, v: nat)
    requires Searchable(p, policy, input, output) && v <= AssetOf(p, output).value
  {
    PairBounds(p, policy, input, output);
    && WithinRange(AssetOf(p, input).value + v, p.nav, PolicyBounds(policy, input).value)
    && WithinRange(AssetOf(p, output).value - v, p.nav, PolicyBounds(policy, output).value)
  }

  lemma RangesOfPair(p: Portfolio, policy: Policy, input: Token, output: Token, v: nat)
    requires Searchable(p, policy, input, output) && v <= AssetOf(p, output).value
    ensures RangesHold(p, policy, AssetIndex(p.assets, input).value, AssetIndex(p.assets, output).value, v)
       <==> OthersSafe(p, policy, input, output) && PairHolds(p, policy, input, output, v)
  {
    hide PolicyBounds, AssetIndex, WithinRange, SumValues;
    var i, o := AssetIndex(p.assets, input).value, AssetIndex(p.assets, output).value;
    PairBounds(p, policy, input, output);
    if RangesHold(p, policy, i, o, v) {
      assert ValueAfter(p, i, o, v, i) == p.assets[i].value + v && ValueAfter(p, i, o, v, o) == p.assets[o].value - v;
    }
    if OthersSafe(p, policy, input, output) && PairHolds(p, policy, input, output, v) {
      forall k | 0 <= k < |p.assets|
        ensures ValueAfter(p, i, o, v, k) >= 0
        ensures WithinRange(ValueAfter(p, i, o, v, k), p.nav, PolicyBounds(policy, p.assets[k].token).value)
      {
        assert k != i && k != o ==> AssetSafe(p.assets[k], p.nav, policy);
      }
    }
  }

  /** A fill is safe exactly when it lies between two numbers computed from the portfolio and the policy. */
  lemma FitsBetween(p: Portfolio, policy: Policy, input: Token, output: Token, v: nat)
    requires Searchable(p, policy, input, output) && v <= AssetOf(p, output).value
    ensures PolicyBounds(policy, input).Ok? && PolicyBounds(policy, output).Ok?
    ensures Fits(p, policy, input, output, v) <==>
              OthersSafe(p, policy, input, output)
                && LeastFill(p, policy, input, output) <= v <= MostFill(p, policy, input, output)
  {
    hide Fits, Probe, PolicyBounds, AssetIndex, WithinRange, SumValues, BpsOfUp, BpsOfDown, RangesHold, Covers,
      ValidPolicy, WellFormed;
    PairBounds(p, policy, input, output);
    OutputWithinUint256(p, policy, input, output);
    ProbeNeverFails(p, policy, input, output, v);
    FitsIff(p, policy, input, output, v);
    RangesOfPair(p, policy, input, output, v);
    ShiftedRange(AssetOf(p, input).value + v, p.nav, PolicyBounds(policy, input).value);
    ShiftedRange(AssetOf(p, output).value - v, p.nav, PolicyBounds(policy, output).value);
  }

  lemma OutputWithinUint256(p: Portfolio, policy: Policy, input: Token, output: Token)
    requires Searchable(p, policy, input, output)
    ensures AssetOf(p, output).value <= UINT256_MAX && Covers(policy, p.assets)
      && 0 <= policy.maximumTransactionValue <= UINT256_MAX
  {
    hide SumValues, AssetIndex;
    ValueWithinSum(p.assets, AssetIndex(p.assets, output).value);
  }

  /** The fills the search may return for some request. */
  function Limit(p: Portfolio, policy: Policy, input: Token, output: Token): nat
    requires AssetIndex(p.assets, output).Ok? && 0 <= policy.maximumTransactionValue
  {
    Min(policy.maximumTransactionValue, AssetOf(p, output).value)
  }

  ghost predicate HasSafeFill(p: Portfolio, policy: Policy, input: Token, output: Token, requested: nat)
    requires 0 <= policy.maximumTransactionValue && AssetIndex(p.assets, output).Ok?
  {
    Search.AnyUpTo(FitsPredicate(p, policy, input, output), Top(p, policy, output, requested))
  }

  ghost predicate AnsweredWithGreatest(p: Portfolio, policy: Policy, input: Token, output: Token, requested: nat)
    requires 0 <= policy.maximumTransactionValue && AssetIndex(p.assets, output).Ok?
  {
    var top := Top(p, policy, output, requested);
    Search.IsGreatest(FitsPredicate(p, policy, input, output), top,
      Search.Bisect(FitsPredicate(p, policy, input, output), 0, top))
  }

  /** The start is at most one unit short of every range, or no fill can be safe at all. */
  ghost predicate SearchIsComplete(p: Portfolio, policy: Policy, input: Token, output: Token)
    requires Searchable(p, policy, input, output)
  {
    PairBounds(p, policy, input, output);
    OutputWithinUint256(p, policy, input, output);
    var least, most, limit :=
      LeastFill(p, policy, input, output), MostFill(p, policy, input, output), Limit(p, policy, input, output);
    !OthersSafe(p, policy, input, output) || least <= 1 || least > most || least > limit
  }

  /** Every request that has a safe fill is answered with the greatest one exactly when the start passes that test. */
  lemma EveryRequestIsAnsweredIff(p: Portfolio, policy: Policy, input: Token, output: Token)
    requires Searchable(p, policy, input, output)
    ensures 0 <= policy.maximumTransactionValue
    ensures (forall requested: nat :: requested <= UINT256_MAX && HasSafeFill(p, policy, input, output, requested) ==>
               AnsweredWithGreatest(p, policy, input, output, requested))
       <==> SearchIsComplete(p, policy, input, output)
  {
    hide Searchable, Fits, Top, AssetIndex, SearchIsComplete, Search.Bisect, Search.IsGreatest, Search.AnyUpTo;
    OutputWithinUint256(p, policy, input, output);
    PairFound(p, policy, input, output);
    var fits, limit := FitsPredicate(p, policy, input, output), Limit(p, policy, input, output);
    CompleteIff(p, policy, input, output);
    if Search.FindsWhatExists(fits, limit) {
      forall requested: nat | requested <= UINT256_MAX && HasSafeFill(p, policy, input, output, requested)
        ensures AnsweredWithGreatest(p, policy, input, output, requested)
      {
        TopIsLimited(p, policy, input, output, requested);
      }
    }
    if forall requested: nat :: requested <= UINT256_MAX && HasSafeFill(p, policy, input, output, requested) ==>
         AnsweredWithGreatest(p, policy, input, output, requested)
    {
      forall q: nat | q <= limit && Search.AnyUpTo(fits, q)
        ensures Search.IsGreatest(fits, q, Search.Bisect(fits, 0, q))
      {
        TopIsLimited(p, policy, input, output, q);
        assert HasSafeFill(p, policy, input, output, q);
      }
    }
  }

  lemma PairFound(p: Portfolio, policy: Policy, input: Token, output: Token)
    requires Searchable(p, policy, input, output)
    ensures input != output && AssetIndex(p.assets, input).Ok? && AssetIndex(p.assets, output).Ok?
  {
  }

  lemma TopIsLimited(p: Portfolio, policy: Policy, input: Token, output: Token, requested: nat)
    requires AssetIndex(p.assets, output).Ok? && 0 <= policy.maximumTransactionValue
    ensures Top(p, policy, output, requested) == Min(requested, Limit(p, policy, input, output))
  {
    hide AssetIndex;
  }

  lemma CompleteIff(p: Portfolio, policy: Policy, input: Token, output: Token)
    requires Searchable(p, policy, input, output)
    ensures 0 <= policy.maximumTransactionValue && AssetIndex(p.assets, output).Ok?
    ensures Search.FindsWhatExists(FitsPredicate(p, policy, input, output), Limit(p, policy, input, output))
       <==> SearchIsComplete(p, policy, input, output)
  {
    hide Searchable, Fits, AssetIndex, LeastFill, MostFill, OthersSafe, Search.Bisect;
    OutputWithinUint256(p, policy, input, output);
    PairFound(p, policy, input, output);
    PairBounds(p, policy, input, output);
    var fits, limit := FitsPredicate(p, policy, input, output), Limit(p, policy, input, output);
    FitsIsInterval(p, policy, input, output, limit);
    forall v: nat | v <= limit
      ensures fits(v) <==>
                && OthersSafe(p, policy, input, output)
                && LeastFill(p, policy, input, output) <= v <= MostFill(p, policy, input, output)
    {
      FitsBetween(p, policy, input, output, v);
    }
    AnyFits(p, policy, input, output);
    if limit >= 1 {
      Search.FindsWhatExistsIff(fits, limit);
    } else {
      Search.BisectDone(fits, 0);
    }
  }

  lemma AnyFits(p: Portfolio, policy: Policy, input: Token, output: Token)
    requires Searchable(p, policy, input, output)
    ensures PolicyBounds(policy, input).Ok? && PolicyBounds(policy, output).Ok? && 0 <= policy.maximumTransactionValue
    ensures Search.AnyUpTo(FitsPredicate(p, policy, input, output), Limit(p, policy, input, output)) <==>
              && OthersSafe(p, policy, input, output)
              && 0 <= MostFill(p, policy, input, output)
              && LeastFill(p, policy, input, output) <= MostFill(p, policy, input, output)
              && LeastFill(p, policy, input, output) <= Limit(p, policy, input, output)
  {
    hide Searchable, Fits, AssetIndex, LeastFill, MostFill, OthersSafe;
    OutputWithinUint256(p, policy, input, output);
    PairFound(p, policy, input, output);
    PairBounds(p, policy, input, output);
    var fits, limit := FitsPredicate(p, policy, input, output), Limit(p, policy, input, output);
    var least, most := LeastFill(p, policy, input, output), MostFill(p, policy, input, output);
    if Search.AnyUpTo(fits, limit) {
      var v: nat :| v <= limit && fits(v);
      FitsBetween(p, policy, input, output, v);
    }
    if OthersSafe(p, policy, input, output) && 0 <= most && least <= most && least <= limit {
      var v: nat := Max(least, 0);
      FitsBetween(p, policy, input, output, v);
      assert fits(v);
    }
  }

  /** From a safe start the search returns the smaller of its range and one number computed from the inputs. */
  lemma SafeStartFill(p: Portfolio, policy: Policy, input: Token, output: Token, requested: nat)
    requires Searchable(p, policy, input, output) && WeightsSafe(p, policy) && requested <= UINT256_MAX
    ensures PolicyBounds(policy, input).Ok? && PolicyBounds(policy, output).Ok? && 0 <= policy.maximumTransactionValue
    ensures 0 <= MostFill(p, policy, input, output)
    ensures Search.Bisect(FitsPredicate(p, policy, input, output), 0, Top(p, policy, output, requested))
         == Min(Top(p, policy, output, requested), MostFill(p, policy, input, output))
  {
    hide Fits, AssetIndex, LeastFill, MostFill, OthersSafe, Search.Bisect, WeightsSafe, ValidPolicy, Covers,
      WellFormed, Top;
    OutputWithinUint256(p, policy, input, output);
    PairBounds(p, policy, input, output);
    SearchIsSound(p, policy, input, output, requested);
    FitsAtZeroIff(p, policy, input, output);
    TopIsLimited(p, policy, input, output, requested);
    var top, most := Top(p, policy, output, requested), MostFill(p, policy, input, output);
    var fill := Search.Bisect(FitsPredicate(p, policy, input, output), 0, top);
    FitsBetween(p, policy, input, output, 0);
    var best := if top < most then top else most;
    FitsBetween(p, policy, input, output, best);
    FitsBetween(p, policy, input, output, fill);
    assert FitsPredicate(p, policy, input, output)(best);
  }
}
