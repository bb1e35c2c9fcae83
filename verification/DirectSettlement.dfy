/**
 `calculateDirectSettlement`: the commitment checks, the search, the accounting legs and the
 reported constraint (packages/shared/src/settlement.ts:124-325).

 The keccak digest of a capacity epoch's fields is opaque: an epoch carries it as 32 bytes, which the
 code turns into text and compares with the expected identifier.
 */
module DirectSettlement {
  import opened Uint256
  import opened Wrappers
  import opened Portfolios
  import opened Constraints
  import opened Fees
  import opened FeeGrowth
  import opened Settlement
  import opened PriceProtection
  import AbiWords
  import Search
  import SafeFill

  const SETTLEMENT_VALUE_DECIMALS: int := 0

  datatype CapacityEpoch = CapacityEpoch(
    inputToken: Token, outputToken: Token, capacityBaselineValue: int, consumedBefore: int, commitment: AbiWords.Digest)

  datatype FeeAccounting = FeeAccounting(feeToken: Token, paidInOutputToken: bool)

  datatype DirectSettlementInput = DirectSettlementInput(
    portfolio: Portfolio, policy: Policy, fee: FeeConfig, feeAccounting: FeeAccounting, inputToken: Token,
    outputToken: Token,
    requestedValue: int, capacityBaselineValue: int, consumedBefore: int, capacityEpochId: string,
    capacityEpoch: CapacityEpoch, priceProtection: SettlementPriceProtection)

  datatype DirectSettlementResult = DirectSettlementResult(
    requestedValue: nat, executedValue: nat, capacityBaselineValue: nat, consumedBefore: nat, consumedAfter: nat,
    utilizationBefore: nat, utilizationAfter: nat, traderOutputValue: int, treasuryOutputValue: int,
    fees: FeeDistribution, finalPortfolio: Portfolio, bindingConstraint: Constraint, bindingAsset: Option<Token>)

  // ----- Commitments

  function CheckDecimalScales(s: DirectSettlementInput): Checked<()> {
    var i, o := AssetIndex(s.portfolio.assets, s.inputToken), AssetIndex(s.portfolio.assets, s.outputToken);
    if i.Err? || o.Err? || s.priceProtection.inputDecimals != s.portfolio.assets[i.value].decimals
       || s.priceProtection.outputDecimals != s.portfolio.assets[o.value].decimals
       || s.priceProtection.valueDecimals != SETTLEMENT_VALUE_DECIMALS
         || s.portfolio.valueDecimals != SETTLEMENT_VALUE_DECIMALS
    then Err(DecimalScaleMismatch)
    else Ok(())
  }

  /** Everything checked before prices are. */
  function CheckCommitments(s: DirectSettlementInput): Checked<()> {
    var _ :- ToUint256(s.requestedValue);
    var consumed :- ToUint256(s.consumedBefore);
    var baseline :- ToUint256(s.capacityBaselineValue);
    if consumed > baseline then Err(CapacityExceeded)
    else if !s.feeAccounting.paidInOutputToken || s.feeAccounting.feeToken != s.outputToken then Err(BadFeePayment)
    else
      var epochBaseline :- ToUint256(s.capacityEpoch.capacityBaselineValue);
      var epochConsumed :- ToUint256(s.capacityEpoch.consumedBefore);
      if epochBaseline != baseline || epochConsumed != consumed then Err(EpochMismatch)
      else if s.capacityEpoch.inputToken != s.inputToken || s.capacityEpoch.outputToken != s.outputToken
      then Err(EpochMismatch)
      else
        var _ :- CheckDecimalScales(s);
        var committedId := AbiWords.BytesToHex(s.capacityEpoch.commitment);
        if !AbiWords.IsBytes32(s.capacityEpochId)
           || AbiWords.LowerCase(committedId) != AbiWords.LowerCase(s.capacityEpochId)
        then Err(EpochMismatch)
        else if s.priceProtection.inputReference.token != s.inputToken
          || s.priceProtection.outputReference.token != s.outputToken
        then Err(PriceTokenMismatch)
        else Ok(())
  }

  /** The first asset of a token has this many decimals. */
  ghost predicate HasDecimals(p: Portfolio, token: Token, decimals: int) {
    exists i :: 0 <= i < |p.assets| && p.assets[i].token == token && p.assets[i].decimals == decimals
      && forall j :: 0 <= j < i ==> p.assets[j].token != token
  }

  /** What a settlement must commit to, field by field; the epoch is identified by the 32 bytes of its digest. */
  ghost predicate Committed(s: DirectSettlementInput) {
    && 0 <= s.requestedValue <= UINT256_MAX
    && 0 <= s.consumedBefore <= s.capacityBaselineValue <= UINT256_MAX
    && s.feeAccounting.paidInOutputToken && s.feeAccounting.feeToken == s.outputToken
    && s.capacityEpoch.capacityBaselineValue == s.capacityBaselineValue
    && s.capacityEpoch.consumedBefore == s.consumedBefore
    && s.capacityEpoch.inputToken == s.inputToken && s.capacityEpoch.outputToken == s.outputToken
    && HasDecimals(s.portfolio, s.inputToken, s.priceProtection.inputDecimals)
    && HasDecimals(s.portfolio, s.outputToken, s.priceProtection.outputDecimals)
    && s.priceProtection.valueDecimals == 0 == s.portfolio.valueDecimals
    && AbiWords.IsBytes32(s.capacityEpochId) && AbiWords.HexWord(s.capacityEpochId) == s.capacityEpoch.commitment
    && s.priceProtection.inputReference.token == s.inputToken
    && s.priceProtection.outputReference.token == s.outputToken
  }

  lemma HasDecimalsIff(p: Portfolio, token: Token, decimals: int)
    ensures HasDecimals(p, token, decimals)
       <==> AssetIndex(p.assets, token).Ok? && p.assets[AssetIndex(p.assets, token).value].decimals == decimals
  {
    hide AssetIndex;
    if AssetIndex(p.assets, token).Ok? {
      var i := AssetIndex(p.assets, token).value;
      assert forall j :: 0 <= j < i ==> p.assets[j].token != token;
    }
  }

  /** The checks in front of the prices accept exactly the committed settlements. */
  lemma CommitmentsIff(s: DirectSettlementInput)
    ensures CheckCommitments(s).Ok? <==> Committed(s)
  {
    hide AssetIndex, HasDecimals, AbiWords.IsBytes32, AbiWords.LowerCase, AbiWords.BytesToHex, AbiWords.HexWord;
    HasDecimalsIff(s.portfolio, s.inputToken, s.priceProtection.inputDecimals);
    HasDecimalsIff(s.portfolio, s.outputToken, s.priceProtection.outputDecimals);
    AbiWords.AcceptedForDigestIff(s.capacityEpoch.commitment, s.capacityEpochId);
  }

  /** For one epoch, two accepted identifiers differ at most in the case of their hex digits. */
  lemma EpochHasOneIdentifier(s: DirectSettlementInput, t: DirectSettlementInput)
    requires CheckCommitments(s).Ok? && CheckCommitments(t).Ok? && s.capacityEpoch == t.capacityEpoch
    ensures AbiWords.LowerCase(s.capacityEpochId) == AbiWords.LowerCase(t.capacityEpochId)
  {
    hide CheckCommitments, HasDecimals, AbiWords.LowerCase, AbiWords.HexWord;
    CommitmentsIff(s);
    CommitmentsIff(t);
    AbiWords.HexWordIff(s.capacityEpochId, t.capacityEpochId);
  }

  function MarketOf(s: DirectSettlementInput): Market
    requires 0 <= s.consumedBefore && 0 <= s.capacityBaselineValue
  {
    Market(s.portfolio, s.policy, s.fee, s.inputToken, s.outputToken, s.consumedBefore, s.capacityBaselineValue)
  }

  /** The search range: request, cap, remaining capacity and output balance. */
  function FillTop(m: Market, requested: nat): nat
    requires m.consumed <= m.baseline && 0 <= m.policy.maximumTransactionValue
      && AssetIndex(m.portfolio.assets, m.output).Ok?
  {
    Min(Min(Min(requested, m.policy.maximumTransactionValue), m.baseline - m.consumed),
        m.portfolio.assets[AssetIndex(m.portfolio.assets, m.output).value].value)
  }

  /** The search range is the least of the four limits. */
  lemma FillTopIsLeast(m: Market, requested: nat)
    requires m.consumed <= m.baseline && 0 <= m.policy.maximumTransactionValue
      && AssetIndex(m.portfolio.assets, m.output).Ok?
    ensures IsLeastLimit(m, requested, FillTop(m, requested))
  {
    hide AssetIndex;
  }

  /** The top is within every limit and reaches one of them. */
  ghost predicate IsLeastLimit(m: Market, requested: nat, top: nat)
    requires AssetIndex(m.portfolio.assets, m.output).Ok?
  {
    var cap, room, balance := m.policy.maximumTransactionValue, m.baseline - m.consumed, OutputBalance(m);
    && top <= requested && top <= cap && top <= room && top <= balance
    && (top == requested || top == cap || top == room || top == balance)
  }

  // ----- The reported constraint

  /** What the probe of the next unit reports. */
  ghost function NextBinding(m: Market, next: nat): Checked<SafeFill.Binding> {
    if FeesAt(m, next).Err? then Ok(SafeFill.Binding(FeeExceedsOutputConstraint, None))
    else
      var evaluation :- Probe(m, next);
      Ok(SafeFill.Binding(evaluation.bindingConstraint, evaluation.bindingAsset))
  }

  ghost function BindingFor(m: Market, safeValue: nat, requested: nat): Checked<SafeFill.Binding>
    requires m.consumed <= m.baseline
  {
    var cap :- ToUint256(m.policy.maximumTransactionValue);
    var available := m.baseline - m.consumed;
    if safeValue == cap && requested > cap then Ok(SafeFill.Binding(TransactionCap, None))
    else if safeValue == available && requested > available then Ok(SafeFill.Binding(CapacityExhausted, None))
    else if safeValue == 0 && requested > 0 then Ok(SafeFill.Binding(MinimumWeight, None))
    else NextBinding(m, safeValue + 1)
  }

  /**
   The probe of the next unit trades, and the first bound its portfolio crosses is the named range of the named
   asset.
   */
  ghost predicate BreaksNext(m: Market, next: nat, b: SafeFill.Binding) {
    && (b.constraint == MinimumWeight || b.constraint == MaximumWeight)
    && PostTrade(m, next).Ok? && BreaksFirst(PostTrade(m, next).value, m.policy, next, b.constraint, b.asset)
  }

  /**
   What each reported constraint says about a fill.  The source reports MINIMUM_WEIGHT for every zero
   fill that neither cap nor capacity explains, without looking at the weights: such a report says only
   that cap and capacity leave room.  `ZeroFillReportIff` says when a minimum really stops the fill.
   */
  ghost predicate Explains(m: Market, fill: nat, requested: nat, b: SafeFill.Binding)
    requires m.consumed <= m.baseline
  {
    if fill == requested then b == SafeFill.Binding(NoConstraint, None)
    else
      var cap, available := m.policy.maximumTransactionValue, m.baseline - m.consumed;
      && fill < requested
      && match b.constraint
         case TransactionCap => fill == cap && b.asset == None
         case CapacityExhausted => fill == available && fill != cap && b.asset == None
         case FeeExceedsOutputConstraint =>
           0 < fill && fill != cap && fill != available && FeesAt(m, fill + 1).Err? && b.asset == None
         case NoConstraint =>
           0 < fill && fill != cap && fill != available && Accepts(m, fill + 1) && b.asset == None
         case _ =>
           && fill != cap && fill != available
           && if fill == 0 then b == SafeFill.Binding(MinimumWeight, None) else BreaksNext(m, fill + 1, b)
  }

  /** A probe's evaluation names a constraint exactly when it refuses, and then the first bound that is crossed. */
  lemma ProbeExplains(m: Market, v: nat)
    requires v <= m.policy.maximumTransactionValue && Probe(m, v).Ok?
    ensures var e := Probe(m, v).value;
            && (e.bindingConstraint == NoConstraint <==> e.safe) && (e.safe ==> e.bindingAsset == None)
            && (!e.safe ==> BreaksNext(m, v, SafeFill.Binding(e.bindingConstraint, e.bindingAsset)))
  {
    hide PostTrade, Evaluate;
    EvaluationIsReport(PostTrade(m, v).value, m.policy, v);
  }

  /**
   The report explains every partial fill within the cap and the capacity.  It is missing only when the cap is no
   uint256, or when neither cap nor capacity ends a positive fill, the next unit's fees exist, and its probe throws.
   */
  ghost predicate IsExplained(m: Market, fill: nat, requested: nat, r: Checked<SafeFill.Binding>)
    requires m.consumed <= m.baseline
  {
    var cap, available := m.policy.maximumTransactionValue, m.baseline - m.consumed;
    fill < requested && fill <= cap && fill <= available ==>
      && (r.Err? <==> cap > UINT256_MAX
                      || (0 < fill < cap && fill < available && FeesAt(m, fill + 1).Ok? && Probe(m, fill + 1).Err?))
      && (r.Ok? ==> Explains(m, fill, requested, r.value))
  }

  lemma BindingExplains(m: Market, fill: nat, requested: nat)
    requires m.consumed <= m.baseline
    ensures IsExplained(m, fill, requested, BindingFor(m, fill, requested))
  {
    hide FeesAt, PostTrade, Evaluate, BreaksFirst;
    if fill < m.policy.maximumTransactionValue && Probe(m, fill + 1).Ok? {
      ProbeExplains(m, fill + 1);
    }
  }

  method ProbeNext(m: Market, next: nat) returns (r: Checked<SafeFill.Binding>)
    ensures r == NextBinding(m, next)
  {
    hide FeeFor, ApplyFeeInclusiveTrade, Evaluate;
    var fees := FeeFor(next, m.fee, m.consumed, m.consumed + next, m.baseline);
    if fees.Err? {
      return Ok(SafeFill.Binding(FeeExceedsOutputConstraint, None));
    }
    var post :- ApplyFeeInclusiveTrade(m.portfolio, m.input, m.output, next, fees.value);
    var evaluation :- EvaluateConstraints(post, m.policy, next);
    return Ok(SafeFill.Binding(evaluation.bindingConstraint, evaluation.bindingAsset));
  }

  method FindBinding(m: Market, safeValue: nat, requested: nat) returns (r: Checked<SafeFill.Binding>)
    requires m.consumed <= m.baseline
    ensures r == BindingFor(m, safeValue, requested) && IsExplained(m, safeValue, requested, r)
  {
    hide NextBinding, IsExplained;
    var checked := ToUint256(m.policy.maximumTransactionValue);
    var available := m.baseline - m.consumed;
    if checked.Err? {
      r := Err(checked.error);
    } else if safeValue == checked.value && requested > checked.value {
      r := Ok(SafeFill.Binding(TransactionCap, None));
    } else if safeValue == available && requested > available {
      r := Ok(SafeFill.Binding(CapacityExhausted, None));
    } else if safeValue == 0 && requested > 0 {
      r := Ok(SafeFill.Binding(MinimumWeight, None));
    } else {
      r := ProbeNext(m, safeValue + 1);
    }
    BindingExplains(m, safeValue, requested);
  }

  // ----- The settlement

  /** The five legs and the state a settlement of `executed` must report. */
  ghost predicate Accounts(m: Market, r: DirectSettlementResult) {
    && r.capacityBaselineValue == m.baseline && r.consumedBefore == m.consumed
    && r.consumedAfter == m.consumed + r.executedValue
    && FeesAt(m, r.executedValue) == Ok(r.fees)
    && PostTrade(m, r.executedValue) == Ok(r.finalPortfolio)
    && CalculateUtilization(m.consumed, m.baseline) == Ok(r.utilizationBefore)
    && CalculateUtilization(r.consumedAfter, m.baseline) == Ok(r.utilizationAfter)
    && r.traderOutputValue + r.fees.solverAmount + r.fees.protocolAmount + r.fees.treasuryAmount == r.executedValue
    && r.treasuryOutputValue == r.traderOutputValue + r.fees.solverAmount + r.fees.protocolAmount
  }

  /** The reported constraint explains the fill. */
  ghost predicate Reports(m: Market, r: DirectSettlementResult)
    requires m.consumed <= m.baseline
  {
    var b := SafeFill.Binding(r.bindingConstraint, r.bindingAsset);
    && (r.executedValue < r.requestedValue ==> BindingFor(m, r.executedValue, r.requestedValue) == Ok(b))
    && Explains(m, r.executedValue, r.requestedValue, b)
  }

  /** The fill is the bisection's answer, within every limit, and never leaves a safe portfolio unsafe. */
  ghost predicate IsSettlement(s: DirectSettlementInput, r: DirectSettlementResult) {
    && 0 <= s.requestedValue && 0 <= s.consumedBefore <= s.capacityBaselineValue
    && 0 <= s.policy.maximumTransactionValue
    && AssetIndex(s.portfolio.assets, s.outputToken).Ok?
    && var m := MarketOf(s);
    && var top := FillTop(m, s.requestedValue);
    && IsLeastLimit(m, s.requestedValue, top)
    && r.requestedValue == s.requestedValue && r.executedValue <= top
    && r.executedValue == Search.Bisect(AcceptsPredicate(m), 0, top)
    && (r.executedValue == 0 || Accepts(m, r.executedValue))
    && (r.executedValue < top ==> !Accepts(m, r.executedValue + 1))
    && Accounts(m, r) && Reports(m, r)
  }

  method Settle(m: Market, requested: nat) returns (r: Checked<DirectSettlementResult>)
    requires m.consumed <= m.baseline && 0 <= m.policy.maximumTransactionValue
      && AssetIndex(m.portfolio.assets, m.output).Ok?
    ensures r.Ok? ==>
              && r.value.requestedValue == requested && Accounts(m, r.value) && Reports(m, r.value)
              && r.value.executedValue == Search.Bisect(AcceptsPredicate(m), 0, FillTop(m, requested))
    ensures r.Err? <==> ThrowsAfterSearch(m, Search.Bisect(AcceptsPredicate(m), 0, FillTop(m, requested)), requested)
  {
    hide FeeFor, ApplyFeeInclusiveTrade, CalculateUtilization, CalculateOptionSpaceFee, BindingFor, Search.Bisect,
      AssetIndex, Explains, IsExplained, WellFormed, FillTop;
    Search.BisectStops(AcceptsPredicate(m), 0, FillTop(m, requested));
    var executed := SearchFill(m, FillTop(m, requested));
    var fees :- FeeFor(executed, m.fee, m.consumed, m.consumed + executed, m.baseline);
    var finalPortfolio :- ApplyFeeInclusiveTrade(m.portfolio, m.input, m.output, executed, fees);
    OptionFeeOfDistribution(m, executed);
    // The distribution computed the same utilizations and option fee, so none of these can throw.
    var before, after := CalculateUtilization(m.consumed, m.baseline).value,
      CalculateUtilization(m.consumed + executed, m.baseline).value;
    var option := CalculateOptionSpaceFee(m.fee.baseFeeBps, m.fee.slopeBps, before, after, m.fee.maximumFeeBps).value;
    DistributionIdentity(m, executed);
    var binding := SafeFill.Binding(NoConstraint, None);
    if executed < requested {
      binding :- FindBinding(m, executed, requested);
    }
    FillIsExplained(m, executed, requested, binding);
    return Ok(DirectSettlementResult(
      requested, executed, m.baseline, m.consumed, m.consumed + executed, option.utilizationBefore,
      option.utilizationAfter,
      executed - fees.totalFeeAmount, executed - fees.treasuryAmount, fees, finalPortfolio, binding.constraint,
      binding.asset));
  }

  lemma FillIsExplained(m: Market, fill: nat, requested: nat, b: SafeFill.Binding)
    requires m.consumed <= m.baseline && 0 <= m.policy.maximumTransactionValue
      && AssetIndex(m.portfolio.assets, m.output).Ok?
    requires fill <= FillTop(m, requested)
    requires if fill < requested then IsExplained(m, fill, requested, Ok(b))
      else b == SafeFill.Binding(NoConstraint, None)
    ensures Explains(m, fill, requested, b)
  {
    hide AssetIndex, BreaksNext, Accepts, FeesAt;
  }

  /** The separately computed option fee succeeds whenever the distribution did. */
  lemma OptionFeeOfDistribution(m: Market, v: nat)
    requires FeesAt(m, v).Ok?
    ensures var before, after :=
      CalculateUtilization(m.consumed, m.baseline), CalculateUtilization(m.consumed + v, m.baseline);
            && before.Ok? && after.Ok?
            && var option := CalculateOptionSpaceFee(m.fee.baseFeeBps, m.fee.slopeBps, before.value, after.value,
              m.fee.maximumFeeBps);
            && option.Ok? && option.value.utilizationBefore == before.value
            && option.value.utilizationAfter == after.value
  {
    hide CalculateUtilization;
  }

  ghost predicate Admissible(s: DirectSettlementInput) {
    Committed(s) && Protected(s.priceProtection) && 0 <= s.policy.maximumTransactionValue <= UINT256_MAX
  }

  ghost function FillOf(s: DirectSettlementInput): nat
    requires Admissible(s)
  {
    CommitmentsFindAssets(s);
    Search.Bisect(AcceptsPredicate(MarketOf(s)), 0, FillTop(MarketOf(s), s.requestedValue))
  }

  /** What can still throw once the commitments hold: the final trade, or the probe behind the reported constraint. */
  ghost predicate ThrowsAfterSearch(m: Market, fill: nat, requested: nat)
    requires m.consumed <= m.baseline
  {
    PostTrade(m, fill).Err? || (fill < requested && BindingFor(m, fill, requested).Err?)
  }

  method CalculateDirectSettlement(s: DirectSettlementInput) returns (r: Checked<DirectSettlementResult>)
    ensures r.Ok? ==> Admissible(s) && IsSettlement(s, r.value) && r.value.executedValue == FillOf(s)
    ensures r.Ok? <==> Admissible(s) && !ThrowsAfterSearch(MarketOf(s), FillOf(s), s.requestedValue)
    ensures Admissible(s) ==> IsDecidedByInputs(s, r)
  {
    hide CheckCommitments, HasDecimals, AbiWords.IsBytes32, AbiWords.HexWord, Protected, Accounts, Accepts,
      Search.Bisect, Reports, ThrowsAfterSearch, IsDecidedByInputs, AssetIndex;
    CommitmentsIff(s);
    var _ :- CheckCommitments(s);
    CommitmentsFindAssets(s);
    var _ :- AssertSettlementPriceProtection(s.priceProtection);
    var _ :- ToUint256(s.policy.maximumTransactionValue);
    var m := MarketOf(s);
    FillTopIsLeast(m, s.requestedValue);
    Search.BisectStops(AcceptsPredicate(m), 0, FillTop(m, s.requestedValue));
    r := Settle(m, s.requestedValue);
    OutcomeIsDecided(s, r);
  }

  lemma CommitmentsFindAssets(s: DirectSettlementInput)
    requires Committed(s)
    ensures AssetIndex(s.portfolio.assets, s.inputToken).Ok? && AssetIndex(s.portfolio.assets, s.outputToken).Ok?
  {
    hide AssetIndex, HasDecimals, AbiWords.HexWord;
    HasDecimalsIff(s.portfolio, s.inputToken, s.priceProtection.inputDecimals);
    HasDecimalsIff(s.portfolio, s.outputToken, s.priceProtection.outputDecimals);
  }

  /** From a safe portfolio the executed value is the greatest acceptable one within every limit. */
  lemma ExecutedValueIsGreatest(s: DirectSettlementInput)
    requires Admissible(s) && Ready(MarketOf(s)) && WeightsSafe(s.portfolio, s.policy)
    requires var top := FillTop(MarketOf(s), s.requestedValue);
             && GentleFill(s.fee, top) && s.portfolio.nav + CeilDiv(top, 100) <= UINT256_MAX
             && (UntouchedRoom(MarketOf(s), top) || NoExternalShares(s.fee))
    ensures Search.IsGreatest(AcceptsPredicate(MarketOf(s)), FillTop(MarketOf(s), s.requestedValue), FillOf(s))
  {
    hide Protected, Accepts, Probe, UntouchedRoom, Search.Bisect, Search.IsGreatest, CeilDiv;
    SearchFindsGreatestFill(MarketOf(s), FillTop(MarketOf(s), s.requestedValue));
  }

  // ----- The exact cases in which a ready market still throws

  /**
   The whole output balance is bought, nothing else limits the fill, and the treasury would keep no fee on one more
   unit.
   */
  ghost predicate OverrunsBalance(m: Market, fill: nat, requested: nat)
    requires Ready(m) && m.consumed + fill <= m.baseline
  {
    && 0 < fill < requested && fill < m.baseline - m.consumed && fill != m.policy.maximumTransactionValue
    && fill == m.portfolio.assets[AssetIndex(m.portfolio.assets, m.output).value].value
    && Kept(m, fill + 1) == 0
  }

  /** From a ready market a settlement throws exactly when reporting its constraint overruns the output balance. */
  lemma ReadySettlementThrowsIff(m: Market, requested: nat, fill: nat)
    requires Ready(m) && fill <= FillTop(m, requested)
    requires m.portfolio.nav + CeilDiv(FillTop(m, requested) + 1, 100) + 1 <= UINT256_MAX
    ensures ThrowsAfterSearch(m, fill, requested) <==> OverrunsBalance(m, fill, requested)
  {
    hide FeesAt, PostTrade, Evaluate, Ready, CeilDiv, Kept, AssetIndex, SumValues, ValidPolicy, Covers, DistinctTokens;
    ReadyFacts(m);
    var top := FillTop(m, requested);
    CeilDivMono(top, top + 1, 100);
    TradeAtSucceeds(m, top, fill);
    var available := m.baseline - m.consumed;
    if fill < requested && fill != m.policy.maximumTransactionValue && fill != available && fill != 0 {
      var outputValue := m.portfolio.assets[AssetIndex(m.portfolio.assets, m.output).value].value;
      if fill < outputValue {
        CeilDivMono(fill + 1, top + 1, 100);
        ProbeIff(m, fill + 1, fill + 1);
        TradeAtSucceeds(m, fill + 1, fill + 1);
      } else {
        ProbeBeyondBalance(m, fill);
      }
    }
  }

  lemma ReadyFacts(m: Market)
    requires Ready(m)
    ensures 0 <= m.policy.maximumTransactionValue <= UINT256_MAX && m.consumed <= m.baseline
      && Representable(m.baseline)
    ensures AssetIndex(m.portfolio.assets, m.output).Ok? && AssetIndex(m.portfolio.assets, m.input).Ok?
      && m.input != m.output
    ensures WellFormed(m.portfolio) && ValidFee(m.fee)
  {
  }

  /** One unit beyond the balance trades only if the retained fee gives it back. */
  lemma ProbeBeyondBalance(m: Market, fill: nat)
    requires Ready(m) && m.consumed + fill + 1 <= m.baseline
    requires fill == m.portfolio.assets[AssetIndex(m.portfolio.assets, m.output).value].value
    requires m.portfolio.nav + CeilDiv(fill + 1, 100) + 1 <= UINT256_MAX
    ensures FeesAt(m, fill + 1).Ok?
    ensures Probe(m, fill + 1).Err? <==> Kept(m, fill + 1) == 0
    ensures PostTrade(m, fill + 1).Err? <==> Kept(m, fill + 1) == 0
    ensures 0 <= Kept(m, fill + 1)
    ensures 0 < Kept(m, fill + 1) ==>
      PostTrade(m, fill + 1).Ok? && IsFeeTrade(m.portfolio, PostTrade(m, fill + 1).value,
              AssetIndex(m.portfolio.assets, m.input).value, AssetIndex(m.portfolio.assets, m.output).value, fill + 1,
              Kept(m, fill + 1))
  {
    hide FeeFor, ApplyFeeInclusiveTrade, TotalFee, ExternalFee, CeilDiv, SumValues, DistinctTokens, ValidPolicy,
      Evaluate, AssetIndex, IsFeeTrade, Covers;
    var p, v := m.portfolio, fill + 1;
    assert m.consumed + v == m.consumed + fill + 1;
    FeeForInEpoch(m.fee, m.consumed, m.baseline, v);
    TotalFeeBound(m.fee, m.consumed, m.baseline, v);
    RetainedFeeBounds(m.fee, m.consumed, m.baseline, v);
    DistributionIdentity(m, v);
    var fees := FeesAt(m, v).value;
    TradeBeyondBalance(p, m.input, m.output, v, fees);
    if Kept(m, v) > 0 {
      FeeTradeShape(p, m.input, m.output, v, fees);
      BeyondIsUint256(m, v);
      EvaluatedTradeIff(m, PostTrade(m, v).value, v);
    }
  }

  lemma BeyondIsUint256(m: Market, v: nat)
    requires Ready(m) && m.consumed + v <= m.baseline
    ensures v <= UINT256_MAX
  {
  }

  lemma TradeBeyondBalance(p: Portfolio, input: Token, output: Token, v: nat, fees: FeeDistribution)
    requires WellFormed(p) && input != output && AssetIndex(p.assets, input).Ok? && AssetIndex(p.assets, output).Ok?
    requires v == p.assets[AssetIndex(p.assets, output).value].value + 1
    requires fees.solverAmount + fees.protocolAmount <= fees.totalFeeAmount <= v
    requires p.nav + fees.totalFeeAmount + 1 <= UINT256_MAX
    ensures ApplyFeeInclusiveTrade(p, input, output, v, fees).Err?
      <==> fees.totalFeeAmount == fees.solverAmount + fees.protocolAmount
  {
    hide SumValues, AssetIndex, CheckedSum, Reweigh, MoveValues, DistinctTokens;
    var i, o := AssetIndex(p.assets, input).value, AssetIndex(p.assets, output).value;
    TwoValuesWithinSum(p.assets, i, o);
    var leaving: nat := v - fees.totalFeeAmount + (fees.solverAmount + fees.protocolAmount);
    if leaving <= p.assets[o].value {
      var received: nat, remaining: nat := p.assets[i].value + v, p.assets[o].value - leaving;
      SumAfterMove(p.assets, i, o, received, remaining);
      ValueWithinSum(MoveValues(p.assets, i, o, received, remaining), i);
    }
  }

  // ----- The outcome from the inputs alone

  function OutputBalance(m: Market): nat
    requires AssetIndex(m.portfolio.assets, m.output).Ok?
  {
    m.portfolio.assets[AssetIndex(m.portfolio.assets, m.output).value].value
  }

  /** A safe market with room for the fee, whose fees cross no untouched minimum below a fill that holds. */
  ghost predicate Orderly(m: Market, requested: nat) {
    && Ready(m) && WeightsSafe(m.portfolio, m.policy)
    && var top := FillTop(m, requested);
    && m.portfolio.nav + CeilDiv(top + 1, 100) + 1 <= UINT256_MAX && GentleFill(m.fee, top)
    && (TopIsSettleable(m, requested); UntouchedMinimumsHoldBelow(m, top))
  }

  lemma TopIsSettleable(m: Market, requested: nat)
    requires Ready(m) && m.portfolio.nav + CeilDiv(FillTop(m, requested) + 1, 100) + 1 <= UINT256_MAX
    ensures Settleable(m, FillTop(m, requested))
  {
    hide CeilDiv, AssetIndex, WellFormed, Covers, ValidPolicy, Representable, ValidFee;
    CeilDivMono(FillTop(m, requested), FillTop(m, requested) + 1, 100);
  }

  /** The whole output balance is acceptable, and only the balance is in the way of the rest of the request. */
  ghost predicate SellsOut(m: Market, requested: nat)
    requires Ready(m)
  {
    var out := OutputBalance(m);
    0 < out < requested && out < m.baseline - m.consumed && out < m.policy.maximumTransactionValue && FillHolds(m, out)
  }

  /** What the treasury would keep of a fill one unit beyond the balance. */
  ghost function KeptBeyond(m: Market): int
    requires Ready(m)
  {
    if m.consumed + OutputBalance(m) + 1 <= m.baseline then Kept(m, OutputBalance(m) + 1) else 0
  }

  ghost function SearchedFill(m: Market, requested: nat): nat
    requires Ready(m)
  {
    ReadyFacts(m);
    Search.Bisect(AcceptsPredicate(m), 0, FillTop(m, requested))
  }

  lemma SearchedFillIsGreatest(m: Market, requested: nat)
    requires Orderly(m, requested)
    ensures Search.IsGreatest(AcceptsPredicate(m), FillTop(m, requested), SearchedFill(m, requested))
  {
    hide Ready, WeightsSafe, GentleFill, UntouchedMinimumsHoldBelow, Accepts, Search.Bisect, Search.IsGreatest,
      AssetIndex, CeilDiv;
    ReadyFacts(m);
    TopIsSettleable(m, requested);
    SearchFindsGreatestWhenMinimumsHold(m, FillTop(m, requested));
  }

  /** The search stops at the whole balance exactly when selling it out is acceptable. */
  lemma SellsOutIff(m: Market, requested: nat)
    requires Orderly(m, requested)
    ensures SellsOut(m, requested) <==>
              var fill := SearchedFill(m, requested);
              && 0 < fill < requested && fill < m.baseline - m.consumed && fill != m.policy.maximumTransactionValue
              && fill == OutputBalance(m)
  {
    hide Ready, WeightsSafe, GentleFill, UntouchedMinimumsHoldBelow, Accepts, Search.Bisect, AssetIndex, FillHolds,
      CeilDiv;
    ReadyFacts(m);
    TopIsSettleable(m, requested);
    SearchedFillIsGreatest(m, requested);
    var top, out := FillTop(m, requested), OutputBalance(m);
    if out <= top {
      AcceptsIff(m, top, out);
      assert AcceptsPredicate(m)(out) <==> Accepts(m, out);
    }
  }

  lemma SettlementThrowsIff(m: Market, requested: nat)
    requires Orderly(m, requested)
    ensures ThrowsAfterSearch(m, SearchedFill(m, requested), requested)
      <==> SellsOut(m, requested) && KeptBeyond(m) == 0
  {
    hide WeightsSafe, GentleFill, UntouchedMinimumsHoldBelow, Accepts, Search.Bisect, AssetIndex, FillHolds, CeilDiv,
      ThrowsAfterSearch, WellFormed, Covers;
    ReadyFacts(m);
    SearchedFillIsGreatest(m, requested);
    SellsOutIff(m, requested);
    ReadySettlementThrowsIff(m, requested, SearchedFill(m, requested));
  }

  /** One unit beyond the balance is acceptable exactly when its inequalities hold, which needs a retained fee. */
  lemma AcceptsBeyondIff(m: Market)
    requires Ready(m) && m.consumed + OutputBalance(m) + 1 <= m.baseline
    requires m.portfolio.nav + CeilDiv(OutputBalance(m) + 1, 100) + 1 <= UINT256_MAX
    ensures Accepts(m, OutputBalance(m) + 1) <==> FillHolds(m, OutputBalance(m) + 1)
    ensures FeesAt(m, OutputBalance(m) + 1).Ok?
  {
    hide FeesAt, PostTrade, Evaluate, Ready, Kept, CeilDiv, AssetIndex, IsFeeTrade, FillHolds;
    ReadyFacts(m);
    var v := OutputBalance(m) + 1;
    ProbeBeyondBalance(m, OutputBalance(m));
    if 0 < Kept(m, v) {
      BeyondIsUint256(m, v);
      EvaluatedTradeIff(m, PostTrade(m, v).value, v);
    } else {
      NothingKeptBeyond(m);
    }
  }

  lemma NothingKeptBeyond(m: Market)
    requires Ready(m) && m.consumed + OutputBalance(m) + 1 <= m.baseline && Kept(m, OutputBalance(m) + 1) == 0
    ensures !FillHolds(m, OutputBalance(m) + 1)
  {
    hide Kept, AssetIndex, Covers, DistinctTokens, SumValues, ValidPolicy;
    assert !AssetHolds(m, OutputBalance(m) + 1, AssetIndex(m.portfolio.assets, m.output).value);
  }

  /** A probe of the next unit reports no constraint exactly when it accepts. */
  lemma NextReportsNoneIff(m: Market, next: nat)
    requires next <= m.policy.maximumTransactionValue && NextBinding(m, next).Ok? && FeesAt(m, next).Ok?
    ensures NextBinding(m, next).value.constraint == NoConstraint <==> Accepts(m, next)
  {
    hide FeesAt, PostTrade, Evaluate, BreaksNext;
    ProbeExplains(m, next);
  }

  /** A partial fill is reported without a constraint exactly when it sells out and one unit more would still hold. */
  lemma ReportsNoneIff(m: Market, requested: nat)
    requires Orderly(m, requested) && !ThrowsAfterSearch(m, SearchedFill(m, requested), requested)
    ensures var fill := SearchedFill(m, requested);
            fill < requested && BindingFor(m, fill, requested).value.constraint == NoConstraint <==>
              SellsOut(m, requested) && FillHolds(m, OutputBalance(m) + 1)
  {
    hide Ready, WeightsSafe, GentleFill, UntouchedMinimumsHoldBelow, Accepts, Search.Bisect, AssetIndex, CeilDiv,
      WellFormed, BindingFor, PostTrade, SellsOut, FillHolds, SearchedFill;
    ReadyFacts(m);
    SearchedFillIsGreatest(m, requested);
    SellsOutIff(m, requested);
    var fill, top := SearchedFill(m, requested), FillTop(m, requested);
    if fill < requested {
      NoneIffNextAccepts(m, fill, requested);
      if fill == OutputBalance(m) && fill < m.baseline - m.consumed {
        AcceptsBeyondIff(m);
      }
      if fill < top {
        assert !AcceptsPredicate(m)(fill + 1);
      }
    }
  }

  lemma NoneIffNextAccepts(m: Market, fill: nat, requested: nat)
    requires Ready(m) && fill < requested && BindingFor(m, fill, requested).Ok?
    requires fill <= m.policy.maximumTransactionValue && fill <= m.baseline - m.consumed
    ensures BindingFor(m, fill, requested).value.constraint == NoConstraint <==>
              0 < fill < m.policy.maximumTransactionValue && fill < m.baseline - m.consumed && Accepts(m, fill + 1)
  {
    hide Ready, Accepts, NextBinding, WellFormed, FeesAt;
    ReadyFacts(m);
    if 0 < fill < m.policy.maximumTransactionValue && fill < m.baseline - m.consumed {
      FeesInCapacity(m, fill + 1);
      NextReportsNoneIff(m, fill + 1);
    }
  }

  lemma FeesInCapacity(m: Market, v: nat)
    requires Ready(m) && m.consumed + v <= m.baseline
    ensures FeesAt(m, v).Ok?
  {
    hide FeeFor, Ready, Representable, ValidFee, WellFormed;
    ReadyFacts(m);
    FeeForInEpoch(m.fee, m.consumed, m.baseline, v);
  }

  // ----- What a zero fill's report says

  /** A fill of one unit trades and really leaves some asset below its minimum. */
  ghost predicate MinimumStopsUnit(m: Market) {
    PostTrade(m, 1).Ok? && exists k :: Crossed(PostTrade(m, 1).value, m.policy, 1, Minimum(k))
  }

  /** The output asset and the unit's retained fee cover the unit, and some asset's share falls short. */
  ghost predicate UnitBreaksMinimum(m: Market)
    requires Ready(m)
  {
    var p, kept := m.portfolio, KeptOfUnit(m.fee, m.consumed, m.baseline);
    && 0 < OutputBalance(m) + kept
    && exists k :: 0 <= k < |p.assets| && FallsShort(m, kept, k)
  }

  ghost predicate FallsShort(m: Market, kept: nat, k: nat)
    requires Ready(m) && k < |m.portfolio.assets|
  {
    var p := m.portfolio;
    BASIS_POINTS * ValueAfter(p, AssetIndex(p.assets, m.input).value, AssetIndex(p.assets, m.output).value, 1, kept, k)
      < PolicyBounds(m.policy, p.assets[k].token).value.minimum * (p.nav + kept)
  }

  /** With cap and capacity left a zero fill is reported as MINIMUM_WEIGHT; this is when a minimum really stops it. */
  lemma ZeroFillReportIff(m: Market, requested: nat)
    requires Ready(m) && 0 < requested && 0 < m.policy.maximumTransactionValue && m.consumed < m.baseline
    requires m.portfolio.nav + 2 <= UINT256_MAX
    ensures BindingFor(m, 0, requested) == Ok(SafeFill.Binding(MinimumWeight, None))
    ensures MinimumStopsUnit(m) <==> UnitBreaksMinimum(m)
  {
    hide BreaksNext, AssetIndex, PostTrade, NextBinding, Kept, IsFeeTrade, Ready, WellFormed, KeptOfUnit, FallsShort,
      Crossed;
    ReadyFacts(m);
    UnitTrade(m);
    if PostTrade(m, 1).Ok? {
      UnitShortfall(m, PostTrade(m, 1).value);
    }
  }

  /** One unit trades exactly when the balance or the retained fee covers it. */
  lemma UnitTrade(m: Market)
    requires Ready(m) && m.consumed < m.baseline && m.portfolio.nav + 2 <= UINT256_MAX
    ensures Kept(m, 1) == KeptOfUnit(m.fee, m.consumed, m.baseline)
    ensures PostTrade(m, 1).Ok? <==> 0 < OutputBalance(m) + Kept(m, 1)
    ensures PostTrade(m, 1).Ok? ==> IsFeeTrade(m.portfolio, PostTrade(m, 1).value,
              AssetIndex(m.portfolio.assets, m.input).value, AssetIndex(m.portfolio.assets, m.output).value,
              1, Kept(m, 1))
  {
    hide PostTrade, AssetIndex, IsFeeTrade, Probe, RetainedFee, CeilDiv, SumValues, DistinctTokens, ValidPolicy,
      Covers, KeptOfUnit, FeesAt, Representable;
    RetainedFeeOfUnit(m.fee, m.consumed, m.baseline);
    CeilDivLe(1, 100, 1);
    if OutputBalance(m) == 0 {
      ProbeBeyondBalance(m, 0);
    } else {
      TradeAtSucceeds(m, 1, 1);
    }
  }

  lemma UnitShortfall(m: Market, post: Portfolio)
    requires Ready(m) && m.consumed < m.baseline && PostTrade(m, 1) == Ok(post) && 0 <= Kept(m, 1)
    requires IsFeeTrade(m.portfolio, post, AssetIndex(m.portfolio.assets, m.input).value,
               AssetIndex(m.portfolio.assets, m.output).value, 1, Kept(m, 1))
    ensures MinimumStopsUnit(m) <==> exists k :: 0 <= k < |m.portfolio.assets| && FallsShort(m, Kept(m, 1), k)
  {
    hide PostTrade, AssetIndex, Kept, PolicyBounds, SumValues, DistinctTokens, ValidPolicy, ValidFee, Representable;
    var p := m.portfolio;
    forall k | 0 <= k < |p.assets|
      ensures Crossed(post, m.policy, 1, Minimum(k)) <==> FallsShort(m, Kept(m, 1), k)
    {
      assert post.assets[k].token == p.assets[k].token;
    }
  }

  /** The search answers 0 exactly when nothing can be searched or one unit is refused. */
  lemma ZeroFillIff(m: Market, requested: nat)
    requires Orderly(m, requested) && 0 < requested && 0 < m.policy.maximumTransactionValue && m.consumed < m.baseline
    ensures SearchedFill(m, requested) == 0 <==> OutputBalance(m) == 0 || !FillHolds(m, 1)
  {
    hide Ready, WeightsSafe, GentleFill, UntouchedMinimumsHoldBelow, Accepts, Search.Bisect, AssetIndex, FillHolds,
      CeilDiv;
    ReadyFacts(m);
    TopIsSettleable(m, requested);
    SearchedFillIsGreatest(m, requested);
    var top, fill := FillTop(m, requested), SearchedFill(m, requested);
    if 0 < top {
      AcceptsIff(m, top, 1);
      assert AcceptsPredicate(m)(1) <==> Accepts(m, 1);
      DownwardClosedIff(m, top);
      assert 1 < fill ==> AcceptsPredicate(m)(1);
    }
  }

  /** A zero fill with cap and capacity left is decided by the inputs, and so is what its report is worth. */
  ghost predicate ZeroFillIsDecided(m: Market, requested: nat, r: DirectSettlementResult)
    requires Ready(m)
  {
    0 < requested && 0 < m.policy.maximumTransactionValue && m.consumed < m.baseline ==>
      && (r.executedValue == 0 <==> OutputBalance(m) == 0 || !FillHolds(m, 1))
      && (r.executedValue == 0 ==>
            && r.bindingConstraint == MinimumWeight && r.bindingAsset == None
            && (MinimumStopsUnit(m) <==> UnitBreaksMinimum(m)))
  }

  /** From an orderly market the inputs decide whether it throws, reports no constraint, or fills nothing. */
  ghost predicate IsDecidedByInputs(s: DirectSettlementInput, r: Checked<DirectSettlementResult>)
    requires Admissible(s)
  {
    CommitmentsFindAssets(s);
    var m := MarketOf(s);
    Orderly(m, s.requestedValue) ==>
      && (r.Ok? <==> !SellsOut(m, s.requestedValue) || 0 < KeptBeyond(m))
      && (r.Ok? ==>
            (r.value.executedValue < s.requestedValue && r.value.bindingConstraint == NoConstraint <==>
               SellsOut(m, s.requestedValue) && FillHolds(m, OutputBalance(m) + 1)))
      && (r.Ok? ==> ZeroFillIsDecided(m, s.requestedValue, r.value))
  }

  lemma OutcomeIsDecided(s: DirectSettlementInput, r: Checked<DirectSettlementResult>)
    requires Admissible(s)
    requires r.Err? <==> ThrowsAfterSearch(MarketOf(s), FillOf(s), s.requestedValue)
    requires r.Ok? ==>
               && Reports(MarketOf(s), r.value)
               && r.value.requestedValue == s.requestedValue && r.value.executedValue == FillOf(s)
    ensures IsDecidedByInputs(s, r)
  {
    hide Protected, Explains, BindingFor, ThrowsAfterSearch, SellsOut, KeptBeyond, FillHolds, Ready, WeightsSafe,
      GentleFill, UntouchedMinimumsHoldBelow, CeilDiv, Search.Bisect, WellFormed;
    CommitmentsFindAssets(s);
    var m := MarketOf(s);
    if Orderly(m, s.requestedValue) {
      SettlementThrowsIff(m, s.requestedValue);
      KeptBeyondIsNatural(m);
      if r.Ok? {
        ReportsNoneIff(m, s.requestedValue);
        ZeroFillFollows(m, s.requestedValue, r.value);
      }
    }
  }

  lemma ZeroFillFollows(m: Market, requested: nat, r: DirectSettlementResult)
    requires Orderly(m, requested) && r.executedValue == SearchedFill(m, requested) && r.requestedValue == requested
    requires Reports(m, r)
    ensures ZeroFillIsDecided(m, requested, r)
  {
    hide Explains, BindingFor, MinimumStopsUnit, UnitBreaksMinimum, FillHolds, Ready, WeightsSafe, GentleFill,
      CeilDiv, UntouchedMinimumsHoldBelow, SearchedFill, WellFormed, AssetIndex;
    if 0 < requested && 0 < m.policy.maximumTransactionValue && m.consumed < m.baseline {
      ReadyFacts(m);
      ZeroFillIff(m, requested);
      CeilDivLe(FillTop(m, requested) + 1, 100, 0);
      ZeroFillReportIff(m, requested);
    }
  }

  lemma KeptBeyondIsNatural(m: Market)
    requires Ready(m)
    ensures 0 <= KeptBeyond(m)
  {
    hide Kept;
    if m.consumed + OutputBalance(m) + 1 <= m.baseline {
      KeptBounds(m, OutputBalance(m) + 1);
    }
  }
}
