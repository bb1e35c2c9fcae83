/**
 Runs of settlements that feed each result forward, in any mixture of directions.
 A settlement that throws leaves the state as it was.
 */
module SettlementRuns {
  import opened Uint256
  import opened Wrappers
  import opened Portfolios
  import opened Constraints
  import opened Fees
  import opened FeeGrowth
  import opened Settlement
  import DirectSettlement
  import Search

  datatype Direction = Direction(input: Token, output: Token)
  datatype Epoch = Epoch(baseline: nat, consumed: nat)
  datatype Order = Order(direction: Direction, requested: nat)
  datatype Execution = Execution(direction: Direction, value: nat, fees: FeeDistribution)
  datatype State = State(portfolio: Portfolio, epochs: map<Direction, Epoch>)

  ghost predicate ValidState(s: State, policy: Policy) {
    && WellFormed(s.portfolio) && WeightsSafe(s.portfolio, policy)
    && forall d :: d in s.epochs ==> s.epochs[d].consumed <= s.epochs[d].baseline
  }

  ghost function MarketFor(s: State, policy: Policy, fee: FeeConfig, d: Direction): Market
    requires d in s.epochs
  {
    Market(s.portfolio, policy, fee, d.input, d.output, s.epochs[d].consumed, s.epochs[d].baseline)
  }

  /** An order is one the solver can look up at all. */
  ghost predicate Solvable(s: State, policy: Policy, order: Order) {
    && order.direction in s.epochs
    && s.epochs[order.direction].consumed <= s.epochs[order.direction].baseline
    && 0 <= policy.maximumTransactionValue
    && AssetIndex(s.portfolio.assets, order.direction.output).Ok?
  }

  ghost function FillFor(s: State, policy: Policy, fee: FeeConfig, order: Order): nat
    requires Solvable(s, policy, order)
  {
    var m := MarketFor(s, policy, fee, order.direction);
    Search.Bisect(AcceptsPredicate(m), 0, DirectSettlement.FillTop(m, order.requested))
  }

  /** The execution an order leads to, or none when it cannot be solved or throws. */
  ghost function Execute(s: State, policy: Policy, fee: FeeConfig, order: Order): Option<Execution> {
    if !Solvable(s, policy, order) then None
    else
      var m := MarketFor(s, policy, fee, order.direction);
      var fill := FillFor(s, policy, fee, order);
      if DirectSettlement.ThrowsAfterSearch(m, fill, order.requested) then None
      else Some(Execution(order.direction, fill, FeesAt(m, fill).value))
  }

  ghost function Advance(s: State, policy: Policy, fee: FeeConfig, order: Order): State {
    var execution := Execute(s, policy, fee, order);
    if execution == None then s
    else
      var d, fill := order.direction, execution.value.value;
      State(PostTrade(MarketFor(s, policy, fee, d), fill).value,
            s.epochs[d := s.epochs[d].(consumed := s.epochs[d].consumed + fill)])
  }

  ghost function Run(s: State, policy: Policy, fee: FeeConfig, orders: seq<Order>): (State, seq<Execution>) {
    if orders == [] then (s, [])
    else
      var (before, log) := Run(s, policy, fee, orders[..|orders| - 1]);
      var order := orders[|orders| - 1];
      var execution := Execute(before, policy, fee, order);
      (Advance(before, policy, fee, order), if execution == None then log else log + [execution.value])
  }

  ghost function TotalRetained(log: seq<Execution>): int {
    if log == [] then 0 else TotalRetained(log[..|log| - 1]) + log[|log| - 1].fees.treasuryAmount
  }

  ghost function TotalConsumed(log: seq<Execution>, d: Direction): nat {
    if log == [] then 0
    else TotalConsumed(log[..|log| - 1], d) + (if log[|log| - 1].direction == d then log[|log| - 1].value else 0)
  }

  /** Trader, solver, protocol and treasury receive exactly the executed value, none of them less than nothing. */
  ghost predicate LegsBalance(e: Execution) {
    && e.fees.totalFeeAmount <= e.value && 0 <= e.fees.treasuryAmount
    && (e.value - e.fees.totalFeeAmount) + e.fees.solverAmount + e.fees.protocolAmount
      + e.fees.treasuryAmount == e.value
  }

  lemma AcceptedFillIsSafe(m: Market, v: nat)
    requires 0 < v && Accepts(m, v) && v <= UINT256_MAX
    ensures WeightsSafe(PostTrade(m, v).value, m.policy)
  {
    hide FeesAt, ApplyFeeInclusiveTrade;
    EvaluateIff(PostTrade(m, v).value, m.policy, v);
  }

  lemma NothingRetainedOnZero(m: Market)
    requires FeesAt(m, 0).Ok?
    ensures FeesAt(m, 0).value.treasuryAmount == 0 && FeesAt(m, 0).value.totalFeeAmount == 0
  {
    hide CalculateUtilization, CalculateOptionSpaceFee;
    DistributionIdentity(m, 0);
  }

  /** One settlement keeps the portfolio safe and well formed, and accounts for NAV and capacity to the unit. */
  lemma AdvanceKeeps(s: State, policy: Policy, fee: FeeConfig, order: Order)
    requires ValidState(s, policy)
    ensures ValidState(Advance(s, policy, fee, order), policy)
    ensures var e := Execute(s, policy, fee, order);
            var s' := Advance(s, policy, fee, order);
            && (e == None ==> s' == s)
            && (e.Some? ==>
                  && LegsBalance(e.value)
                  && s'.portfolio.nav == s.portfolio.nav + e.value.fees.treasuryAmount
                  && order.direction in s.epochs && e.value.direction == order.direction
                  && s'.epochs == s.epochs[order.direction :=
                    s.epochs[order.direction].(consumed := s.epochs[order.direction].consumed + e.value.value)])
  {
    hide Accepts, FeesAt, PostTrade, Search.Bisect, WellFormed, WeightsSafe, AssetIndex, DirectSettlement.BindingFor;
    var e := Execute(s, policy, fee, order);
    if e.Some? {
      var m := MarketFor(s, policy, fee, order.direction);
      Search.BisectStops(AcceptsPredicate(m), 0, DirectSettlement.FillTop(m, order.requested));
      FillKeeps(m, e.value.value);
    }
  }

  lemma FillKeeps(m: Market, v: nat)
    requires WellFormed(m.portfolio) && WeightsSafe(m.portfolio, m.policy)
    requires PostTrade(m, v).Ok? && (v == 0 || Accepts(m, v))
    ensures FeesAt(m, v).Ok? && LegsBalance(Execution(Direction(m.input, m.output), v, FeesAt(m, v).value))
    ensures WellFormed(PostTrade(m, v).value) && WeightsSafe(PostTrade(m, v).value, m.policy)
    ensures PostTrade(m, v).value.nav == m.portfolio.nav + FeesAt(m, v).value.treasuryAmount
  {
    hide FeesAt, ApplyFeeInclusiveTrade, WellFormed, WeightsSafe, AssetIndex, IsFeeTrade, Accepts;
    var fees, p := FeesAt(m, v).value, m.portfolio;
    DistributionIdentity(m, v);
    if v == 0 {
      ZeroTrade(p, m.input, m.output, fees);
      NothingRetainedOnZero(m);
    } else {
      FeeTradeShape(p, m.input, m.output, v, fees);
      FeeTradeKeepsWellFormed(p, PostTrade(m, v).value, AssetIndex(p.assets, m.input).value,
        AssetIndex(p.assets, m.output).value, v, fees.treasuryAmount);
      TradedValueIsUint256(p, m.input, m.output, v, fees);
      AcceptedFillIsSafe(m, v);
    }
  }

  lemma TradedValueIsUint256(p: Portfolio, input: Token, output: Token, v: nat, fees: FeeDistribution)
    requires ApplyFeeInclusiveTrade(p, input, output, v, fees).Ok?
    ensures v <= UINT256_MAX
  {
  }

  /** What every run establishes, whatever the orders are. */
  ghost predicate RunInvariant(start: State, s: State, log: seq<Execution>, policy: Policy) {
    && ValidState(s, policy)
    && s.portfolio.nav == start.portfolio.nav + TotalRetained(log)
    && s.epochs.Keys == start.epochs.Keys
    && (forall d :: d in start.epochs ==>
          && s.epochs[d].baseline == start.epochs[d].baseline
          && s.epochs[d].consumed == start.epochs[d].consumed + TotalConsumed(log, d)
          && s.epochs[d].consumed <= s.epochs[d].baseline)
    && forall n :: 0 <= n < |log| ==> LegsBalance(log[n])
  }

  /**
   After any orders the portfolio is safe, NAV is the initial NAV plus every retained fee, and each
   direction's consumption is its initial one plus its executed values, never past the baseline.
   Every prefix of a run is a run, so this holds at every intermediate point.
   */
  lemma {:induction false} RunsKeepPortfolioSafe(start: State, policy: Policy, fee: FeeConfig, orders: seq<Order>)
    requires ValidState(start, policy)
    ensures RunInvariant(start, Run(start, policy, fee, orders).0, Run(start, policy, fee, orders).1, policy)
    decreases |orders|
  {
    hide Execute, Advance, ValidState, LegsBalance, RunInvariant;
    if orders == [] {
      NothingRun(start, policy);
    } else {
      var front, order := orders[..|orders| - 1], orders[|orders| - 1];
      RunsKeepPortfolioSafe(start, policy, fee, front);
      var (before, log) := Run(start, policy, fee, front);
      RunAdvances(start, before, log, policy, fee, order);
    }
  }

  lemma NothingRun(start: State, policy: Policy)
    requires ValidState(start, policy)
    ensures RunInvariant(start, start, [], policy)
  {
    hide WellFormed, WeightsSafe;
  }

  lemma RunAdvances(start: State, before: State, log: seq<Execution>, policy: Policy, fee: FeeConfig, order: Order)
    requires RunInvariant(start, before, log, policy)
    ensures var e := Execute(before, policy, fee, order);
            RunInvariant(start, Advance(before, policy, fee, order), if e == None then log else log + [e.value], policy)
  {
    hide Execute, Advance, WellFormed, WeightsSafe, LegsBalance;
    AdvanceKeeps(before, policy, fee, order);
    var e := Execute(before, policy, fee, order);
    if e.Some? {
      assert (log + [e.value])[..|log|] == log;
    }
  }
}
